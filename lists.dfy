/** Order-preserving selection from a list, as Swift's `filter` and `removeAll(where:)` do it. */
module Lists {

  /** Swift's `Optional`. */
  datatype Option<T> = None | Some(value: T)

  /** `firstIndex(where:)`: the position of the first element that satisfies `p`, if any. */
  function FirstIndex<T>(xs: seq<T>, p: T -> bool): (r: Option<nat>)
    ensures r.Some? ==> r.value < |xs| && p(xs[r.value])
    ensures r.Some? ==> forall j :: 0 <= j < r.value ==> !p(xs[j])
    ensures r.None? <==> forall j :: 0 <= j < |xs| ==> !p(xs[j])
    decreases |xs|
  {
    if xs == [] then None
    else if p(xs[0]) then Some(0)
    else
      match FirstIndex(xs[1..], p)
      case None => None
      case Some(i) =>
        assert forall j :: 1 <= j <= i ==> xs[j] == xs[1..][j - 1];
        Some(i + 1)
  }

  /** `xs` can be obtained from `ys` by deleting elements, the rest keeping their order. */
  predicate Subsequence<T(==)>(xs: seq<T>, ys: seq<T>)
    decreases |ys|
  {
    if xs == [] then true
    else if ys == [] then false
    else if xs[0] == ys[0] then Subsequence(xs[1..], ys[1..])
    else Subsequence(xs, ys[1..])
  }

  lemma {:induction false} SubsequenceOfSelf<T>(xs: seq<T>)
    ensures Subsequence(xs, xs)
  {
    if xs != [] { SubsequenceOfSelf(xs[1..]); }
  }

  /** Dropping the first element of a subsequence keeps it a subsequence. */
  lemma {:induction false} SubsequenceTail<T>(xs: seq<T>, ys: seq<T>)
    requires xs != [] && Subsequence(xs, ys)
    ensures Subsequence(xs[1..], ys)
    decreases |ys|, 1
  {
    if xs[0] != ys[0] {
      SubsequenceTail(xs, ys[1..]);
    }
    SubsequenceWeaken(xs[1..], ys);
  }

  /** A subsequence of the tail of a list is a subsequence of the list. */
  lemma {:induction false} SubsequenceWeaken<T>(xs: seq<T>, ys: seq<T>)
    requires ys != [] && Subsequence(xs, ys[1..])
    ensures Subsequence(xs, ys)
    decreases |ys|, 0
  {
    if xs != [] && xs[0] == ys[0] {
      SubsequenceTail(xs, ys[1..]);
    }
  }

  /** A subsequence holds only elements of the larger list and is no longer. */
  lemma {:induction false} SubsequenceElements<T>(xs: seq<T>, ys: seq<T>)
    requires Subsequence(xs, ys)
    ensures |xs| <= |ys|
    ensures forall x :: x in xs ==> x in ys
    decreases |ys|
  {
    if xs != [] {
      if xs[0] == ys[0] {
        SubsequenceElements(xs[1..], ys[1..]);
        assert xs == [xs[0]] + xs[1..];
      } else {
        SubsequenceElements(xs, ys[1..]);
      }
    }
  }

  /** The elements of `xs` that satisfy `p`, in their order. */
  function Filter<T(!new)>(xs: seq<T>, p: T -> bool): (r: seq<T>)
    ensures |r| <= |xs|
    ensures forall x :: x in r <==> x in xs && p(x)
    ensures forall k :: 0 <= k < |r| ==> p(r[k])
    ensures forall x :: multiset(r)[x] == if p(x) then multiset(xs)[x] else 0
    decreases |xs|
  {
    if xs == [] then []
    else
      assert xs == [xs[0]] + xs[1..];
      if p(xs[0]) then [xs[0]] + Filter(xs[1..], p)
      else Filter(xs[1..], p)
  }

  /** The selection keeps the order of the list. */
  lemma {:induction false} FilterSubsequence<T(!new)>(xs: seq<T>, p: T -> bool)
    ensures Subsequence(Filter(xs, p), xs)
    decreases |xs|
  {
    if xs != [] {
      FilterSubsequence(xs[1..], p);
      var r := Filter(xs, p);
      if p(xs[0]) {
        assert r[1..] == Filter(xs[1..], p);
      } else {
        SubsequenceWeaken(r, xs);
      }
    }
  }

  /** A selection that every element passes is the whole list. */
  lemma {:induction false} FilterAll<T(!new)>(xs: seq<T>, p: T -> bool)
    requires forall k :: 0 <= k < |xs| ==> p(xs[k])
    ensures Filter(xs, p) == xs
    decreases |xs|
  {
    if xs != [] {
      FilterAll(xs[1..], p);
      assert xs == [xs[0]] + xs[1..];
    }
  }

  /** Selecting from a concatenation selects from each part. */
  lemma {:induction false} FilterAppend<T(!new)>(xs: seq<T>, ys: seq<T>, p: T -> bool)
    ensures Filter(xs + ys, p) == Filter(xs, p) + Filter(ys, p)
    decreases |xs|
  {
    if xs == [] {
      assert xs + ys == ys;
    } else {
      assert (xs + ys)[1..] == xs[1..] + ys;
      FilterAppend(xs[1..], ys, p);
    }
  }

  /** `n` copies of `x`. */
  function Copies<T>(x: T, n: nat): (r: seq<T>)
    ensures |r| == n
    ensures forall k :: 0 <= k < n ==> r[k] == x
  {
    if n == 0 then [] else [x] + Copies(x, n - 1)
  }

  /** `code` picks, step by step, one of the elements not picked yet: a Lehmer code, which
      names every arrangement of `n` elements exactly once. */
  predicate IsLehmerCode(code: seq<nat>, n: nat) {
    |code| == n && forall k :: 0 <= k < n ==> code[k] < n - k
  }

  /** The arrangement of `xs` that `code` names. */
  function Arrange<T>(xs: seq<T>, code: seq<nat>): seq<T>
    requires IsLehmerCode(code, |xs|)
    decreases |xs|
  {
    if xs == [] then []
    else
      var i := code[0];
      var rest := xs[..i] + xs[i + 1..];
      assert IsLehmerCode(code[1..], |rest|);
      [xs[i]] + Arrange(rest, code[1..])
  }

  /** The arrangement starts with the element the code's first entry picks. */
  lemma ArrangeFirst<T>(xs: seq<T>, code: seq<nat>)
    requires IsLehmerCode(code, |xs|) && |xs| > 0
    ensures |Arrange(xs, code)| > 0 && Arrange(xs, code)[0] == xs[code[0]]
  {
  }

  /** Taking one element out and putting it in front keeps the multiset. */
  lemma PickKeeps<T>(xs: seq<T>, i: nat)
    requires i < |xs|
    ensures multiset([xs[i]]) + multiset(xs[..i] + xs[i + 1..]) == multiset(xs)
  {
    assert xs == xs[..i] + [xs[i]] + xs[i + 1..];
  }

  /** An arrangement holds the same elements as many times as the original. */
  lemma {:induction false} ArrangePermutes<T>(xs: seq<T>, code: seq<nat>)
    requires IsLehmerCode(code, |xs|)
    ensures multiset(Arrange(xs, code)) == multiset(xs)
    decreases |xs|
  {
    if xs != [] {
      var i := code[0];
      var rest := xs[..i] + xs[i + 1..];
      assert IsLehmerCode(code[1..], |rest|);
      ArrangePermutes(rest, code[1..]);
      var tail := Arrange(rest, code[1..]);
      assert Arrange(xs, code) == [xs[i]] + tail;
      assert multiset([xs[i]] + tail) == multiset([xs[i]]) + multiset(tail);
      PickKeeps(xs, i);
    }
  }

  lemma RemoveBoth<T>(xs: seq<T>, i: nat, ys: seq<T>)
    requires multiset(ys) == multiset(xs) && i < |xs| && ys != [] && xs[i] == ys[0]
    ensures multiset(ys[1..]) == multiset(xs[..i] + xs[i + 1..])
  {
    calc {
      multiset(ys[1..]);
      { assert ys == [ys[0]] + ys[1..]; }
      multiset(ys) - multiset{ys[0]};
      { assert xs == xs[..i] + [xs[i]] + xs[i + 1..]; }
      multiset(xs[..i] + xs[i + 1..]);
    }
  }

  /** Every rearrangement of `xs` is named by some code. */
  lemma {:induction false} ArrangeComplete<T>(xs: seq<T>, ys: seq<T>)
    requires multiset(ys) == multiset(xs)
    ensures exists code :: IsLehmerCode(code, |xs|) && Arrange(xs, code) == ys
    decreases |xs|
  {
    if xs == [] {
      assert IsLehmerCode([], 0) && Arrange(xs, []) == ys;
    } else {
      var i := FirstPicked(xs, ys);
      var rest := xs[..i] + xs[i + 1..];
      RemoveBoth(xs, i, ys);
      ArrangeComplete(rest, ys[1..]);
      var tail :| IsLehmerCode(tail, |rest|) && Arrange(rest, tail) == ys[1..];
      var code := [i] + tail;
      assert code[1..] == tail;
      assert Arrange(xs, code) == [ys[0]] + ys[1..];
    }
  }

  /** Where the first element of a rearrangement sits in the original. */
  lemma FirstPicked<T>(xs: seq<T>, ys: seq<T>) returns (i: nat)
    requires multiset(ys) == multiset(xs) && xs != []
    ensures ys != [] && i < |xs| && xs[i] == ys[0]
  {
    assert |ys| == |multiset(ys)| == |xs|;
    assert ys[0] in multiset(xs) by { assert ys == [ys[0]] + ys[1..]; }
    i :| 0 <= i < |xs| && xs[i] == ys[0];
  }
}
