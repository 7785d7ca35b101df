/** Rules that cannot interfere with one another: literal patterns without boundaries that
    start with an anchor character (up to case) and hold it nowhere else, whose replacements
    lack the anchor. The contraction rules of the rewriter are such a family (anchor `y`). Two
    rules of one family commute, so the order in which a family is applied does not matter. */
module AnchoredRules {
  import opened Text
  import opened Regex
  import opened Lists

  predicate StartsWith(s: string, p: string, ignoreCase: bool) {
    |p| <= |s| && SameText(s[..|p|], p, ignoreCase)
  }

  /** `s` lacks `c` up to case, written recursively so that it can be evaluated on literals. */
  predicate LacksFold(s: string, c: char) {
    s == [] || (ToLower(s[0]) != c && LacksFold(s[1..], c))
  }

  lemma {:induction false} LacksFoldLacks(s: string, c: char)
    requires LacksFold(s, c)
    ensures Lacks(s, c)
  {
    if s != [] {
      LacksFoldLacks(s[1..], c);
      forall j | 0 <= j < |s| ensures ToLower(s[j]) != c {
        if j > 0 { assert s[j] == s[1..][j - 1]; }
      }
    }
  }

  /** The two texts differ, up to case, at some position both have. */
  predicate FoldDiffer(a: string, b: string) {
    |a| > 0 && |b| > 0 && (ToLower(a[0]) != ToLower(b[0]) || FoldDiffer(a[1..], b[1..]))
  }

  /** A text whose `j`-th character differs (up to case) from the pattern's does not start
      with the pattern. */
  lemma NotStartsWithAt(s: string, p: string, ci: bool, j: nat)
    requires j < |p| && (j < |s| ==> ToLower(s[j]) != ToLower(p[j]))
    ensures !StartsWith(s, p, ci)
  {
    if |p| <= |s| { assert s[..|p|][j] == s[j]; }
  }

  /** Matching forces the pattern's characters, up to case, on the text. */
  lemma StartsWithFolds(s: string, p: string, ci: bool, j: nat)
    requires StartsWith(s, p, ci) && j < |p|
    ensures ToLower(s[j]) == ToLower(p[j])
  {
    assert s[..|p|][j] == s[j];
  }

  /** A match of a pattern is a match of its tail one character later. */
  lemma StartsWithTail(s: string, p: string, ci: bool)
    requires |s| > 0 && |p| > 0
    ensures StartsWith(s, p, ci) ==> StartsWith(s[1..], p[1..], ci)
  {
    if StartsWith(s, p, ci) { assert s[1..][..|p| - 1] == s[..|p|][1..]; }
  }

  /** No text starts with two patterns that differ up to case. */
  lemma {:induction false} FoldDifferExclusive(s: string, p1: string, ci1: bool, p2: string, ci2: bool)
    requires FoldDiffer(p1, p2)
    ensures !(StartsWith(s, p1, ci1) && StartsWith(s, p2, ci2))
  {
    if StartsWith(s, p1, ci1) {
      StartsWithFolds(s, p1, ci1, 0);
      if ToLower(p1[0]) != ToLower(p2[0]) {
        NotStartsWithAt(s, p2, ci2, 0);
      } else {
        StartsWithTail(s, p1, ci1);
        StartsWithTail(s, p2, ci2);
        FoldDifferExclusive(s[1..], p1[1..], ci1, p2[1..], ci2);
      }
    }
  }

  /** A member of the family with anchor `c` and replacement head `d`: a literal rule without
      boundaries or look-ahead whose pattern starts with `c` (up to case), holds `c` nowhere
      else and lacks `d`, and whose replacement is non-empty, lacks `c` and starts with `d`. */
  predicate Anchored(r: Rule, c: char, d: char) {
    && r.pattern.Literal? && r.template.Fixed?
    && !r.leadingBoundary && !r.trailingBoundary && !r.noApostropheAfter
    && |r.pattern.text| > 0 && ToLower(r.pattern.text[0]) == c
    && Lacks(r.pattern.text[1..], c) && Lacks(r.pattern.text, d)
    && |r.template.text| > 0 && Lacks(r.template.text, c) && ToLower(r.template.text[0]) == d
  }

  /** Without a leading `\b` the character before the text is irrelevant. */
  lemma ContextFree(r: Rule, b: bool, s: string)
    requires !r.leadingBoundary
    ensures Scan(r, b, s) == ReplaceAll(r, s)
  {
    if s != [] {
      assert forall a :: AltMatches(r, b, s, a) == AltMatches(r, false, s, a);
      assert MatchAt(r, b, s) == MatchAt(r, false, s);
    }
  }

  /** One step of the scan of a family member: replace a match at the start, or keep the
      first character. */
  lemma Unfold(r: Rule, c: char, d: char, s: string)
    requires Anchored(r, c, d) && s != []
    ensures ReplaceAll(r, s) ==
      if StartsWith(s, r.pattern.text, r.ignoreCase)
      then r.template.text + ReplaceAll(r, s[|r.pattern.text|..])
      else [s[0]] + ReplaceAll(r, s[1..])
  {
    var p := r.pattern.text;
    assert Alternatives(r.pattern) == [p];
    assert AltMatches(r, false, s, p) == StartsWith(s, p, r.ignoreCase);
    if StartsWith(s, p, r.ignoreCase) {
      ContextFree(r, IsWordChar(s[|p| - 1]), s[|p|..]);
    } else {
      ContextFree(r, IsWordChar(s[0]), s[1..]);
    }
  }

  /** A family member passes over a first character that is not its anchor. */
  lemma SkipFreeChar(r: Rule, c: char, d: char, s: string)
    requires Anchored(r, c, d) && s != [] && ToLower(s[0]) != c
    ensures ReplaceAll(r, s) == [s[0]] + ReplaceAll(r, s[1..])
  {
    NotStartsWithAt(s, r.pattern.text, r.ignoreCase, 0);
    Unfold(r, c, d, s);
  }

  /** Text without the anchor passes through a family member untouched. */
  lemma {:induction false} SkipFree(r: Rule, c: char, d: char, w: string, x: string)
    requires Anchored(r, c, d) && Lacks(w, c)
    ensures ReplaceAll(r, w + x) == w + ReplaceAll(r, x)
    decreases |w|
  {
    if w == [] {
      assert w + x == x;
    } else {
      var s, w' := w + x, w[1..];
      assert s[0] == w[0] && s[1..] == w' + x;
      SkipFreeChar(r, c, d, s);
      assert Lacks(w', c) by {
        forall j | 0 <= j < |w'| ensures ToLower(w'[j]) != c {
          assert w'[j] == w[j + 1];
        }
      }
      SkipFree(r, c, d, w', x);
      assert [w[0]] + (w' + ReplaceAll(r, x)) == ([w[0]] + w') + ReplaceAll(r, x);
      assert [w[0]] + w' == w;
    }
  }

  function FreePrefix(t: string, c: char): (n: nat)
    ensures n <= |t| && Lacks(t[..n], c)
    ensures n < |t| ==> ToLower(t[n]) == c
  {
    if t == [] || ToLower(t[0]) == c then 0
    else
      var n := 1 + FreePrefix(t[1..], c);
      assert t[..n] == [t[0]] + t[1..][..n - 1];
      n
  }

  /** The first character of a family member's output. */
  lemma FirstOfOutput(r: Rule, c: char, d: char, s: string)
    requires Anchored(r, c, d) && s != []
    ensures |ReplaceAll(r, s)| > 0
    ensures ToLower(ReplaceAll(r, s)[0]) ==
      if StartsWith(s, r.pattern.text, r.ignoreCase) then d else ToLower(s[0])
  {
    Unfold(r, c, d, s);
  }

  /** A pattern of the family cannot match text showing an anchor or a replacement's first
      character at a later position inside the pattern's length. */
  lemma AnchorBlocks(r: Rule, c: char, d: char, u: string, k: nat)
    requires Anchored(r, c, d) && 0 < k < |r.pattern.text| && k < |u|
    requires ToLower(u[k]) == c || ToLower(u[k]) == d
    ensures !StartsWith(u, r.pattern.text, r.ignoreCase)
  {
    var p := r.pattern.text;
    assert p[k] == p[1..][k - 1];
    NotStartsWithAt(u, p, r.ignoreCase, k);
  }

  /** Rewriting text after a free prefix keeps that prefix in front. */
  lemma RewriteAfterFree(r: Rule, c: char, d: char, s: string, n: nat)
    requires Anchored(r, c, d) && s != [] && n < |s| && Lacks(s[1..][..n], c)
    ensures [s[0]] + ReplaceAll(r, s[1..]) == s[..n + 1] + ReplaceAll(r, s[1..][n..])
  {
    var t := s[1..];
    SkipFree(r, c, d, t[..n], t[n..]);
    assert t == t[..n] + t[n..];
  }

  /** Rewriting with one member cannot create a match of another member right before the
      rewritten text: a new match would have to read the first character of a replacement,
      or a fresh anchor, in the middle of its pattern. */
  lemma NoNewMatch(r1: Rule, r2: Rule, c: char, d: char, s: string)
    requires Anchored(r1, c, d) && Anchored(r2, c, d)
    requires s != [] && !StartsWith(s, r2.pattern.text, r2.ignoreCase)
    ensures !StartsWith([s[0]] + ReplaceAll(r1, s[1..]), r2.pattern.text, r2.ignoreCase)
  {
    var p2 := r2.pattern.text;
    var t := s[1..];
    var n := FreePrefix(t, c);
    RewriteAfterFree(r1, c, d, s, n);
    var u := [s[0]] + ReplaceAll(r1, t);
    var v := ReplaceAll(r1, t[n..]);
    assert u == s[..n + 1] + v;
    if |p2| <= n + 1 {
      assert u[..|p2|] == s[..|p2|];
    } else if n < |t| {
      FirstOfOutput(r1, c, d, t[n..]);
      assert u[n + 1] == v[0];
      AnchorBlocks(r2, c, d, u, n + 1);
    } else {
      assert |u| == n + 1;
    }
  }

  /** Where the first member matches, its replacement passes through the second. */
  lemma PassMatch(r1: Rule, r2: Rule, c: char, d: char, s: string)
    requires Anchored(r1, c, d) && Anchored(r2, c, d)
    requires s != [] && StartsWith(s, r1.pattern.text, r1.ignoreCase)
    ensures ReplaceAll(r2, ReplaceAll(r1, s))
      == r1.template.text + ReplaceAll(r2, ReplaceAll(r1, s[|r1.pattern.text|..]))
  {
    Unfold(r1, c, d, s);
    SkipFree(r2, c, d, r1.template.text, ReplaceAll(r1, s[|r1.pattern.text|..]));
  }

  /** Text matching a pattern whose tail lacks `c` lacks `c` after its first character. */
  lemma MatchTailLacks(s: string, p: string, ci: bool, c: char)
    requires |p| > 0 && StartsWith(s, p, ci) && Lacks(p[1..], c)
    ensures Lacks(s[1..|p|], c)
  {
    forall j | 0 <= j < |p| - 1 ensures ToLower(s[1..|p|][j]) != c {
      StartsWithFolds(s, p, ci, j + 1);
      assert p[j + 1] == p[1..][j];
    }
  }

  /** Where the first member matches, the second leaves the match alone. */
  lemma SkipOtherMatch(r1: Rule, r2: Rule, c: char, d: char, s: string)
    requires Anchored(r1, c, d) && Anchored(r2, c, d)
    requires FoldDiffer(r1.pattern.text, r2.pattern.text)
    requires s != [] && StartsWith(s, r1.pattern.text, r1.ignoreCase)
    ensures ReplaceAll(r2, s)
      == s[..|r1.pattern.text|] + ReplaceAll(r2, s[|r1.pattern.text|..])
  {
    var p1 := r1.pattern.text;
    var w, rest := s[1..|p1|], s[|p1|..];
    FoldDifferExclusive(s, p1, r1.ignoreCase, r2.pattern.text, r2.ignoreCase);
    MatchTailLacks(s, p1, r1.ignoreCase, c);
    calc {
      ReplaceAll(r2, s);
      { Unfold(r2, c, d, s); }
      [s[0]] + ReplaceAll(r2, s[1..]);
      { assert s[1..] == w + rest; }
      [s[0]] + ReplaceAll(r2, w + rest);
      { SkipFree(r2, c, d, w, rest); }
      [s[0]] + (w + ReplaceAll(r2, rest));
      { assert s[..|p1|] == [s[0]] + w; }
      s[..|p1|] + ReplaceAll(r2, rest);
    }
  }

  /** A match followed by anything is replaced. */
  lemma ReMatch(r: Rule, c: char, d: char, m: string, z: string)
    requires Anchored(r, c, d)
    requires |m| == |r.pattern.text| && StartsWith(m, r.pattern.text, r.ignoreCase)
    ensures ReplaceAll(r, m + z) == r.template.text + ReplaceAll(r, z)
  {
    var y := m + z;
    assert y[..|m|] == m;
    Unfold(r, c, d, y);
    assert y[|m|..] == z;
  }

  /** Both orders of two members agree on text that starts with a match of the first. */
  lemma StepAtMatch(r1: Rule, r2: Rule, c: char, d: char, s: string)
    requires Anchored(r1, c, d) && Anchored(r2, c, d)
    requires FoldDiffer(r1.pattern.text, r2.pattern.text)
    requires s != [] && StartsWith(s, r1.pattern.text, r1.ignoreCase)
    ensures var rest := s[|r1.pattern.text|..];
      && ReplaceAll(r2, ReplaceAll(r1, s)) == r1.template.text + ReplaceAll(r2, ReplaceAll(r1, rest))
      && ReplaceAll(r1, ReplaceAll(r2, s)) == r1.template.text + ReplaceAll(r1, ReplaceAll(r2, rest))
  {
    var p1 := r1.pattern.text;
    PassMatch(r1, r2, c, d, s);
    SkipOtherMatch(r1, r2, c, d, s);
    assert s[..|p1|][..|p1|] == s[..|p1|];
    ReMatch(r1, c, d, s[..|p1|], ReplaceAll(r2, s[|p1|..]));
  }

  /** Two members of one family with patterns that differ (up to case) commute. */
  lemma {:induction false} CommuteOn(r1: Rule, r2: Rule, c: char, d: char, s: string)
    requires Anchored(r1, c, d) && Anchored(r2, c, d)
    requires FoldDiffer(r1.pattern.text, r2.pattern.text)
    ensures ReplaceAll(r2, ReplaceAll(r1, s)) == ReplaceAll(r1, ReplaceAll(r2, s))
    decreases |s|
  {
    var p1, p2 := r1.pattern.text, r2.pattern.text;
    if s == [] {
    } else if StartsWith(s, p1, r1.ignoreCase) {
      StepAtMatch(r1, r2, c, d, s);
      CommuteOn(r1, r2, c, d, s[|p1|..]);
    } else if StartsWith(s, p2, r2.ignoreCase) {
      FoldDifferSymmetric(p1, p2);
      StepAtMatch(r2, r1, c, d, s);
      CommuteOn(r1, r2, c, d, s[|p2|..]);
    } else {
      var t := s[1..];
      Unfold(r1, c, d, s);
      Unfold(r2, c, d, s);
      var y1, y2 := [s[0]] + ReplaceAll(r1, t), [s[0]] + ReplaceAll(r2, t);
      if ToLower(s[0]) == c {
        NoNewMatch(r1, r2, c, d, s);
        NoNewMatch(r2, r1, c, d, s);
      } else {
        NotStartsWithAt(y1, p2, r2.ignoreCase, 0);
        NotStartsWithAt(y2, p1, r1.ignoreCase, 0);
      }
      Unfold(r2, c, d, y1);
      Unfold(r1, c, d, y2);
      assert y1[1..] == ReplaceAll(r1, t) && y2[1..] == ReplaceAll(r2, t);
      CommuteOn(r1, r2, c, d, t);
    }
  }

  lemma {:induction false} FoldDifferSymmetric(a: string, b: string)
    requires FoldDiffer(a, b)
    ensures FoldDiffer(b, a)
  {
    if ToLower(a[0]) == ToLower(b[0]) { FoldDifferSymmetric(a[1..], b[1..]); }
  }

  /** A family: every member anchored on `c` with replacement head `d`, and the patterns of
      any two members differ up to case. */
  ghost predicate Family(rs: seq<Rule>, c: char, d: char) {
    && (forall i :: 0 <= i < |rs| ==> Anchored(rs[i], c, d))
    && (forall i, j :: 0 <= i < |rs| && 0 <= j < |rs| && i != j ==>
          FoldDiffer(rs[i].pattern.text, rs[j].pattern.text))
  }

  /** Two texts that differ up to case at a position both have. */
  lemma {:induction false} FoldDifferAt(a: string, b: string, k: nat)
    requires k < |a| && k < |b| && ToLower(a[k]) != ToLower(b[k])
    ensures FoldDiffer(a, b)
  {
    if k > 0 && ToLower(a[0]) == ToLower(b[0]) { FoldDifferAt(a[1..], b[1..], k - 1); }
  }

  /** The members of a family commute pairwise. */
  lemma FamilyCommutes(rs: seq<Rule>, c: char, d: char)
    requires Family(rs, c, d)
    ensures PairwiseCommute(rs)
  {
    forall r1, r2 | r1 in rs && r2 in rs ensures Commute(r1, r2) {
      if r1 != r2 {
        var i :| 0 <= i < |rs| && rs[i] == r1;
        var j :| 0 <= j < |rs| && rs[j] == r2;
        forall s ensures CommuteAt(r1, r2, s) {
          CommuteOn(r1, r2, c, d, s);
        }
      }
    }
  }

  /** Where member `k` matches, the first `n` members together replace the match by member
      `k`'s replacement when `k` is among them, and leave it alone otherwise. */
  lemma {:induction false} FamilyPrefixAtMatch(rs: seq<Rule>, c: char, d: char, k: nat, n: nat, s: string)
    requires Family(rs, c, d) && k < |rs| && n <= |rs|
    requires StartsWith(s, rs[k].pattern.text, rs[k].ignoreCase)
    ensures var p := rs[k].pattern.text;
      ApplyRules(rs[..n], s)
        == (if k < n then rs[k].template.text else s[..|p|]) + ApplyRules(rs[..n], s[|p|..])
  {
    var p, q := rs[k].pattern.text, rs[k].template.text;
    var rest := s[|p|..];
    if n == 0 {
      assert s == s[..|p|] + rest;
    } else {
      var m := n - 1;
      var r := rs[m];
      assert rs[..n][..m] == rs[..m];
      assert rs[..n][m] == r;
      FamilyPrefixAtMatch(rs, c, d, k, m, s);
      var x := ApplyRules(rs[..m], rest);
      if m < k {
        assert Anchored(r, c, d) && Anchored(rs[k], c, d) && FoldDiffer(p, r.pattern.text);
        OtherPassesMatch(rs[k], r, c, d, s, x);
      } else if m == k {
        assert s[..|p|][..|p|] == s[..|p|];
        ReMatch(r, c, d, s[..|p|], x);
      } else {
        SkipFree(r, c, d, q, x);
      }
    }
  }

  /** A matched text of one member passes unchanged through another member. */
  lemma OtherPassesMatch(rk: Rule, r: Rule, c: char, d: char, s: string, x: string)
    requires Anchored(rk, c, d) && Anchored(r, c, d)
    requires FoldDiffer(rk.pattern.text, r.pattern.text)
    requires StartsWith(s, rk.pattern.text, rk.ignoreCase)
    ensures var m := s[..|rk.pattern.text|];
      ReplaceAll(r, m + x) == m + ReplaceAll(r, x)
  {
    var p := rk.pattern.text;
    var y := s[..|p|] + x;
    assert y[..|p|] == s[..|p|];
    assert StartsWith(y, p, rk.ignoreCase);
    SkipOtherMatch(rk, r, c, d, y);
    assert y[|p|..] == x;
  }

  /** Where member `k` matches, the whole family replaces the match by member `k`'s
      replacement and goes on after it. */
  lemma FamilyAtMatch(rs: seq<Rule>, c: char, d: char, k: nat, s: string)
    requires Family(rs, c, d) && k < |rs|
    requires StartsWith(s, rs[k].pattern.text, rs[k].ignoreCase)
    ensures ApplyRules(rs, s)
      == rs[k].template.text + ApplyRules(rs, s[|rs[k].pattern.text|..])
  {
    FamilyPrefixAtMatch(rs, c, d, k, |rs|, s);
    assert rs[..|rs|] == rs;
  }
}
