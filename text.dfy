/** Characters and strings as the app's string handling sees them, restricted to ASCII:
    word characters for regular-expression boundaries, case mapping, whitespace trimming,
    splitting, joining and the ordering used by `sorted()`. */
module Text {

  /** A character that `\w` matches: an ASCII letter, digit or underscore. */
  predicate IsWordChar(c: char) {
    ('a' <= c <= 'z') || ('A' <= c <= 'Z') || ('0' <= c <= '9') || c == '_'
  }

  predicate IsLowerAscii(c: char) { 'a' <= c <= 'z' }

  predicate IsUpperAscii(c: char) { 'A' <= c <= 'Z' }

  /** The straight apostrophe and the typographic one (U+2019). */
  predicate IsApostrophe(c: char) { c == '\'' || c == '’' }

  /** The ASCII members of Foundation's whitespace-and-newlines set. */
  predicate IsWhitespace(c: char) {
    c == ' ' || c == '\t' || c == '\n' || c == '\r' || c == '\U{B}' || c == '\U{C}'
  }

  function ToLower(c: char): (d: char)
    ensures !IsUpperAscii(d)
    ensures IsWordChar(d) == IsWordChar(c) && IsWhitespace(d) == IsWhitespace(c)
    ensures !IsUpperAscii(c) ==> d == c
    ensures IsUpperAscii(c) ==> IsLowerAscii(d)
  {
    if IsUpperAscii(c) then (c as int + 32) as char else c
  }

  function ToUpper(c: char): (d: char)
    ensures !IsLowerAscii(d)
    ensures IsWordChar(d) == IsWordChar(c) && IsWhitespace(d) == IsWhitespace(c)
    ensures !IsLowerAscii(c) ==> d == c
    ensures IsLowerAscii(c) ==> IsUpperAscii(d)
  {
    if IsLowerAscii(c) then (c as int - 32) as char else c
  }

  /** Character comparison of a regular expression, with or without `(?i)`. */
  predicate SameChar(a: char, b: char, ignoreCase: bool) {
    if ignoreCase then ToLower(a) == ToLower(b) else a == b
  }

  /** `s` and `t` are the same text, letter case ignored when `ignoreCase`. */
  predicate SameText(s: string, t: string, ignoreCase: bool) {
    |s| == |t| && forall j :: 0 <= j < |s| ==> SameChar(s[j], t[j], ignoreCase)
  }

  /** `s` and `t` are equal up to letter case (recursive, so it can be evaluated on literals). */
  predicate FoldEqual(s: string, t: string) {
    if s == [] || t == [] then s == t else ToLower(s[0]) == ToLower(t[0]) && FoldEqual(s[1..], t[1..])
  }

  lemma {:induction false} FoldEqualSameText(s: string, t: string)
    requires FoldEqual(s, t)
    ensures SameText(s, t, true)
  {
    if s != [] && t != [] {
      FoldEqualSameText(s[1..], t[1..]);
      forall j | 0 < j < |s| ensures SameChar(s[j], t[j], true) {
        assert s[j] == s[1..][j - 1] && t[j] == t[1..][j - 1];
      }
    }
  }

  /** `lowercased()`. */
  function Lowercased(s: string): (r: string)
    ensures |r| == |s|
    ensures forall j :: 0 <= j < |s| ==> r[j] == ToLower(s[j])
  {
    seq(|s|, j requires 0 <= j < |s| => ToLower(s[j]))
  }

  // ----- Trimming -----

  function TrimStart(s: string): (r: string)
    ensures |r| <= |s| && r == s[|s| - |r|..]
    ensures r == [] || !IsWhitespace(r[0])
    ensures forall j :: 0 <= j < |s| - |r| ==> IsWhitespace(s[j])
  {
    if s != [] && IsWhitespace(s[0]) then TrimStart(s[1..]) else s
  }

  function TrimEnd(s: string): (r: string)
    ensures |r| <= |s| && r == s[..|r|]
    ensures r == [] || !IsWhitespace(r[|r| - 1])
    ensures forall j :: |r| <= j < |s| ==> IsWhitespace(s[j])
  {
    if s != [] && IsWhitespace(s[|s| - 1]) then TrimEnd(s[..|s| - 1]) else s
  }

  /** `trimmingCharacters(in: .whitespacesAndNewlines)`: the longest slice of `s` that neither
      starts nor ends with whitespace, everything cut away being whitespace. */
  function Trim(s: string): (r: string)
    ensures exists i, j :: 0 <= i <= j <= |s| && r == s[i..j] &&
              (forall k :: 0 <= k < i ==> IsWhitespace(s[k])) &&
              (forall k :: j <= k < |s| ==> IsWhitespace(s[k]))
    ensures IsTrimmed(r)
  {
    var t := TrimStart(s);
    var r := TrimEnd(t);
    var i := |s| - |t|;
    var j := i + |r|;
    assert t == s[i..];
    assert r == s[i..j];
    assert forall k :: j <= k < |s| ==> IsWhitespace(s[k]) by {
      forall k | j <= k < |s| ensures IsWhitespace(s[k]) {
        assert s[k] == t[k - i] && |r| <= k - i < |t|;
      }
    }
    assert forall k :: 0 <= k < i ==> IsWhitespace(s[k]);
    r
  }

  predicate IsTrimmed(s: string) {
    s == [] || (!IsWhitespace(s[0]) && !IsWhitespace(s[|s| - 1]))
  }

  lemma TrimOfTrimmed(s: string)
    requires IsTrimmed(s)
    ensures Trim(s) == s
  {
  }

  lemma {:induction false} TrimAfterSpaces(w: string, s: string)
    requires forall j :: 0 <= j < |w| ==> IsWhitespace(w[j])
    requires IsTrimmed(s)
    ensures Trim(w + s) == s
  {
    if w == [] {
      assert w + s == s;
    } else {
      assert (w + s)[1..] == w[1..] + s;
      TrimAfterSpaces(w[1..], s);
      if s == [] {
        assert TrimStart(w + s) == [];
      }
    }
  }

  // ----- Capitalisation -----

  /** Foundation's `capitalized`, in ASCII: the first character of each whitespace-delimited
      word upper case, every other character lower case. `atWordStart` says whether the
      character before `s` ended a word (or there is none). */
  function CapitalizeFrom(s: string, atWordStart: bool): (r: string)
    ensures |r| == |s|
    ensures forall j :: 0 <= j < |s| ==> IsWhitespace(r[j]) == IsWhitespace(s[j])
    ensures forall j :: 0 <= j < |s| ==> r[j] == ToUpper(s[j]) || r[j] == ToLower(s[j])
    ensures forall j :: 0 <= j < |s| ==>
      r[j] == if (if j == 0 then atWordStart else IsWhitespace(s[j - 1])) then ToUpper(s[j]) else ToLower(s[j])
  {
    if s == [] then []
    else [if atWordStart then ToUpper(s[0]) else ToLower(s[0])]
         + CapitalizeFrom(s[1..], IsWhitespace(s[0]))
  }

  function Capitalized(s: string): (r: string)
    ensures |r| == |s|
    ensures IsTrimmed(s) ==> IsTrimmed(r)
    ensures r == [] || !IsLowerAscii(r[0])
    ensures forall j :: 0 <= j < |s| ==>
      r[j] == if j == 0 || IsWhitespace(s[j - 1]) then ToUpper(s[j]) else ToLower(s[j])
  {
    CapitalizeFrom(s, true)
  }

  lemma {:induction false} CapitalizeFromIdempotent(s: string, atWordStart: bool)
    ensures CapitalizeFrom(CapitalizeFrom(s, atWordStart), atWordStart) == CapitalizeFrom(s, atWordStart)
  {
    if s != [] {
      var r := CapitalizeFrom(s, atWordStart);
      assert r[1..] == CapitalizeFrom(s[1..], IsWhitespace(s[0]));
      CapitalizeFromIdempotent(s[1..], IsWhitespace(s[0]));
    }
  }

  /** Capitalising twice is capitalising once. */
  lemma CapitalizedIdempotent(s: string)
    ensures Capitalized(Capitalized(s)) == Capitalized(s)
  {
    CapitalizeFromIdempotent(s, true);
  }

  /** Trimming keeps only characters of the text. */
  lemma TrimLacks(s: string, c: char)
    requires !Contains(s, c)
    ensures !Contains(Trim(s), c)
  {
    var i, j :| 0 <= i <= j <= |s| && Trim(s) == s[i..j];
    SliceLacks(s, i, j, c);
  }

  /** A slice of a text without `c` is without `c`. */
  lemma SliceLacks(s: string, i: nat, j: nat, c: char)
    requires i <= j <= |s| && !Contains(s, c)
    ensures !Contains(s[i..j], c)
  {
    forall k | 0 <= k < j - i ensures s[i..j][k] != c {
      assert s[i..j][k] == s[i + k];
    }
  }

  /** Capitalising brings in no character that is not an ASCII letter. */
  lemma CapitalizedLacks(s: string, c: char)
    requires !IsUpperAscii(c) && !IsLowerAscii(c) && !Contains(s, c)
    ensures !Contains(Capitalized(s), c)
  {
    var r := Capitalized(s);
    assert forall k :: 0 <= k < |r| ==> r[k] == ToUpper(s[k]) || r[k] == ToLower(s[k]);
  }

  /** Trimming and capitalising bring in no character that is not an ASCII letter. */
  lemma CapitalizedTrimLacks(s: string, c: char)
    requires !IsUpperAscii(c) && !IsLowerAscii(c)
    ensures !Contains(s, c) ==> !Contains(Capitalized(Trim(s)), c)
  {
    if !Contains(s, c) {
      TrimLacks(s, c);
      CapitalizedLacks(Trim(s), c);
    }
  }

  // ----- Splitting and joining -----

  function Contains(s: string, c: char): bool {
    exists j :: 0 <= j < |s| && s[j] == c
  }

  /** Every piece of `s` between occurrences of `sep`, empty pieces included. */
  function Fields(s: string, sep: char): (r: seq<string>)
    ensures |r| >= 1
    ensures forall k :: 0 <= k < |r| ==> !Contains(r[k], sep)
  {
    if s == [] then [[]]
    else
      var rest := Fields(s[1..], sep);
      if s[0] == sep then [[]] + rest
      else
        assert !Contains(rest[0], sep);
        [[s[0]] + rest[0]] + rest[1..]
  }

  /** `joined(separator:)`. */
  function Join(xs: seq<string>, sep: string): (r: string)
    ensures xs == [] ==> r == []
    ensures |xs| == 1 ==> r == xs[0]
  {
    if xs == [] then []
    else if |xs| == 1 then xs[0]
    else xs[0] + sep + Join(xs[1..], sep)
  }

  /** Splitting reverses joining with a one-character separator that no piece contains. */
  lemma {:induction false} FieldsOfJoin(xs: seq<string>, sep: char)
    requires |xs| >= 1
    requires forall k :: 0 <= k < |xs| ==> !Contains(xs[k], sep)
    ensures Fields(Join(xs, [sep]), sep) == xs
  {
    if |xs| == 1 {
      FieldsOfPiece(xs[0], [], sep);
      assert xs[0] + [] == xs[0];
    } else {
      var tail := Join(xs[1..], [sep]);
      FieldsOfJoin(xs[1..], sep);
      FieldsOfPiece(xs[0], [sep] + tail, sep);
      assert Join(xs, [sep]) == xs[0] + ([sep] + tail);
      assert ([sep] + tail)[1..] == tail;
      assert xs == [xs[0]] + xs[1..];
    }
  }

  /** The piece before the first separator. */
  lemma {:induction false} FieldsOfPiece(x: string, rest: string, sep: char)
    requires !Contains(x, sep)
    ensures Fields(x + rest, sep) ==
            (if rest == [] then [x]
             else if rest[0] == sep then [x] + Fields(rest[1..], sep)
             else [x + Fields(rest, sep)[0]] + Fields(rest, sep)[1..])
  {
    if x == [] {
      assert x + rest == rest;
      if rest != [] && rest[0] == sep {
        assert Fields(rest, sep) == [[]] + Fields(rest[1..], sep);
      } else if rest != [] {
        var f := Fields(rest, sep);
        assert [] + f[0] == f[0];
        assert [x + f[0]] + f[1..] == f;
      }
    } else {
      assert (x + rest)[1..] == x[1..] + rest;
      assert !Contains(x[1..], sep) by {
        forall j | 0 <= j < |x[1..]| ensures x[1..][j] != sep { assert x[1..][j] == x[j + 1]; }
      }
      FieldsOfPiece(x[1..], rest, sep);
      assert x[0] != sep by { assert x[0] == x[0]; }
      assert [x[0]] + x[1..] == x;
      if rest != [] && rest[0] != sep {
        assert [x[0]] + (x[1..] + Fields(rest, sep)[0]) == x + Fields(rest, sep)[0];
      }
    }
  }

  // ----- Ordering -----

  /** `<` on strings: lexicographic order of the characters' code points. */
  predicate Less(a: string, b: string) {
    |b| > 0 && (|a| == 0 || a[0] < b[0] || (a[0] == b[0] && Less(a[1..], b[1..])))
  }

  lemma {:induction false} LessIrreflexive(a: string)
    ensures !Less(a, a)
  {
    if |a| > 0 { LessIrreflexive(a[1..]); }
  }

  lemma {:induction false} LessTransitive(a: string, b: string, c: string)
    requires Less(a, b) && Less(b, c)
    ensures Less(a, c)
  {
    if |a| > 0 && a[0] == b[0] && b[0] == c[0] {
      LessTransitive(a[1..], b[1..], c[1..]);
    }
  }

  lemma {:induction false} LessTotal(a: string, b: string)
    requires a != b
    ensures Less(a, b) || Less(b, a)
  {
    if |a| > 0 && |b| > 0 && a[0] == b[0] {
      assert a == [a[0]] + a[1..] && b == [b[0]] + b[1..];
      LessTotal(a[1..], b[1..]);
    }
  }

  lemma LessAsymmetric()
    ensures forall a, b :: Less(a, b) ==> !Less(b, a)
  {
    forall a, b | Less(a, b) ensures !Less(b, a) {
      if Less(b, a) {
        LessTransitive(a, b, a);
        LessIrreflexive(a);
      }
    }
  }

  predicate IsLeast(m: string, S: set<string>) {
    m in S && forall y :: y in S && y != m ==> Less(m, y)
  }

  lemma {:induction false} LeastExists(S: set<string>)
    requires S != {}
    ensures exists m :: IsLeast(m, S)
    decreases |S|
  {
    var x :| x in S;
    if S == {x} {
      assert IsLeast(x, S);
    } else {
      LeastExists(S - {x});
      var m :| IsLeast(m, S - {x});
      if Less(m, x) {
        assert IsLeast(m, S);
      } else {
        LessTotal(m, x);
        forall y | y in S && y != x ensures Less(x, y) {
          if y != m { LessTransitive(x, m, y); }
        }
        assert IsLeast(x, S);
      }
    }
  }

  /** The strictly ascending sequence of the elements of a set. */
  predicate StrictlySorted(xs: seq<string>) {
    forall i, j :: 0 <= i < j < |xs| ==> Less(xs[i], xs[j])
  }

  /** `sorted()` of a `Set<String>`: the least element first, then the rest sorted. */
  function SortedElements(S: set<string>): (r: seq<string>)
    ensures |r| == |S|
    ensures forall x :: x in r <==> x in S
    decreases |S|
  {
    if S == {} then []
    else
      LeastExists(S);
      LessAsymmetric();
      var m :| IsLeast(m, S);
      [m] + SortedElements(S - {m})
  }

  /** The elements come out in strictly ascending order. */
  lemma {:induction false} SortedElementsSorted(S: set<string>)
    ensures StrictlySorted(SortedElements(S))
    decreases |S|
  {
    if S != {} {
      var r := SortedElements(S);
      var m := r[0];
      assert IsLeast(m, S) && r[1..] == SortedElements(S - {m});
      SortedElementsSorted(S - {m});
      forall i, j | 0 <= i < j < |r| ensures Less(r[i], r[j]) {
        if i > 0 {
          assert r[i] == r[1..][i - 1] && r[j] == r[1..][j - 1];
        } else {
          assert r[j] in S - {m} by { assert r[j] == r[1..][j - 1]; }
        }
      }
    }
  }

  /** Sorting lists each element of the set once: the result has no repeats. */
  lemma SortedElementsDistinct(S: set<string>)
    ensures forall i, j :: 0 <= i < j < |SortedElements(S)| ==> SortedElements(S)[i] != SortedElements(S)[j]
  {
    forall i, j | 0 <= i < j < |SortedElements(S)|
      ensures SortedElements(S)[i] != SortedElements(S)[j]
    {
      SortedElementsSorted(S);
      LessIrreflexive(SortedElements(S)[i]);
    }
  }
}
