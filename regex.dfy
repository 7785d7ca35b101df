/** The part of `replacingOccurrences(of:with:options: .regularExpression)` and
    `NSRegularExpression.stringByReplacingMatches` that the rewriter uses: a pattern made of
    literal text (optionally one alternation group), the flags `(?i)`, a leading `\b`, a trailing
    `\b` and a negative look-ahead for an apostrophe, and a replacement template that is fixed
    text or `$1` followed by fixed text. Every match is replaced, scanning left to right, the
    next search starting where the previous match ended. */
module Regex {
  import opened Text
  import opened Lists

  /** `Literal(t)` is the pattern `t`; `Group(h, [c1, ..., cn], t)` is `h(c1|...|cn)t`, whose
      choices are tried in the listed order and whose group is capture group 1. */
  datatype Pattern =
    | Literal(text: string)
    | Group(head: string, choices: seq<string>, tail: string)

  /** `Fixed(t)` replaces a match by `t`; `CaptureThen(t)` by `$1` followed by `t`. */
  datatype Template = Fixed(text: string) | CaptureThen(text: string)

  datatype Substitution = Substitution(
    pattern: Pattern,
    ignoreCase: bool,         // (?i)
    leadingBoundary: bool,    // \b before the pattern
    trailingBoundary: bool,   // \b after the pattern
    noApostropheAfter: bool,  // (?!['’]) after the pattern
    template: Template)

  /** The whole texts a pattern can match, in the order the engine tries them. */
  function Alternatives(p: Pattern): (alts: seq<string>)
    ensures p.Literal? ==> alts == [p.text]
    ensures p.Group? ==> (|alts| == |p.choices| &&
      forall k :: 0 <= k < |alts| ==> alts[k] == p.head + p.choices[k] + p.tail)
  {
    match p
    case Literal(t) => [t]
    case Group(h, cs, t) => seq(|cs|, k requires 0 <= k < |cs| => h + cs[k] + t)
  }

  /** Every alternative is non-empty (so each match consumes text) and `$1` is only used
      with a group. */
  predicate WellFormed(r: Substitution) {
    && (forall a :: a in Alternatives(r.pattern) ==> |a| > 0)
    && (r.template.CaptureThen? ==> r.pattern.Group?)
  }

  type Rule = r: Substitution | WellFormed(r)
    witness Substitution(Literal("x"), false, false, false, false, Fixed(""))

  /** A `\b` at the start of `s`, where `afterWord` says whether the character before `s` is a
      word character (false at the start of the whole string). */
  predicate BoundaryBefore(afterWord: bool, s: string) {
    afterWord != (|s| > 0 && IsWordChar(s[0]))
  }

  /** A `\b` between `s[j - 1]` and `s[j]` (or the end of `s`). */
  predicate BoundaryAt(s: string, j: nat)
    requires 0 < j <= |s|
  {
    IsWordChar(s[j - 1]) != (j < |s| && IsWordChar(s[j]))
  }

  /** The alternative text `alt` of rule `r` matches at the start of `s`. */
  predicate AltMatches(r: Rule, afterWord: bool, s: string, alt: string) {
    && 0 < |alt| <= |s|
    && SameText(s[..|alt|], alt, r.ignoreCase)
    && (r.leadingBoundary ==> BoundaryBefore(afterWord, s))
    && (r.trailingBoundary ==> BoundaryAt(s, |alt|))
    && (r.noApostropheAfter ==> !(|alt| < |s| && IsApostrophe(s[|alt|])))
  }

  /** The first alternative, from the `k`-th on, that matches at the start of `s`. */
  function FirstMatchFrom(r: Rule, afterWord: bool, s: string, k: nat): (m: Option<nat>)
    requires k <= |Alternatives(r.pattern)|
    ensures m.Some? ==> (k <= m.value < |Alternatives(r.pattern)| &&
      AltMatches(r, afterWord, s, Alternatives(r.pattern)[m.value]))
    ensures forall j :: (k <= j < |Alternatives(r.pattern)| && (m.None? || j < m.value)) ==>
      !AltMatches(r, afterWord, s, Alternatives(r.pattern)[j])
    decreases |Alternatives(r.pattern)| - k
  {
    var alts := Alternatives(r.pattern);
    if k == |alts| then None
    else if AltMatches(r, afterWord, s, alts[k]) then Some(k)
    else FirstMatchFrom(r, afterWord, s, k + 1)
  }

  /** The index of the alternative the engine matches at the start of `s`, if any. */
  function MatchAt(r: Rule, afterWord: bool, s: string): (m: Option<nat>)
    ensures m.Some? ==> (m.value < |Alternatives(r.pattern)| &&
      AltMatches(r, afterWord, s, Alternatives(r.pattern)[m.value]))
    ensures m.None? <==> forall a :: a in Alternatives(r.pattern) ==> !AltMatches(r, afterWord, s, a)
  {
    FirstMatchFrom(r, afterWord, s, 0)
  }

  /** The replacement of a match of alternative `k` at the start of `s`. */
  function Expand(r: Rule, s: string, k: nat): string
    requires k < |Alternatives(r.pattern)| && |Alternatives(r.pattern)[k]| <= |s|
  {
    match r.template
    case Fixed(t) => t
    case CaptureThen(t) =>
      var start := |r.pattern.head|;
      s[start..start + |r.pattern.choices[k]|] + t
  }

  /** Left-to-right, non-overlapping replacement of every match in `s`; `afterWord` says
      whether the character before `s` is a word character. */
  function Scan(r: Rule, afterWord: bool, s: string): string
    decreases |s|
  {
    if s == [] then []
    else match MatchAt(r, afterWord, s)
      case Some(k) =>
        var n := |Alternatives(r.pattern)[k]|;
        Expand(r, s, k) + Scan(r, IsWordChar(s[n - 1]), s[n..])
      case None =>
        [s[0]] + Scan(r, IsWordChar(s[0]), s[1..])
  }

  /** A match of alternative `k` of a `$1` rule without group head, covering the whole of `m`
      and ending in a word character, is replaced by its choice and the template's text. */
  lemma CaptureAt(r: Rule, afterWord: bool, m: string, z: string, k: nat)
    requires r.pattern.Group? && r.pattern.head == [] && r.template.CaptureThen?
    requires MatchAt(r, afterWord, m + z) == Some(k) && |Alternatives(r.pattern)[k]| == |m|
    requires IsWordChar(m[|m| - 1])
    ensures |r.pattern.choices[k]| <= |m|
    ensures Scan(r, afterWord, m + z) == m[..|r.pattern.choices[k]|] + r.template.text + Scan(r, true, z)
  {
    var s := m + z;
    var c := |r.pattern.choices[k]|;
    ScanAtMatch(r, afterWord, s);
    assert Expand(r, s, k) == s[..c] + r.template.text;
    assert s[..c] == m[..c] && s[|m|..] == z && s[|m| - 1] == m[|m| - 1];
  }

  /** One step of the scan at a match. */
  lemma ScanAtMatch(r: Rule, afterWord: bool, s: string)
    requires MatchAt(r, afterWord, s).Some?
    ensures var k := MatchAt(r, afterWord, s).value; var n := |Alternatives(r.pattern)[k]|;
      0 < n <= |s| && Scan(r, afterWord, s) == Expand(r, s, k) + Scan(r, IsWordChar(s[n - 1]), s[n..])
  {
  }

  /** No alternative can start at a character that differs from every alternative's first. */
  lemma SkipChar(r: Rule, afterWord: bool, s: string)
    requires s != []
    requires forall a :: a in Alternatives(r.pattern) ==> |a| > 0 && !SameChar(s[0], a[0], r.ignoreCase)
    ensures Scan(r, afterWord, s) == [s[0]] + Scan(r, IsWordChar(s[0]), s[1..])
  {
    forall a | a in Alternatives(r.pattern) ensures !AltMatches(r, afterWord, s, a) {
      if |a| <= |s| { assert s[..|a|][0] == s[0]; }
    }
  }

  /** `replacingOccurrences(of: pattern, with: template, options: .regularExpression)`. */
  function ReplaceAll(r: Rule, s: string): string {
    Scan(r, false, s)
  }

  /** The rules applied one after another, `rs[0]` first. */
  function ApplyRules(rs: seq<Rule>, s: string): string
    decreases |rs|
  {
    if rs == [] then s else ReplaceAll(rs[|rs| - 1], ApplyRules(rs[..|rs| - 1], s))
  }

  // ----- Text that a rule cannot touch -----

  /** Every alternative of `r` holds a character that folds to `c`. */
  predicate EveryAlternativeHolds(r: Rule, c: char) {
    forall a :: a in Alternatives(r.pattern) ==> exists j :: 0 <= j < |a| && ToLower(a[j]) == c
  }

  predicate Lacks(s: string, c: char) {
    forall j :: 0 <= j < |s| ==> ToLower(s[j]) != c
  }

  /** `s` holds neither `c` nor `C` (recursive, so that it can be evaluated on literals). */
  predicate Avoids(s: string, c: char, C: char) {
    s == [] || (s[0] != c && s[0] != C && Avoids(s[1..], c, C))
  }

  /** Text without a character and without its capital lacks the character up to case. */
  lemma {:induction false} AvoidsLacks(s: string, c: char, C: char)
    requires !IsUpperAscii(c) && C == ToUpper(c) && Avoids(s, c, C)
    ensures Lacks(s, c)
  {
    if s != [] {
      AvoidsLacks(s[1..], c, C);
      forall j | 0 <= j < |s| ensures ToLower(s[j]) != c {
        if j > 0 { assert s[j] == s[1..][j - 1]; }
      }
    }
  }

  lemma LacksAppend(s: string, t: string, c: char)
    requires Lacks(s, c) && Lacks(t, c)
    ensures Lacks(s + t, c)
  {
    forall j | 0 <= j < |s + t| ensures ToLower((s + t)[j]) != c {
      if j >= |s| { assert (s + t)[j] == t[j - |s|]; }
    }
  }

  /** A literal rule whose pattern holds `c` (up to case) at position `j`. */
  lemma LiteralHolds(r: Rule, c: char, j: nat)
    requires r.pattern.Literal? && j < |r.pattern.text| && ToLower(r.pattern.text[j]) == c
    ensures EveryAlternativeHolds(r, c)
  {
    assert Alternatives(r.pattern) == [r.pattern.text];
  }

  /** A group rule whose common tail holds `c` (up to case) at position `j`. */
  lemma GroupTailHolds(r: Rule, c: char, j: nat)
    requires r.pattern.Group? && j < |r.pattern.tail| && ToLower(r.pattern.tail[j]) == c
    ensures EveryAlternativeHolds(r, c)
  {
    var p, alts := r.pattern, Alternatives(r.pattern);
    forall a | a in alts ensures exists i :: 0 <= i < |a| && ToLower(a[i]) == c {
      var k :| 0 <= k < |alts| && alts[k] == a;
      assert a == p.head + p.choices[k] + p.tail;
      assert a[|p.head| + |p.choices[k]| + j] == p.tail[j];
    }
  }

  /** A rule each of whose alternatives holds a character (up to case) that the text lacks
      leaves the text as it is. */
  lemma {:induction false} ScanLeavesTextWithout(r: Rule, afterWord: bool, s: string, c: char)
    requires EveryAlternativeHolds(r, c) && Lacks(s, c)
    ensures Scan(r, afterWord, s) == s
    decreases |s|
  {
    if s != [] {
      NoMatchInTextWithout(r, afterWord, s, c);
      assert Lacks(s[1..], c) by {
        forall j | 0 <= j < |s| - 1 ensures ToLower(s[1..][j]) != c {
          assert s[1..][j] == s[j + 1];
        }
      }
      ScanLeavesTextWithout(r, IsWordChar(s[0]), s[1..], c);
      assert s == [s[0]] + s[1..];
    }
  }

  /** No alternative matches at the start of a text lacking a character each of them holds. */
  lemma NoMatchInTextWithout(r: Rule, afterWord: bool, s: string, c: char)
    requires EveryAlternativeHolds(r, c) && Lacks(s, c)
    ensures MatchAt(r, afterWord, s).None?
  {
    forall a | a in Alternatives(r.pattern) ensures !AltMatches(r, afterWord, s, a) {
      AltMissesTextWithout(r, afterWord, s, a, c);
    }
  }

  /** An alternative holding a character that the text lacks does not match there. */
  lemma AltMissesTextWithout(r: Rule, afterWord: bool, s: string, a: string, c: char)
    requires (exists j :: 0 <= j < |a| && ToLower(a[j]) == c) && Lacks(s, c)
    ensures !AltMatches(r, afterWord, s, a)
  {
    var j :| 0 <= j < |a| && ToLower(a[j]) == c;
    if j < |s| && |a| <= |s| {
      assert s[..|a|][j] == s[j];
      assert !SameChar(s[j], a[j], r.ignoreCase);
    }
  }

  lemma {:induction false} ApplyRulesLeavesTextWithout(rs: seq<Rule>, s: string, c: char)
    requires forall r :: r in rs ==> EveryAlternativeHolds(r, c)
    requires Lacks(s, c)
    ensures ApplyRules(rs, s) == s
    decreases |rs|
  {
    if rs != [] {
      var init := rs[..|rs| - 1];
      assert forall r :: r in init ==> r in rs;
      ApplyRulesLeavesTextWithout(init, s, c);
      ScanLeavesTextWithout(rs[|rs| - 1], false, s, c);
    }
  }

  /** Rules each of whose alternatives holds `c` or each of whose alternatives holds `d`
      leave text lacking both as it is. */
  lemma {:induction false} ApplyRulesLeavesTextWithoutEither(rs: seq<Rule>, s: string, c: char, d: char)
    requires forall r :: r in rs ==> EveryAlternativeHolds(r, c) || EveryAlternativeHolds(r, d)
    requires Lacks(s, c) && Lacks(s, d)
    ensures ApplyRules(rs, s) == s
    decreases |rs|
  {
    if rs != [] {
      var init, last := rs[..|rs| - 1], rs[|rs| - 1];
      assert forall r :: r in init ==> r in rs;
      ApplyRulesLeavesTextWithoutEither(init, s, c, d);
      if EveryAlternativeHolds(last, c) {
        ScanLeavesTextWithout(last, false, s, c);
      } else {
        ScanLeavesTextWithout(last, false, s, d);
      }
    }
  }

  /** A fixed replacement lacking `c` puts no `c` into text that lacks it. */
  lemma {:induction false} ScanKeepsLacks(r: Rule, afterWord: bool, s: string, c: char)
    requires r.template.Fixed? && Lacks(r.template.text, c) && Lacks(s, c)
    ensures Lacks(Scan(r, afterWord, s), c)
    decreases |s|
  {
    if s != [] {
      match MatchAt(r, afterWord, s)
      case Some(k) =>
        var n := |Alternatives(r.pattern)[k]|;
        LacksSuffix(s, n, c);
        ScanKeepsLacks(r, IsWordChar(s[n - 1]), s[n..], c);
        LacksAppend(r.template.text, Scan(r, IsWordChar(s[n - 1]), s[n..]), c);
      case None =>
        LacksSuffix(s, 1, c);
        ScanKeepsLacks(r, IsWordChar(s[0]), s[1..], c);
        LacksAppend([s[0]], Scan(r, IsWordChar(s[0]), s[1..]), c);
    }
  }

  lemma LacksSuffix(s: string, n: nat, c: char)
    requires n <= |s| && Lacks(s, c)
    ensures Lacks(s[n..], c)
  {
    forall j | 0 <= j < |s| - n ensures ToLower(s[n..][j]) != c {
      assert s[n..][j] == s[n + j];
    }
  }

  // ----- Length -----

  /** The rule's replacement text is never empty. */
  predicate NonErasing(r: Rule) {
    |r.template.text| > 0
  }

  /** A rule that never replaces with empty text leaves non-empty text non-empty. */
  lemma ScanNonEmpty(r: Rule, afterWord: bool, s: string)
    requires NonErasing(r)
    ensures |Scan(r, afterWord, s)| == 0 <==> |s| == 0
  {
  }

  lemma {:induction false} ApplyRulesNonEmpty(rs: seq<Rule>, s: string)
    requires forall r :: r in rs ==> NonErasing(r)
    ensures |ApplyRules(rs, s)| == 0 <==> |s| == 0
    decreases |rs|
  {
    if rs != [] {
      var init := rs[..|rs| - 1];
      assert forall r :: r in init ==> r in rs;
      ApplyRulesNonEmpty(init, s);
      ScanNonEmpty(rs[|rs| - 1], false, ApplyRules(init, s));
    }
  }

  // ----- Order of application -----

  /** Applying `r1` then `r2` to `s` gives what applying `r2` then `r1` gives. */
  ghost predicate CommuteAt(r1: Rule, r2: Rule, s: string) {
    ReplaceAll(r2, ReplaceAll(r1, s)) == ReplaceAll(r1, ReplaceAll(r2, s))
  }

  ghost predicate Commute(r1: Rule, r2: Rule) {
    forall s :: CommuteAt(r1, r2, s)
  }

  ghost predicate PairwiseCommute(rs: seq<Rule>) {
    forall a, b :: a in rs && b in rs ==> Commute(a, b)
  }

  /** Applying `xs` and then `ys` is applying `xs + ys`. */
  lemma {:induction false} ApplyRulesAppend(xs: seq<Rule>, ys: seq<Rule>, s: string)
    ensures ApplyRules(xs + ys, s) == ApplyRules(ys, ApplyRules(xs, s))
    decreases |ys|
  {
    if ys == [] {
      assert xs + ys == xs;
    } else {
      var ys', y := ys[..|ys| - 1], ys[|ys| - 1];
      assert (xs + ys)[..|xs + ys| - 1] == xs + ys';
      ApplyRulesAppend(xs, ys', s);
    }
  }

  /** When the first rule's output lacks a character that every rule holds, the later rules
      change nothing: the first rule alone decides the result. */
  lemma FirstRuleDecides(rs: seq<Rule>, s: string, c: char)
    requires |rs| > 0 && forall r :: r in rs ==> EveryAlternativeHolds(r, c)
    requires Lacks(ReplaceAll(rs[0], s), c)
    ensures ApplyRules(rs, s) == ReplaceAll(rs[0], s)
  {
    assert rs == [rs[0]] + rs[1..];
    ApplyRulesAppend([rs[0]], rs[1..], s);
    assert [rs[0]][..0] == [];
    assert forall r :: r in rs[1..] ==> r in rs;
    ApplyRulesLeavesTextWithout(rs[1..], ReplaceAll(rs[0], s), c);
  }

  lemma ApplyRulesSnoc(rs: seq<Rule>, r: Rule, s: string)
    ensures ApplyRules(rs + [r], s) == ReplaceAll(r, ApplyRules(rs, s))
  {
    assert (rs + [r])[..|rs|] == rs;
  }

  /** A rule that commutes with every rule of a list can be applied before the list or after
      it. */
  lemma {:induction false} CommuteThrough(x: Rule, post: seq<Rule>, t: string)
    requires forall b :: b in post ==> Commute(x, b)
    ensures ApplyRules(post, ReplaceAll(x, t)) == ReplaceAll(x, ApplyRules(post, t))
    decreases |post|
  {
    if post != [] {
      var b, post' := post[|post| - 1], post[..|post| - 1];
      assert forall c :: c in post' ==> c in post;
      var u := ApplyRules(post', t);
      calc {
        ApplyRules(post, ReplaceAll(x, t));
        ReplaceAll(b, ApplyRules(post', ReplaceAll(x, t)));
        { CommuteThrough(x, post', t); }
        ReplaceAll(b, ReplaceAll(x, u));
        { assert b in post; assert Commute(x, b); assert CommuteAt(x, b, u); }
        ReplaceAll(x, ReplaceAll(b, u));
        ReplaceAll(x, ApplyRules(post, t));
      }
    }
  }

  /** A rule that commutes with every rule after it can be moved to the end. */
  lemma MoveToEnd(pre: seq<Rule>, x: Rule, post: seq<Rule>, s: string)
    requires forall b :: b in post ==> Commute(x, b)
    ensures ApplyRules(pre + [x] + post, s) == ReplaceAll(x, ApplyRules(pre + post, s))
  {
    var t := ApplyRules(pre, s);
    calc {
      ApplyRules(pre + [x] + post, s);
      { ApplyRulesAppend(pre + [x], post, s); }
      ApplyRules(post, ApplyRules(pre + [x], s));
      { ApplyRulesSnoc(pre, x, s); }
      ApplyRules(post, ReplaceAll(x, t));
      { CommuteThrough(x, post, t); }
      ReplaceAll(x, ApplyRules(post, t));
      { ApplyRulesAppend(pre, post, s); }
      ReplaceAll(x, ApplyRules(pre + post, s));
    }
  }

  /** Removing one occurrence of `x` from both sides of a multiset equation. */
  lemma RemoveLast<T>(xs': seq<T>, x: T, pre: seq<T>, post: seq<T>)
    requires multiset(xs' + [x]) == multiset(pre + [x] + post)
    ensures multiset(xs') == multiset(pre + post)
  {
    var a, b := multiset(xs'), multiset(pre + post);
    assert multiset(xs' + [x]) == a + multiset{x};
    assert multiset(pre + [x] + post) == multiset(pre) + multiset{x} + multiset(post);
    assert b == multiset(pre) + multiset(post);
    assert a + multiset{x} == b + multiset{x};
    forall y ensures a[y] == b[y] {
      assert (a + multiset{x})[y] == a[y] + multiset{x}[y];
      assert (b + multiset{x})[y] == b[y] + multiset{x}[y];
    }
  }

  /** Splitting a list at an occurrence of `x`. */
  lemma SplitAt<T>(ys: seq<T>, x: T) returns (pre: seq<T>, post: seq<T>)
    requires x in multiset(ys)
    ensures ys == pre + [x] + post
  {
    var i :| 0 <= i < |ys| && ys[i] == x;
    pre, post := ys[..i], ys[i + 1..];
    assert ys == pre + [x] + post;
  }

  /** An element of a permutation of `ys` sits at some index of `ys`. */
  lemma IndexIn<T>(xs: seq<T>, ys: seq<T>, x: T) returns (i: nat)
    requires multiset(xs) == multiset(ys) && x in xs
    ensures i < |ys| && ys[i] == x
  {
    assert x in multiset(ys);
    i :| 0 <= i < |ys| && ys[i] == x;
  }

  /** When every two rules of a list commute, applying them in any order gives the same
      text: only which rules are applied matters. */
  lemma {:induction false} OrderIrrelevant(xs: seq<Rule>, ys: seq<Rule>, s: string)
    requires multiset(xs) == multiset(ys)
    requires PairwiseCommute(xs)
    ensures ApplyRules(xs, s) == ApplyRules(ys, s)
    decreases |xs|
  {
    if xs == [] {
      assert |ys| == |multiset(ys)| == 0;
    } else {
      var x := xs[|xs| - 1];
      var xs' := xs[..|xs| - 1];
      assert xs == xs' + [x];
      var pre, post := SplitAt(ys, x);
      forall b | b in post ensures Commute(x, b) {
        assert b in multiset(ys);
        assert b in multiset(xs);
      }
      MoveToEnd(pre, x, post, s);
      RemoveLast(xs', x, pre, post);
      assert PairwiseCommute(xs') by {
        assert forall c :: c in xs' ==> c in xs;
      }
      OrderIrrelevant(xs', pre + post, s);
    }
  }
}
