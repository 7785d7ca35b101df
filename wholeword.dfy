/** Case-sensitive whole-word rules `\bp\b -> q` (optionally `\bp(?!['’])\b`), where pattern and
    replacement are words. Such a rule acts word by word: a word equal to `p` becomes `q`,
    every other character stays. The pronoun rules and the standalone `i` rule are of this kind;
    two of them commute when neither can produce the other's pattern. */
module WholeWordRules {
  import opened Text
  import opened Regex
  import opened Lists

  /** Every character is a word character (recursive, so it can be evaluated on literals). */
  predicate IsWord(s: string) {
    s == [] || (IsWordChar(s[0]) && IsWord(s[1..]))
  }

  predicate AllWordChars(s: string) {
    forall j :: 0 <= j < |s| ==> IsWordChar(s[j])
  }

  lemma {:induction false} IsWordAll(s: string)
    requires IsWord(s)
    ensures AllWordChars(s)
  {
    if s != [] {
      IsWordAll(s[1..]);
      forall j | 0 < j < |s| ensures IsWordChar(s[j]) { assert s[j] == s[1..][j - 1]; }
    }
  }

  /** The length of the word (maximal run of word characters) at the start of `s`. */
  function WordLen(s: string): (n: nat)
    ensures n <= |s| && AllWordChars(s[..n])
    ensures n < |s| ==> !IsWordChar(s[n])
  {
    if s == [] || !IsWordChar(s[0]) then 0
    else
      var n := 1 + WordLen(s[1..]);
      assert s[..n] == [s[0]] + s[1..][..n - 1];
      n
  }

  /** A run of word characters that ends at a non-word character (or the end) is the word. */
  lemma {:induction false} WordLenOf(s: string, m: nat)
    requires m <= |s| && AllWordChars(s[..m]) && (m < |s| ==> !IsWordChar(s[m]))
    ensures WordLen(s) == m
  {
    if m > 0 {
      assert s[..m][0] == s[0];
      assert s[1..][..m - 1] == s[..m][1..];
      WordLenOf(s[1..], m - 1);
    }
  }

  /** Text that does not continue a word: empty, or starting with a non-word character. */
  predicate WordEnd(z: string) {
    z == [] || !IsWordChar(z[0])
  }

  predicate WholeWord(r: Rule) {
    && r.pattern.Literal? && r.template.Fixed?
    && !r.ignoreCase && r.leadingBoundary && r.trailingBoundary
    && |r.pattern.text| > 0 && AllWordChars(r.pattern.text)
    && |r.template.text| > 0 && AllWordChars(r.template.text)
  }

  /** The look-ahead of `r` allows a match followed by `z`. */
  predicate GuardAllows(r: Rule, z: string) {
    r.noApostropheAfter ==> !(z != [] && IsApostrophe(z[0]))
  }

  /** What `r` makes of the word `w` followed by `z`. */
  function Rewritten(r: Rule, w: string, z: string): string {
    if r.pattern.Literal? && w == r.pattern.text && GuardAllows(r, z) then r.template.text else w
  }

  /** A whole-word rule never matches at a non-word character. */
  lemma NoMatchAtNonWord(r: Rule, b: bool, s: string)
    requires WholeWord(r) && s != [] && !IsWordChar(s[0])
    ensures MatchAt(r, b, s).None?
  {
    var p := r.pattern.text;
    assert Alternatives(r.pattern) == [p];
    if |p| <= |s| { assert s[..|p|][0] == s[0]; }
  }

  /** Nor inside a word. */
  lemma NoMatchInsideWord(r: Rule, s: string)
    requires WholeWord(r) && s != [] && IsWordChar(s[0])
    ensures MatchAt(r, true, s).None?
  {
    assert Alternatives(r.pattern) == [r.pattern.text];
  }

  /** The rest of a word passes through unchanged. */
  lemma {:induction false} InsideWord(r: Rule, w: string, x: string)
    requires WholeWord(r) && AllWordChars(w)
    ensures Scan(r, true, w + x) == w + Scan(r, true, x)
    decreases |w|
  {
    if w == [] {
      assert w + x == x;
    } else {
      var s, w' := w + x, w[1..];
      assert s[0] == w[0] && s[1..] == w' + x;
      NoMatchInsideWord(r, s);
      WordTail(w);
      InsideWord(r, w', x);
      assert [w[0]] + (w' + Scan(r, true, x)) == ([w[0]] + w') + Scan(r, true, x);
      assert [w[0]] + w' == w;
    }
  }

  /** The tail of a word is made of word characters. */
  lemma WordTail(w: string)
    requires w != [] && AllWordChars(w)
    ensures AllWordChars(w[1..])
  {
    forall j | 0 <= j < |w| - 1 ensures IsWordChar(w[1..][j]) {
      assert w[1..][j] == w[j + 1];
    }
  }

  /** After a word, the scan goes on as at the start of a text. */
  lemma AfterWord(r: Rule, z: string)
    requires WholeWord(r) && WordEnd(z)
    ensures Scan(r, true, z) == ReplaceAll(r, z)
  {
    if z != [] {
      NoMatchAtNonWord(r, true, z);
      NoMatchAtNonWord(r, false, z);
    }
  }

  /** A non-word character is kept. */
  lemma UnfoldNonWord(r: Rule, s: string)
    requires WholeWord(r) && s != [] && !IsWordChar(s[0])
    ensures ReplaceAll(r, s) == [s[0]] + ReplaceAll(r, s[1..])
  {
    NoMatchAtNonWord(r, false, s);
  }

  /** A word is matched exactly when it is the pattern and the look-ahead allows it. */
  lemma MatchesWord(r: Rule, w: string, z: string)
    requires WholeWord(r) && |w| > 0 && AllWordChars(w) && WordEnd(z)
    ensures MatchAt(r, false, w + z).Some? <==> (w == r.pattern.text && GuardAllows(r, z))
  {
    var p, s := r.pattern.text, w + z;
    assert Alternatives(r.pattern) == [p];
    assert s[..|w|] == w && s[|w|..] == z;
    WordLenOf(s, |w|);
    if AltMatches(r, false, s, p) {
      assert s[..|p|] == p;
      assert s[|p| - 1] == p[|p| - 1];
      WordLenOf(s, |p|);
    }
    if w == p && GuardAllows(r, z) {
      assert SameText(s[..|p|], p, false);
      assert AltMatches(r, false, s, p);
    }
  }

  /** The word at the start of the text is rewritten as a whole; the scan then continues after it. */
  lemma UnfoldWord(r: Rule, w: string, z: string)
    requires WholeWord(r) && |w| > 0 && AllWordChars(w) && WordEnd(z)
    ensures ReplaceAll(r, w + z) == Rewritten(r, w, z) + ReplaceAll(r, z)
  {
    var s := w + z;
    MatchesWord(r, w, z);
    assert s[..|w|] == w && s[|w|..] == z;
    AfterWord(r, z);
    if MatchAt(r, false, s).None? {
      WordTail(w);
      assert s[0] == w[0] && s[1..] == w[1..] + z;
      InsideWord(r, w[1..], z);
      assert [w[0]] + (w[1..] + ReplaceAll(r, z)) == ([w[0]] + w[1..]) + ReplaceAll(r, z);
      assert w == [w[0]] + w[1..];
    }
  }

  /** The word of `s` and what follows it. */
  lemma SplitWord(s: string) returns (w: string, z: string)
    requires s != [] && IsWordChar(s[0])
    ensures s == w + z && |w| > 0 && AllWordChars(w) && WordEnd(z)
    ensures |z| < |s|
  {
    var n := WordLen(s);
    w, z := s[..n], s[n..];
    assert s == w + z;
    assert s[..n][0] == s[0];
  }

  /** A rule keeps a leading non-word character, and the emptiness of the text. */
  lemma KeepsHead(r: Rule, z: string)
    requires WholeWord(r) && WordEnd(z)
    ensures (ReplaceAll(r, z) == []) == (z == [])
    ensures z != [] ==> ReplaceAll(r, z)[0] == z[0]
    ensures WordEnd(ReplaceAll(r, z))
    ensures GuardAllows(r, ReplaceAll(r, z)) == GuardAllows(r, z)
  {
    if z != [] { UnfoldNonWord(r, z); }
  }

  /** Two whole-word rules commute when neither's pattern is the other's pattern or replacement. */
  lemma {:induction false} CommuteOn(r1: Rule, r2: Rule, s: string)
    requires WholeWord(r1) && WholeWord(r2)
    requires r1.pattern.text != r2.pattern.text
    requires r1.template.text != r2.pattern.text && r2.template.text != r1.pattern.text
    ensures ReplaceAll(r2, ReplaceAll(r1, s)) == ReplaceAll(r1, ReplaceAll(r2, s))
    decreases |s|
  {
    if s == [] {
    } else if !IsWordChar(s[0]) {
      var t := s[1..];
      UnfoldNonWord(r1, s);
      UnfoldNonWord(r2, s);
      var y1, y2 := [s[0]] + ReplaceAll(r1, t), [s[0]] + ReplaceAll(r2, t);
      UnfoldNonWord(r2, y1);
      UnfoldNonWord(r1, y2);
      assert y1[1..] == ReplaceAll(r1, t) && y2[1..] == ReplaceAll(r2, t);
      CommuteOn(r1, r2, t);
    } else {
      var w, z := SplitWord(s);
      UnfoldWord(r1, w, z);
      UnfoldWord(r2, w, z);
      KeepsHead(r1, z);
      KeepsHead(r2, z);
      KeepsHeadOther(r1, r2, z);
      KeepsHeadOther(r2, r1, z);
      var w1, w2 := Rewritten(r1, w, z), Rewritten(r2, w, z);
      UnfoldWord(r2, w1, ReplaceAll(r1, z));
      UnfoldWord(r1, w2, ReplaceAll(r2, z));
      CommuteOn(r1, r2, z);
    }
  }

  /** One rule's output keeps what another rule's look-ahead sees. */
  lemma KeepsHeadOther(r1: Rule, r2: Rule, z: string)
    requires WholeWord(r1) && WholeWord(r2) && WordEnd(z)
    ensures GuardAllows(r2, ReplaceAll(r1, z)) == GuardAllows(r2, z)
  {
    KeepsHead(r1, z);
  }

  /** A list of whole-word rules, no two of which share a pattern, and none of which can
      produce another's pattern. */
  ghost predicate Family(rs: seq<Rule>) {
    && (forall i :: 0 <= i < |rs| ==> WholeWord(rs[i]))
    && (forall i, j :: 0 <= i < |rs| && 0 <= j < |rs| && i != j ==>
          rs[i].pattern.text != rs[j].pattern.text && rs[i].template.text != rs[j].pattern.text)
  }

  /** The members of a family commute pairwise. */
  lemma FamilyCommutes(rs: seq<Rule>)
    requires Family(rs)
    ensures PairwiseCommute(rs)
  {
    forall r1, r2 | r1 in rs && r2 in rs ensures Commute(r1, r2) {
      if r1 != r2 {
        var i :| 0 <= i < |rs| && rs[i] == r1;
        var j :| 0 <= j < |rs| && rs[j] == r2;
        forall s ensures CommuteAt(r1, r2, s) {
          CommuteOn(r1, r2, s);
        }
      }
    }
  }

  /** What a list of whole-word rules, applied in order, makes of the word `w` followed by `z`. */
  function RewrittenAll(rs: seq<Rule>, w: string, z: string): string
    decreases |rs|
  {
    if rs == [] then w else Rewritten(rs[|rs| - 1], RewrittenAll(rs[..|rs| - 1], w, z), z)
  }

  /** Rules applied one after another still act word by word. */
  lemma {:induction false} ApplyWord(rs: seq<Rule>, w: string, z: string)
    requires forall r :: r in rs ==> WholeWord(r)
    requires |w| > 0 && AllWordChars(w) && WordEnd(z)
    ensures ApplyRules(rs, w + z) == RewrittenAll(rs, w, z) + ApplyRules(rs, z)
    ensures |RewrittenAll(rs, w, z)| > 0 && AllWordChars(RewrittenAll(rs, w, z))
    ensures WordEnd(ApplyRules(rs, z))
    ensures (ApplyRules(rs, z) == []) == (z == [])
    ensures z != [] ==> ApplyRules(rs, z)[0] == z[0]
    decreases |rs|
  {
    if rs != [] {
      var init, r := rs[..|rs| - 1], rs[|rs| - 1];
      assert forall x :: x in init ==> x in rs;
      ApplyWord(init, w, z);
      var w0, z0 := RewrittenAll(init, w, z), ApplyRules(init, z);
      UnfoldWord(r, w0, z0);
      KeepsHead(r, z0);
      assert GuardAllows(r, z0) == GuardAllows(r, z);
    }
  }

  /** A word that no rule of the list rewrites comes through unchanged. */
  lemma {:induction false} RewrittenAllKeeps(rs: seq<Rule>, w: string, z: string)
    requires forall r :: r in rs ==> Rewritten(r, w, z) == w
    ensures RewrittenAll(rs, w, z) == w
    decreases |rs|
  {
    if rs != [] {
      var init := rs[..|rs| - 1];
      assert forall r :: r in init ==> r in rs;
      RewrittenAllKeeps(init, w, z);
      assert rs[|rs| - 1] in rs;
    }
  }

  /** In a family, the word that is member `k`'s pattern becomes member `k`'s replacement
      after the first `n` members when `k` is among them (and the look-ahead allows it), and
      is left alone before. */
  lemma {:induction false} RewrittenPrefixAt(rs: seq<Rule>, k: nat, n: nat, z: string)
    requires Family(rs) && k < |rs| && n <= |rs|
    ensures var p := rs[k].pattern.text;
      RewrittenAll(rs[..n], p, z)
        == if k < n && GuardAllows(rs[k], z) then rs[k].template.text else p
  {
    if n > 0 {
      var m := n - 1;
      assert rs[..n][..m] == rs[..m];
      assert rs[..n][m] == rs[m];
      RewrittenPrefixAt(rs, k, m, z);
    }
  }

  /** In a family, the word that is member `k`'s pattern becomes member `k`'s replacement,
      unless the look-ahead forbids it. */
  lemma RewrittenAllAt(rs: seq<Rule>, k: nat, z: string)
    requires Family(rs) && k < |rs|
    ensures RewrittenAll(rs, rs[k].pattern.text, z)
      == if GuardAllows(rs[k], z) then rs[k].template.text else rs[k].pattern.text
  {
    RewrittenPrefixAt(rs, k, |rs|, z);
    assert rs[..|rs|] == rs;
  }

  /** No word of `s` (maximal run of word characters) is `p`. */
  predicate NoWord(s: string, p: string)
    decreases |s|
  {
    if s == [] then true
    else if !IsWordChar(s[0]) then NoWord(s[1..], p)
    else
      var n := WordLen(s);
      s[..n] != p && NoWord(s[n..], p)
  }

  /** A word other than `p` in front of text that does not continue it adds no word `p`. */
  lemma PrependWord(w: string, y: string, p: string)
    requires |w| > 0 && AllWordChars(w) && WordEnd(y) && w != p
    ensures NoWord(w + y, p) == NoWord(y, p)
  {
    var s := w + y;
    assert s[..|w|] == w && s[|w|..] == y;
    WordLenOf(s, |w|);
  }

  /** A rule without look-ahead that replaces the word `p` by another word leaves no word `p`. */
  lemma {:induction false} NoWordAfter(r: Rule, s: string)
    requires WholeWord(r) && !r.noApostropheAfter && r.template.text != r.pattern.text
    ensures NoWord(ReplaceAll(r, s), r.pattern.text)
    decreases |s|
  {
    if s == [] {
    } else if !IsWordChar(s[0]) {
      UnfoldNonWord(r, s);
      NoWordAfter(r, s[1..]);
      assert ([s[0]] + ReplaceAll(r, s[1..]))[1..] == ReplaceAll(r, s[1..]);
    } else {
      var w, z := SplitWord(s);
      UnfoldWord(r, w, z);
      KeepsHead(r, z);
      NoWordAfter(r, z);
      PrependWord(Rewritten(r, w, z), ReplaceAll(r, z), r.pattern.text);
    }
  }
}
