/** Properties of the rewriter `convertToFirstPerson`. */
module FirstPersonFacts {
  import opened Text
  import opened Regex
  import opened Lists
  import opened FirstPerson
  import Anchored = AnchoredRules
  import Words = WholeWordRules

  // ----- Every pattern of the three tables holds the word `you` -----

  /** A phrase whose pattern has `you` at position `k`. */
  lemma PhraseHoldsYouAt(i: nat, k: nat)
    requires i < |PhraseRules| && PhraseRules[i].pattern.Literal?
    requires k + 3 <= |PhraseRules[i].pattern.text| && PhraseRules[i].pattern.text[k..k + 3] == "you"
    ensures EveryAlternativeHolds(PhraseRules[i], 'y') && EveryAlternativeHolds(PhraseRules[i], 'u')
  {
    var p := PhraseRules[i].pattern.text;
    assert p[k] == p[k..k + 3][0] && p[k + 2] == p[k..k + 3][2];
    LiteralHolds(PhraseRules[i], 'y', k);
    LiteralHolds(PhraseRules[i], 'u', k + 2);
  }

  lemma PhraseHoldsYou0() ensures EveryAlternativeHolds(PhraseRules[0], 'y') && EveryAlternativeHolds(PhraseRules[0], 'u') {
    PhraseHoldsYouAt(0, 7);
  }
  lemma PhraseHoldsYou1() ensures EveryAlternativeHolds(PhraseRules[1], 'y') && EveryAlternativeHolds(PhraseRules[1], 'u') {
    PhraseHoldsYouAt(1, 9);
  }
  lemma PhraseHoldsYou2() ensures EveryAlternativeHolds(PhraseRules[2], 'y') && EveryAlternativeHolds(PhraseRules[2], 'u') {
    PhraseHoldsYouAt(2, 7);
  }
  lemma PhraseHoldsYou3() ensures EveryAlternativeHolds(PhraseRules[3], 'y') && EveryAlternativeHolds(PhraseRules[3], 'u') {
    PhraseHoldsYouAt(3, 11);
  }
  lemma PhraseHoldsYou4() ensures EveryAlternativeHolds(PhraseRules[4], 'y') && EveryAlternativeHolds(PhraseRules[4], 'u') {
    PhraseHoldsYouAt(4, 4);
  }
  lemma PhraseHoldsYou5() ensures EveryAlternativeHolds(PhraseRules[5], 'y') && EveryAlternativeHolds(PhraseRules[5], 'u') {
    PhraseHoldsYouAt(5, 0);
  }
  lemma PhraseHoldsYou6() ensures EveryAlternativeHolds(PhraseRules[6], 'y') && EveryAlternativeHolds(PhraseRules[6], 'u') {
    PhraseHoldsYouAt(6, 0);
  }
  lemma PhraseHoldsYou7() ensures EveryAlternativeHolds(PhraseRules[7], 'y') && EveryAlternativeHolds(PhraseRules[7], 'u') {
    PhraseHoldsYouAt(7, 0);
  }
  lemma PhraseHoldsYou8() ensures EveryAlternativeHolds(PhraseRules[8], 'y') && EveryAlternativeHolds(PhraseRules[8], 'u') {
    PhraseHoldsYouAt(8, 0);
  }
  lemma PhraseHoldsYou9() ensures EveryAlternativeHolds(PhraseRules[9], 'y') && EveryAlternativeHolds(PhraseRules[9], 'u') {
    PhraseHoldsYouAt(9, 0);
  }
  lemma PhraseHoldsYou10() ensures EveryAlternativeHolds(PhraseRules[10], 'y') && EveryAlternativeHolds(PhraseRules[10], 'u') {
    PhraseHoldsYouAt(10, 0);
  }
  lemma PhraseHoldsYou11() ensures EveryAlternativeHolds(PhraseRules[11], 'y') && EveryAlternativeHolds(PhraseRules[11], 'u') {
    PhraseHoldsYouAt(11, 0);
  }
  lemma PhraseHoldsYou12() ensures EveryAlternativeHolds(PhraseRules[12], 'y') && EveryAlternativeHolds(PhraseRules[12], 'u') {
    PhraseHoldsYouAt(12, 0);
  }
  lemma PhraseHoldsYou13() ensures EveryAlternativeHolds(PhraseRules[13], 'y') && EveryAlternativeHolds(PhraseRules[13], 'u') {
    PhraseHoldsYouAt(13, 0);
  }

  /** Every phrase pattern, the verb rule's included, holds `you`, so holds `y` and `u`. */
  lemma PhraseHoldsYou(i: nat)
    requires i < |PhraseRules|
    ensures EveryAlternativeHolds(PhraseRules[i], 'y') && EveryAlternativeHolds(PhraseRules[i], 'u')
  {
    if i < 5 { PhraseHoldsYouLow(i); }
    else if i < 10 { PhraseHoldsYouMid(i); }
    else { PhraseHoldsYouHigh(i); }
  }

  lemma PhraseHoldsYouLow(i: nat)
    requires i < 5
    ensures EveryAlternativeHolds(PhraseRules[i], 'y') && EveryAlternativeHolds(PhraseRules[i], 'u')
  {
    if i == 0 { PhraseHoldsYou0(); }
    else if i == 1 { PhraseHoldsYou1(); }
    else if i == 2 { PhraseHoldsYou2(); }
    else if i == 3 { PhraseHoldsYou3(); }
    else { PhraseHoldsYou4(); }
  }

  lemma PhraseHoldsYouMid(i: nat)
    requires 5 <= i < 10
    ensures EveryAlternativeHolds(PhraseRules[i], 'y') && EveryAlternativeHolds(PhraseRules[i], 'u')
  {
    if i == 5 { PhraseHoldsYou5(); }
    else if i == 6 { PhraseHoldsYou6(); }
    else if i == 7 { PhraseHoldsYou7(); }
    else if i == 8 { PhraseHoldsYou8(); }
    else { PhraseHoldsYou9(); }
  }

  lemma PhraseHoldsYouHigh(i: nat)
    requires 10 <= i < |PhraseRules|
    ensures EveryAlternativeHolds(PhraseRules[i], 'y') && EveryAlternativeHolds(PhraseRules[i], 'u')
  {
    if i == 10 { PhraseHoldsYou10(); }
    else if i == 11 { PhraseHoldsYou11(); }
    else if i == 12 { PhraseHoldsYou12(); }
    else if i == 13 { PhraseHoldsYou13(); }
    else {
      assert PhraseRules[i] == VerbRule;
      VerbRuleHoldsYou();
    }
  }

  /** Every alternative of the verb rule ends in " you". */
  lemma VerbRuleHoldsYou()
    ensures EveryAlternativeHolds(VerbRule, 'y') && EveryAlternativeHolds(VerbRule, 'u')
  {
    var t := VerbRule.pattern.tail;
    assert t == " you";
    assert ToLower(t[1]) == 'y' && ToLower(t[3]) == 'u';
    GroupTailHolds(VerbRule, 'y', 1);
    GroupTailHolds(VerbRule, 'u', 3);
  }

  /** Every contraction pattern starts with `y` or `Y`. */
  lemma ContractionsHoldY()
    ensures forall r :: r in ContractionRules ==> EveryAlternativeHolds(r, 'y')
  {
    forall r | r in ContractionRules ensures EveryAlternativeHolds(r, 'y') {
      var i :| 0 <= i < |ContractionRules| && ContractionRules[i] == r;
      ContractionAnchoredAt(i);
      LiteralHolds(r, 'y', 0);
    }
  }

  /** Every pronoun pattern starts with `y` or `Y`. */
  lemma PronounsHoldY()
    ensures forall r :: r in PronounRules ==> EveryAlternativeHolds(r, 'y')
  {
    forall r | r in PronounRules ensures EveryAlternativeHolds(r, 'y') {
      var i :| 0 <= i < |PronounRules| && PronounRules[i] == r;
      PronounHoldsYAt(i);
    }
  }

  lemma PronounHoldsYAt(i: nat)
    requires i < |PronounRules|
    ensures EveryAlternativeHolds(PronounRules[i], 'y')
  {
    var p := PronounRules[i].pattern.text;
    assert p[0] == 'y' || p[0] == 'Y';
    LiteralHolds(PronounRules[i], 'y', 0);
  }

  lemma PhraseNonErasing()
    ensures forall r :: r in PhraseRules ==> NonErasing(r)
  {
  }

  /** What every rule of any order of the phrase table satisfies. */
  lemma PhraseOrderFacts(phraseOrder: seq<Rule>)
    requires IsPhraseOrder(phraseOrder)
    ensures forall r :: r in phraseOrder ==>
      NonErasing(r) && EveryAlternativeHolds(r, 'y') && EveryAlternativeHolds(r, 'u')
  {
    forall r | r in phraseOrder
      ensures NonErasing(r) && EveryAlternativeHolds(r, 'y') && EveryAlternativeHolds(r, 'u')
    {
      var i := IndexIn(phraseOrder, PhraseRules, r);
      PhraseHoldsYou(i);
      PhraseNonErasing();
    }
  }

  /** Text without `y` passes the contraction pass untouched. */
  lemma ContractionsLeaveTextWithoutY(text: string)
    requires Lacks(text, 'y')
    ensures ApplyRules(ContractionRules, text) == text
  {
    ContractionsHoldY();
    ApplyRulesLeavesTextWithout(ContractionRules, text, 'y');
  }

  /** Text without `y` passes the phrase pass untouched, in any order of the phrase table. */
  lemma PhrasesLeaveTextWithoutY(text: string, phraseOrder: seq<Rule>)
    requires IsPhraseOrder(phraseOrder)
    requires Lacks(text, 'y')
    ensures ApplyRules(phraseOrder, text) == text
  {
    PhraseOrderFacts(phraseOrder);
    ApplyRulesLeavesTextWithout(phraseOrder, text, 'y');
  }

  /** Text without `y` passes the pronoun pass untouched. */
  lemma PronounsLeaveTextWithoutY(text: string)
    requires Lacks(text, 'y')
    ensures ApplyRules(PronounRules, text) == text
  {
    PronounsHoldY();
    ApplyRulesLeavesTextWithout(PronounRules, text, 'y');
  }

  /** Text in which no letter is `y` or `Y` passes the three table passes untouched, in any
      order of the phrase table: every contraction, phrase and pronoun pattern holds `you`. */
  lemma TablesLeaveTextWithoutY(text: string, phraseOrder: seq<Rule>)
    requires IsPhraseOrder(phraseOrder)
    requires Lacks(text, 'y')
    ensures ApplyRules(ContractionRules, text) == text
    ensures ApplyRules(phraseOrder, text) == text
    ensures ApplyRules(PronounRules, text) == text
  {
    ContractionsLeaveTextWithoutY(text);
    PhrasesLeaveTextWithoutY(text, phraseOrder);
    PronounsLeaveTextWithoutY(text);
  }

  /** For text without `y` the order of the phrase table makes no difference to the rewrite. */
  lemma RewriteIgnoresOrderWithoutY(text: string, first: seq<Rule>, second: seq<Rule>)
    requires IsPhraseOrder(first) && IsPhraseOrder(second)
    requires Lacks(text, 'y')
    ensures Rewrite(text, first) == Rewrite(text, second)
  {
    TablesLeaveTextWithoutY(text, first);
    TablesLeaveTextWithoutY(text, second);
  }

  // ----- The "need it" cleanup -----

  /** Any casing of `need it` followed by a word boundary becomes lower-case `need`, wherever
      the scan meets it. */
  lemma CleanupNeedIt(afterWord: bool, s: string)
    requires |s| >= 7 && FoldEqual(s[..7], "need it") && (|s| == 7 || !IsWordChar(s[7]))
    ensures Scan(NeedItCleanup, afterWord, s) == "need" + Scan(NeedItCleanup, true, s[7..])
  {
    var alts := Alternatives(NeedItCleanup.pattern);
    assert alts[0] == "need it";
    FoldEqualSameText(s[..7], "need it");
    assert ToLower(s[6]) == ToLower(s[..7][6]) == 't';
    assert AltMatches(NeedItCleanup, afterWord, s, alts[0]);
  }

  /** Any casing of `need to it` followed by a word boundary becomes lower-case `need`. */
  lemma CleanupNeedToIt(afterWord: bool, s: string)
    requires |s| >= 10 && FoldEqual(s[..10], "need to it") && (|s| == 10 || !IsWordChar(s[10]))
    ensures Scan(NeedItCleanup, afterWord, s) == "need" + Scan(NeedItCleanup, true, s[10..])
  {
    var alts := Alternatives(NeedItCleanup.pattern);
    assert alts[0] == "need it" && alts[1] == "need to it";
    FoldEqualSameText(s[..10], "need to it");
    assert ToLower(s[5]) == ToLower(s[..10][5]) == 't';
    assert s[..7][5] == s[5];
    assert !SameChar(s[..7][5], alts[0][5], true);
    assert ToLower(s[9]) == ToLower(s[..10][9]) == 't';
    assert AltMatches(NeedItCleanup, afterWord, s, alts[1]);
  }

  lemma StandaloneIWholeWord()
    ensures Words.WholeWord(StandaloneI) && !StandaloneI.noApostropheAfter
  {
    Words.IsWordAll("i");
    Words.IsWordAll("I");
  }

  /** The standalone-`i` rule leaves "Need it" alone: neither word is `i`. */
  lemma StandaloneIKeepsNeedIt()
    ensures ReplaceAll(StandaloneI, "Need it") == "Need it"
  {
    assert "Need it" == "Need" + " it";
    StandaloneIKeeps("Need", " it");
  }

  lemma StandaloneIKeeps(w: string, z: string)
    requires w == "Need" && z == " it"
    ensures ReplaceAll(StandaloneI, w + z) == w + z
  {
    StandaloneIWholeWord();
    Words.IsWordAll("it");
    assert w[0] == 'N' && w[1] == 'e' && w[2] == 'e' && w[3] == 'd';
    assert |w| > 0 && Words.AllWordChars(w);
    assert z[0] == ' ' && Words.WordEnd(z);
    Words.UnfoldWord(StandaloneI, w, z);
    Words.UnfoldNonWord(StandaloneI, z);
    assert z[1..] == "it" + [];
    Words.UnfoldWord(StandaloneI, "it", []);
  }

  /** The cleanup turns "Need it" into "need". */
  lemma CleanupOfNeedIt()
    ensures ReplaceAll(NeedItCleanup, "Need it") == "need"
  {
    var s := "Need it";
    assert s[..7] == s;
    CleanupNeedIt(false, s);
    assert s[7..] == [];
  }

  lemma NeedItLacksY()
    ensures Lacks("Need it", 'y')
  {
    Anchored.LacksFoldLacks("Need", 'y');
    Anchored.LacksFoldLacks(" it", 'y');
    LacksAppend("Need", " it", 'y');
  }

  /** The steps after the table passes turn "Need it" into "need". */
  lemma FinishOfNeedIt()
    ensures ReplaceAll(NeedItCleanup, UppercaseFirst(ReplaceAll(StandaloneI, "Need it"))) == "need"
  {
    StandaloneIKeepsNeedIt();
    assert UppercaseFirst("Need it") == "Need it";
    CleanupOfNeedIt();
  }

  /** Text the three table passes leave alone only meets the last steps. */
  lemma RewriteUntouched(text: string, phraseOrder: seq<Rule>)
    requires ApplyRules(ContractionRules, text) == text
    requires ApplyRules(phraseOrder, text) == text
    requires ApplyRules(PronounRules, text) == text
    ensures Rewrite(text, phraseOrder) == ReplaceAll(NeedItCleanup, UppercaseFirst(ReplaceAll(StandaloneI, text)))
  {
  }

  /** A text made only of "Need it" ends up as lower-case "need": the upper-casing of the first
      character happens before the cleanup. */
  lemma NeedItEndsLowercase(phraseOrder: seq<Rule>)
    requires IsPhraseOrder(phraseOrder)
    ensures Rewrite("Need it", phraseOrder) == "need"
  {
    NeedItLacksY();
    TablesLeaveTextWithoutY("Need it", phraseOrder);
    RewriteUntouched("Need it", phraseOrder);
    FinishOfNeedIt();
  }

  /** No rule of the tables, nor of the last steps, replaces a match by empty text. */
  lemma {:induction false} RewriteEmptyFrom(text: string, phraseOrder: seq<Rule>)
    requires forall r :: r in phraseOrder ==> NonErasing(r)
    ensures |Rewrite(text, phraseOrder)| == 0 <==> |text| == 0
  {
    forall r | r in ContractionRules ensures NonErasing(r) {
      var i :| 0 <= i < |ContractionRules| && ContractionRules[i] == r;
      ContractionAnchoredAt(i);
    }
    forall r | r in PronounRules ensures NonErasing(r) {
      var i :| 0 <= i < |PronounRules| && PronounRules[i] == r;
      PronounWholeWordAt(i);
    }
    var contracted := ApplyRules(ContractionRules, text);
    ApplyRulesNonEmpty(ContractionRules, text);
    ApplyRulesNonEmpty(phraseOrder, contracted);
    var phrased := ApplyRules(phraseOrder, contracted);
    ApplyRulesNonEmpty(PronounRules, phrased);
    var pronounsDone := ApplyRules(PronounRules, phrased);
    ScanNonEmpty(StandaloneI, false, pronounsDone);
    ScanNonEmpty(NeedItCleanup, false, UppercaseFirst(ReplaceAll(StandaloneI, pronounsDone)));
  }

  /** Empty text gives empty text, and only empty text does. */
  lemma RewriteEmpty(text: string, phraseOrder: seq<Rule>)
    requires IsPhraseOrder(phraseOrder)
    ensures |Rewrite(text, phraseOrder)| == 0 <==> |text| == 0
  {
    PhraseOrderFacts(phraseOrder);
    RewriteEmptyFrom(text, phraseOrder);
  }

  /** The result never starts with a lower-case letter, unless it starts with a "need" that the
      cleanup produced. */
  lemma RewriteFirstCharacter(text: string, phraseOrder: seq<Rule>)
    ensures var r := Rewrite(text, phraseOrder);
      r != [] ==> !IsLowerAscii(r[0]) || r[..4] == "need"
  {
    var u := UppercaseFirst(ReplaceAll(StandaloneI, ApplyRules(PronounRules,
      ApplyRules(phraseOrder, ApplyRules(ContractionRules, text)))));
    if u != [] {
      assert !IsLowerAscii(u[0]);
    }
  }

  // ----- What the contraction pass does -----

  /** Wherever a contraction matches, in any casing, the contraction pass puts its replacement
      there (the pass then goes on after the match). */
  lemma ContractionAt(k: nat, s: string)
    requires k < |ContractionRules|
    requires Anchored.StartsWith(s, ContractionRules[k].pattern.text, true)
    ensures ApplyRules(ContractionRules, s)
      == ContractionRules[k].template.text + ApplyRules(ContractionRules, s[|ContractionRules[k].pattern.text|..])
  {
    ContractionFamily();
    assert ContractionRules[k].ignoreCase;
    Anchored.FamilyAtMatch(ContractionRules, 'y', 'i', k, s);
  }

  /** "YOU'RE" in front of anything becomes "I'm". */
  lemma ShoutedContraction(z: string)
    ensures ApplyRules(ContractionRules, "YOU'RE" + z) == "I'm" + ApplyRules(ContractionRules, z)
  {
    var s := "YOU'RE" + z;
    assert s[..6] == "YOU'RE";
    FoldEqualSameText("YOU'RE", "you're");
    ContractionAt(0, s);
    assert s[6..] == z;
  }

  // ----- What the pronoun pass does -----

  /** A word that is pronoun `k`'s pattern becomes its replacement unless the look-ahead
      forbids it. */
  lemma PronounWord(k: nat, z: string)
    requires k < |PronounRules| && Words.WordEnd(z)
    ensures var r := PronounRules[k];
      ApplyRules(PronounRules, r.pattern.text + z)
        == (if Words.GuardAllows(r, z) then r.template.text else r.pattern.text)
           + ApplyRules(PronounRules, z)
  {
    PronounFamily();
    PronounWholeWordAt(k);
    Words.ApplyWord(PronounRules, PronounRules[k].pattern.text, z);
    Words.RewrittenAllAt(PronounRules, k, z);
  }

  /** Any other word passes the pronoun pass unchanged. */
  lemma PronounOtherWord(w: string, z: string)
    requires |w| > 0 && Words.AllWordChars(w) && Words.WordEnd(z)
    requires forall k :: 0 <= k < |PronounRules| ==> PronounRules[k].pattern.text != w
    ensures ApplyRules(PronounRules, w + z) == w + ApplyRules(PronounRules, z)
  {
    PronounFamily();
    Words.ApplyWord(PronounRules, w, z);
    Words.RewrittenAllKeeps(PronounRules, w, z);
  }

  /** `you` and `You` followed by an apostrophe are never rewritten, so a contraction the first
      pass did not know (`you'm`, say) cannot become `I'm`-like text. */
  lemma PronounYouBeforeApostrophe(z: string)
    requires z != [] && IsApostrophe(z[0])
    ensures ApplyRules(PronounRules, "you" + z) == "you" + ApplyRules(PronounRules, z)
    ensures ApplyRules(PronounRules, "You" + z) == "You" + ApplyRules(PronounRules, z)
  {
    PronounWord(6, z);
    PronounWord(7, z);
  }

  /** `you` and `You` elsewhere become `I`, whatever verb follows. */
  lemma PronounYouBecomesI(z: string)
    requires Words.WordEnd(z) && !(z != [] && IsApostrophe(z[0]))
    ensures ApplyRules(PronounRules, "you" + z) == "I" + ApplyRules(PronounRules, z)
    ensures ApplyRules(PronounRules, "You" + z) == "I" + ApplyRules(PronounRules, z)
  {
    PronounWord(6, z);
    PronounWord(7, z);
  }

  /** The pronoun pass is case-sensitive: all-caps `YOU` is not one of its words. */
  lemma PronounKeepsShoutedYou(z: string)
    requires Words.WordEnd(z)
    ensures ApplyRules(PronounRules, "YOU" + z) == "YOU" + ApplyRules(PronounRules, z)
  {
    Words.IsWordAll("YOU");
    PronounOtherWord("YOU", z);
  }

  /** No verb agreement: "You are doing" becomes "I are doing". */
  lemma PronounNoAgreement()
    ensures ApplyRules(PronounRules, "You are doing") == "I are doing"
  {
    assert "You are doing" == "You" + " are doing";
    assert "I are doing" == "I" + " are doing";
    YouBecomesIBefore(" are doing");
  }

  lemma YouBecomesIBefore(z: string)
    requires z == " are doing"
    ensures ApplyRules(PronounRules, "You" + z) == "I" + z
  {
    PronounYouBecomesI(z);
    PronounsKeepAreDoing(z);
  }

  lemma PronounsKeepAreDoing(z: string)
    requires z == " are doing"
    ensures ApplyRules(PronounRules, z) == z
  {
    assert z == " are" + " doing";
    Anchored.LacksFoldLacks(" are", 'y');
    Anchored.LacksFoldLacks(" doing", 'y');
    LacksAppend(" are", " doing", 'y');
    PronounsLeaveTextWithoutY(z);
  }

  // ----- The standalone `i` step -----

  /** After the standalone-`i` step no word of the text is a lower-case `i`. */
  lemma NoStandaloneI(s: string)
    ensures Words.NoWord(ReplaceAll(StandaloneI, s), "i")
  {
    StandaloneIWholeWord();
    Words.NoWordAfter(StandaloneI, s);
  }

  // ----- The verb rule -----

  /** The initials of the verbs, up to case. */
  predicate VerbInitial(c: char) {
    var l := ToLower(c);
    l == 's' || l == 'l' || l == 'r' || l == 't' || l == 'f' || l == 'c' || l == 'h' || l == 'a'
  }

  /** No match of the verb rule starts at a character that is no verb's initial. */
  lemma VerbStartsOnlyAtInitial(c: char)
    requires !VerbInitial(c)
    ensures forall a :: a in Alternatives(VerbRule.pattern) ==>
      |a| > 0 && !SameChar(c, a[0], VerbRule.ignoreCase)
  {
    var alts := Alternatives(VerbRule.pattern);
    forall a | a in alts ensures |a| > 0 && !SameChar(c, a[0], true) {
      var k :| 0 <= k < |alts| && alts[k] == a;
      assert a == Verbs[k] + " you";
      assert a[0] == Verbs[k][0];
    }
  }

  /** Any casing of "love you" is matched by the verb's second alternative; the verb is kept
      as written ("LOVE you" becomes "LOVE myself") and " you" becomes " myself". */
  lemma LoveYou(afterWord: bool, s: string)
    requires |s| == 8 && FoldEqual(s, "love you")
    ensures Scan(VerbRule, afterWord, s) == s[..4] + " myself"
  {
    var alts := Alternatives(VerbRule.pattern);
    assert alts[0] == "support you" && alts[1] == "love you";
    FoldEqualSameText(s, "love you");
    assert s[..8] == s;
    assert AltMatches(VerbRule, afterWord, s, alts[1]);
    assert FirstMatchFrom(VerbRule, afterWord, s, 0) == FirstMatchFrom(VerbRule, afterWord, s, 1);
    assert MatchAt(VerbRule, afterWord, s) == Some(1);
    assert s[8..] == [];
  }

  /** Every verb has at least two letters, and no two verbs share their first two letters
      (up to case). */
  lemma VerbsDifferEarly(j: nat, k: nat)
    requires j < |Verbs| && k < |Verbs| && j != k
    ensures |Verbs[j]| >= 2 && |Verbs[k]| >= 2
    ensures ToLower(Verbs[j][0]) != ToLower(Verbs[k][0]) || ToLower(Verbs[j][1]) != ToLower(Verbs[k][1])
  {
  }

  /** A text that starts like a casing of one verb's alternative is no casing of another's. */
  lemma VerbMismatch(j: nat, k: nat, m: string, t: string)
    requires j < |Verbs| && k < |Verbs| && j != k
    requires SameText(m, Verbs[k] + " you", true)
    requires 2 <= |t| && t[0] == m[0] && t[1] == m[1]
    ensures !SameText(t, Verbs[j] + " you", true)
  {
    VerbsDifferEarly(j, k);
    assert SameChar(m[0], (Verbs[k] + " you")[0], true) && SameChar(m[1], (Verbs[k] + " you")[1], true);
    assert (Verbs[k] + " you")[0] == Verbs[k][0] && (Verbs[k] + " you")[1] == Verbs[k][1];
    assert (Verbs[j] + " you")[0] == Verbs[j][0] && (Verbs[j] + " you")[1] == Verbs[j][1];
  }

  /** Any casing of a verb followed by " you", where no word character follows, is matched by
      that verb's own alternative and by no other. */
  lemma VerbMatch(k: nat, afterWord: bool, m: string, z: string)
    requires k < |Verbs|
    requires SameText(m, Verbs[k] + " you", true) && Words.WordEnd(z)
    ensures MatchAt(VerbRule, afterWord, m + z) == Some(k)
  {
    var alts := Alternatives(VerbRule.pattern);
    var s := m + z;
    var n := |m|;
    assert alts[k] == Verbs[k] + " you";
    assert s[..n] == m;
    assert SameChar(m[n - 1], (Verbs[k] + " you")[n - 1], true);
    assert AltMatches(VerbRule, afterWord, s, alts[k]);
    forall j | 0 <= j < |alts| && j != k
      ensures !AltMatches(VerbRule, afterWord, s, alts[j])
    {
      assert alts[j] == Verbs[j] + " you";
      if |alts[j]| <= |s| {
        VerbMismatch(j, k, m, s[..|alts[j]|]);
      }
    }
  }

  /** Any casing of any verb followed by " you", where no word character follows: the verb is
      kept as written, " you" becomes " myself", and the scan goes on after it. */
  lemma VerbAt(k: nat, afterWord: bool, m: string, z: string)
    requires k < |Verbs|
    requires SameText(m, Verbs[k] + " you", true) && Words.WordEnd(z)
    ensures Scan(VerbRule, afterWord, m + z) == m[..|Verbs[k]|] + " myself" + Scan(VerbRule, true, z)
  {
    VerbMatch(k, afterWord, m, z);
    assert SameChar(m[|m| - 1], (Verbs[k] + " you")[|m| - 1], true);
    CaptureAt(VerbRule, afterWord, m, z, k);
  }

  /** The verb rule has no leading boundary, so it also rewrites the end of a longer word:
      "glove you" becomes "glove myself". */
  lemma VerbInsideWord(c: char, s: string)
    requires !VerbInitial(c) && IsWordChar(c)
    requires |s| == 8 && FoldEqual(s, "love you")
    ensures ReplaceAll(VerbRule, [c] + s) == [c] + s[..4] + " myself"
  {
    VerbSkipsNonInitial(c, s);
    LoveYou(true, s);
  }

  /** A word character that is no verb's initial is kept, and the scan goes on after a word
      character. */
  lemma VerbSkipsNonInitial(c: char, s: string)
    requires !VerbInitial(c) && IsWordChar(c) && s != []
    ensures ReplaceAll(VerbRule, [c] + s) == [c] + Scan(VerbRule, true, s)
  {
    var t := [c] + s;
    VerbStartsOnlyAtInitial(c);
    SkipChar(VerbRule, false, t);
    assert t[1..] == s;
  }

  // ----- The order of the phrase rules matters -----

  /** A phrase rule replaces a match at the start of a text (the match begins and ends with
      word characters, and no word character comes before it or after it). */
  lemma PhraseAt(r: Rule, m: string, z: string)
    requires r.pattern.Literal? && r.template.Fixed? && r.ignoreCase
    requires r.leadingBoundary && r.trailingBoundary && !r.noApostropheAfter
    requires |m| == |r.pattern.text| > 0 && SameText(m, r.pattern.text, true)
    requires IsWordChar(m[0]) && IsWordChar(m[|m| - 1]) && Words.WordEnd(z)
    ensures ReplaceAll(r, m + z) == r.template.text + Scan(r, true, z)
  {
    var s := m + z;
    assert Alternatives(r.pattern) == [r.pattern.text];
    assert s[..|m|] == m && s[|m|..] == z;
    assert AltMatches(r, false, s, r.pattern.text);
  }

  /** A case-insensitive literal rule keeps a character that cannot start its pattern. */
  lemma SkipLiteral(r: Rule, afterWord: bool, s: string)
    requires r.pattern.Literal? && |r.pattern.text| > 0 && r.ignoreCase
    requires s != [] && ToLower(s[0]) != ToLower(r.pattern.text[0])
    ensures Scan(r, afterWord, s) == [s[0]] + Scan(r, IsWordChar(s[0]), s[1..])
  {
    assert Alternatives(r.pattern) == [r.pattern.text];
    SkipChar(r, afterWord, s);
  }

  lemma AreStrongLacksU()
    ensures Lacks(" are strong", 'u')
  {
    AvoidsLacks(" are", 'u', 'U');
    AvoidsLacks(" strong", 'u', 'U');
    LacksAppend(" are", " strong", 'u');
    assert " are" + " strong" == " are strong";
  }

  lemma ForMyselfLacksU()
    ensures Lacks("for myself", 'u')
  {
    AvoidsLacks("for ", 'u', 'U');
    AvoidsLacks("myself", 'u', 'U');
    LacksAppend("for ", "myself", 'u');
  }

  lemma ForILacksU()
    ensures Lacks("for I", 'u')
  {
    AvoidsLacks("for I", 'u', 'U');
  }

  lemma AmStrongLacksU()
    ensures Lacks(" am strong", 'u')
  {
    AvoidsLacks(" am", 'u', 'U');
    AvoidsLacks(" strong", 'u', 'U');
    LacksAppend(" am", " strong", 'u');
  }

  /** The phrase `for you` on "for you are strong" gives "for myself are strong". */
  lemma ForYouOnStrong(r: Rule, m: string, z: string)
    requires r == Phrase("for you", "for myself")
    requires m == "for you" && z == " are strong"
    ensures ReplaceAll(r, m + z) == "for myself" + z
  {
    assert m == r.pattern.text && SameText(m, r.pattern.text, true);
    PhraseAt(r, m, z);
    AreStrongLacksU();
    LiteralHolds(r, 'u', 6);
    ScanLeavesTextWithout(r, true, z, 'u');
  }

  /** A case-insensitive literal rule passes over text lacking its pattern's first letter. */
  lemma {:induction false} SkipText(r: Rule, afterWord: bool, w: string, m: string)
    requires r.pattern.Literal? && |r.pattern.text| > 0 && r.ignoreCase
    requires w != [] && Lacks(w, ToLower(r.pattern.text[0]))
    ensures Scan(r, afterWord, w + m) == w + Scan(r, IsWordChar(w[|w| - 1]), m)
    decreases |w|
  {
    var x, w' := w + m, w[1..];
    assert x[0] == w[0] && x[1..] == w' + m;
    SkipLiteral(r, afterWord, x);
    if w' == [] {
      assert w' + m == m && [w[0]] == w;
    } else {
      assert Lacks(w', ToLower(r.pattern.text[0])) by {
        forall j | 0 <= j < |w'| ensures ToLower(w'[j]) != ToLower(r.pattern.text[0]) {
          assert w'[j] == w[j + 1];
        }
      }
      assert w'[|w'| - 1] == w[|w| - 1];
      SkipText(r, IsWordChar(w[0]), w', m);
      assert [w[0]] + (w' + Scan(r, IsWordChar(w[|w| - 1]), m))
        == ([w[0]] + w') + Scan(r, IsWordChar(w[|w| - 1]), m);
      assert [w[0]] + w' == w;
    }
  }

  /** A case-insensitive literal rule whose pattern starts with `y` keeps "for ". */
  lemma SkipsFor(r: Rule, h: string, m: string)
    requires r.pattern.Literal? && |r.pattern.text| > 0 && r.ignoreCase
    requires ToLower(r.pattern.text[0]) == 'y'
    requires h == "for " && m != []
    ensures ReplaceAll(r, h + m) == h + Scan(r, false, m)
  {
    AvoidsLacks("for ", 'y', 'Y');
    SkipText(r, false, h, m);
    assert h[|h| - 1] == ' ';
  }

  lemma StrongMatch(r: Rule, m: string)
    requires r == Phrase("you are strong", "I am strong") && m == "you are strong"
    ensures Scan(r, false, m) == "I am strong"
  {
    assert m == m + [];
    assert m == r.pattern.text && SameText(m, r.pattern.text, true);
    PhraseAt(r, m, []);
  }

  /** The phrase `you are strong` on "for you are strong" gives "for I am strong". */
  lemma StrongOnForYou(r: Rule, h: string, m: string)
    requires r == Phrase("you are strong", "I am strong")
    requires h == "for " && m == "you are strong"
    ensures ReplaceAll(r, h + m) == h + "I am strong"
  {
    SkipsFor(r, h, m);
    StrongMatch(r, m);
  }

  lemma SplitAfterForYou(s: string)
    requires s == "for you are strong"
    ensures s == s[..7] + s[7..] && s[..7] == "for you" && s[7..] == " are strong"
    ensures "for myself" + s[7..] == "for myself are strong"
  {
  }

  lemma ForMyselfAreStrongLacksU(z: string)
    requires z == " are strong"
    ensures Lacks("for myself" + z, 'u')
  {
    AreStrongLacksU();
    ForMyselfLacksU();
    LacksAppend("for myself", z, 'u');
  }

  /** With `for you` first in a phrase order, "for you are strong" becomes
      "for myself are strong": no later phrase finds a `u`. */
  lemma ForYouFirst(order: seq<Rule>, s: string)
    requires |order| > 0 && order[0] == Phrase("for you", "for myself")
    requires forall r :: r in order ==> EveryAlternativeHolds(r, 'u')
    requires s == "for you are strong"
    ensures ApplyRules(order, s) == "for myself are strong"
  {
    SplitAfterForYou(s);
    ForYouOnStrong(order[0], s[..7], s[7..]);
    ForMyselfAreStrongLacksU(s[7..]);
    FirstRuleDecides(order, s, 'u');
  }

  lemma SplitBeforeYou(s: string)
    requires s == "for you are strong"
    ensures s == s[..4] + s[4..] && s[..4] == "for " && s[4..] == "you are strong"
    ensures s[..4] + "I am strong" == "for I am strong"
  {
  }

  lemma ForIAmStrongLacksU()
    ensures Lacks("for I am strong", 'u')
  {
    ForILacksU();
    AmStrongLacksU();
    LacksAppend("for I", " am strong", 'u');
    assert "for I" + " am strong" == "for I am strong";
  }

  /** With `you are strong` first, it becomes "for I am strong". */
  lemma StrongFirst(order: seq<Rule>, s: string)
    requires |order| > 0 && order[0] == Phrase("you are strong", "I am strong")
    requires forall r :: r in order ==> EveryAlternativeHolds(r, 'u')
    requires s == "for you are strong"
    ensures ApplyRules(order, s) == "for I am strong"
  {
    SplitBeforeYou(s);
    StrongOnForYou(order[0], s[..4], s[4..]);
    ForIAmStrongLacksU();
    FirstRuleDecides(order, s, 'u');
  }

  lemma OverlappingPhrases()
    ensures PhraseRules[4] == Phrase("for you", "for myself")
    ensures PhraseRules[10] == Phrase("you are strong", "I am strong")
  {
  }

  lemma ForYouFirstInOrder(order: seq<Rule>, s: string)
    requires IsPhraseOrder(order) && |order| > 0 && order[0] == PhraseRules[4]
    requires s == "for you are strong"
    ensures ApplyRules(order, s) == "for myself are strong"
  {
    PhraseOrderFacts(order);
    OverlappingPhrases();
    ForYouFirst(order, s);
  }

  lemma StrongFirstInOrder(order: seq<Rule>, s: string)
    requires IsPhraseOrder(order) && |order| > 0 && order[0] == PhraseRules[10]
    requires s == "for you are strong"
    ensures ApplyRules(order, s) == "for I am strong"
  {
    PhraseOrderFacts(order);
    OverlappingPhrases();
    StrongFirst(order, s);
  }

  /** Two orders of the phrase table give different results on "for you are strong" ("for
      myself are strong" and "for I am strong"): the phrase order is a real parameter of the
      rewriter. */
  lemma PhraseOrderMatters(first: seq<Rule>, second: seq<Rule>, s: string)
    requires IsPhraseOrder(first) && IsPhraseOrder(second)
    requires |first| > 0 && first[0] == PhraseRules[4]
    requires |second| > 0 && second[0] == PhraseRules[10]
    requires s == "for you are strong"
    ensures ApplyRules(first, s) != ApplyRules(second, s)
  {
    ForYouFirstInOrder(first, s);
    StrongFirstInOrder(second, s);
    assert |"for myself are strong"| != |"for I am strong"|;
  }

  // ----- The phrase order reaches the rewritten text -----


  /** Every contraction pattern holds an apostrophe, straight or typographic. */
  lemma ContractionHoldsApostrophe(i: nat)
    requires i < |ContractionRules|
    ensures EveryAlternativeHolds(ContractionRules[i], '\'') || EveryAlternativeHolds(ContractionRules[i], '’')
  {
    var p := ContractionRules[i].pattern.text;
    assert p[3] == '\'' || p[3] == '’';
    LiteralHolds(ContractionRules[i], p[3], 3);
  }

  lemma ContractionsHoldApostrophe()
    ensures forall r :: r in ContractionRules ==> EveryAlternativeHolds(r, '\'') || EveryAlternativeHolds(r, '’')
  {
    forall r | r in ContractionRules ensures EveryAlternativeHolds(r, '\'') || EveryAlternativeHolds(r, '’') {
      var i :| 0 <= i < |ContractionRules| && ContractionRules[i] == r;
      ContractionHoldsApostrophe(i);
    }
  }

  lemma ForYouAreStrongLacksApostrophes(s: string)
    requires s == "for you are strong"
    ensures Lacks(s, '\'') && Lacks(s, '’')
  {
    forall j | 0 <= j < |s| ensures ToLower(s[j]) != '\'' && ToLower(s[j]) != '’' {
      assert s[j] in s;
    }
  }

  /** "for you are strong" has no apostrophe, so no contraction touches it. */
  lemma ContractionsLeaveForYou(s: string)
    requires s == "for you are strong"
    ensures ApplyRules(ContractionRules, s) == s
  {
    ContractionsHoldApostrophe();
    ForYouAreStrongLacksApostrophes(s);
    ApplyRulesLeavesTextWithoutEither(ContractionRules, s, '\'', '’');
  }

  /** Every pronoun pattern holds `u` (its third letter). */
  lemma PronounsHoldU()
    ensures forall r :: r in PronounRules ==> EveryAlternativeHolds(r, 'u')
  {
    forall r | r in PronounRules ensures EveryAlternativeHolds(r, 'u') {
      var i :| 0 <= i < |PronounRules| && PronounRules[i] == r;
      assert r.pattern.text[2] == 'u';
      LiteralHolds(r, 'u', 2);
    }
  }

  lemma PronounsLeaveTextWithoutU(text: string)
    requires Lacks(text, 'u')
    ensures ApplyRules(PronounRules, text) == text
  {
    PronounsHoldU();
    ApplyRulesLeavesTextWithout(PronounRules, text, 'u');
  }

  lemma ForMyselfAreStrongLacksI(s: string)
    requires s == "for myself are strong"
    ensures Lacks(s, 'i') && Lacks(s, 'u')
  {
    forall j | 0 <= j < |s| ensures ToLower(s[j]) != 'i' && ToLower(s[j]) != 'u' {
      assert s[j] in s;
    }
  }

  /** Both "need it" alternatives hold `i`. */
  lemma NeedItHoldsI()
    ensures EveryAlternativeHolds(NeedItCleanup, 'i')
  {
    var p := NeedItCleanup.pattern;
    var alts := Alternatives(p);
    assert |alts| == 2;
    forall a | a in alts ensures exists j :: 0 <= j < |a| && ToLower(a[j]) == 'i' {
      var k :| 0 <= k < 2 && alts[k] == a;
      assert a == p.head + p.choices[k] + p.tail;
      assert a[|a| - 2] == 'i';
    }
  }

  /** The steps after the table passes only upper-case the first letter of text without `i`. */
  lemma FinishWithoutI(s: string)
    requires Lacks(s, 'i')
    ensures ReplaceAll(NeedItCleanup, UppercaseFirst(ReplaceAll(StandaloneI, s))) == UppercaseFirst(s)
  {
    LiteralHolds(StandaloneI, 'i', 0);
    ScanLeavesTextWithout(StandaloneI, false, s, 'i');
    UppercaseFirstKeepsLacks(s, 'i');
    NeedItHoldsI();
    ScanLeavesTextWithout(NeedItCleanup, false, UppercaseFirst(s), 'i');
  }

  /** Text with no `y` and no `i` passes the whole rewrite with only its first letter
      upper-cased, whatever the phrase order. */
  lemma RewritePassThrough(s: string, order: seq<Rule>)
    requires IsPhraseOrder(order) && Lacks(s, 'y') && Lacks(s, 'i')
    ensures Rewrite(s, order) == UppercaseFirst(s)
  {
    TablesLeaveTextWithoutY(s, order);
    RewriteUntouched(s, order);
    FinishWithoutI(s);
  }

  lemma UppercaseFirstKeepsLacks(s: string, c: char)
    requires Lacks(s, c)
    ensures Lacks(UppercaseFirst(s), c)
  {
    if s != [] {
      var u := UppercaseFirst(s);
      assert ToLower(u[0]) == ToLower(s[0]);
      forall j | 0 < j < |u| ensures ToLower(u[j]) != c {
        assert u[j] == s[j];
      }
    }
  }

  /** The steps after the table passes put no `y` into text without one. */
  lemma FinishKeepsLacksY(s: string)
    requires Lacks(s, 'y')
    ensures Lacks(ReplaceAll(NeedItCleanup, UppercaseFirst(ReplaceAll(StandaloneI, s))), 'y')
  {
    AvoidsLacks("I", 'y', 'Y');
    ScanKeepsLacks(StandaloneI, false, s, 'y');
    UppercaseFirstKeepsLacks(ReplaceAll(StandaloneI, s), 'y');
    AvoidsLacks("need", 'y', 'Y');
    ScanKeepsLacks(NeedItCleanup, false, UppercaseFirst(ReplaceAll(StandaloneI, s)), 'y');
  }

  /** The rewrite of a text through given results of its three table passes. */
  lemma RewriteThrough(text: string, order: seq<Rule>, phrased: string, pronounsDone: string)
    requires ApplyRules(order, ApplyRules(ContractionRules, text)) == phrased
    requires ApplyRules(PronounRules, phrased) == pronounsDone
    ensures Rewrite(text, order) == ReplaceAll(NeedItCleanup, UppercaseFirst(ReplaceAll(StandaloneI, pronounsDone)))
  {
  }

  /** With `for you` first, "for you are strong" is rewritten to "For myself are strong". */
  lemma RewriteForYouFirst(order: seq<Rule>, s: string, phrased: string)
    requires |order| > 0 && order[0] == PhraseRules[4] && IsPhraseOrder(order)
    requires s == "for you are strong" && phrased == "for myself are strong"
    ensures Rewrite(s, order) == UppercaseFirst(phrased)
  {
    ContractionsLeaveForYou(s);
    ForYouFirstInOrder(order, s);
    ForMyselfAreStrongLacksI(phrased);
    PronounsLeaveTextWithoutU(phrased);
    RewriteThrough(s, order, phrased, phrased);
    FinishWithoutI(phrased);
  }

  lemma ForIAmStrongLacksY(s: string)
    requires s == "for I am strong"
    ensures Lacks(s, 'y') && Lacks(s, 'u')
  {
    forall j | 0 <= j < |s| ensures ToLower(s[j]) != 'y' && ToLower(s[j]) != 'u' {
      assert s[j] in s;
    }
  }

  /** With `you are strong` first, the rewrite of "for you are strong" holds no `y`. */
  lemma RewriteStrongFirst(order: seq<Rule>, s: string, phrased: string)
    requires |order| > 0 && order[0] == PhraseRules[10] && IsPhraseOrder(order)
    requires s == "for you are strong" && phrased == "for I am strong"
    ensures Lacks(Rewrite(s, order), 'y')
  {
    ContractionsLeaveForYou(s);
    StrongFirstInOrder(order, s);
    ForIAmStrongLacksY(phrased);
    PronounsLeaveTextWithoutU(phrased);
    RewriteThrough(s, order, phrased, phrased);
    FinishKeepsLacksY(phrased);
  }

  lemma UppercaseForMyself(s: string, t: string)
    requires s == "for myself are strong" && t == "For myself are strong"
    ensures UppercaseFirst(s) == t && !Lacks(t, 'y')
  {
    assert ToLower(t[5]) == 'y';
    assert UppercaseFirst(s)[0] == t[0];
    forall j | 0 < j < |t| ensures UppercaseFirst(s)[j] == t[j] {
      assert t[j] == s[j];
    }
  }
}
