/** `convertToFirstPerson`: the rule tables of the rewriter and the order of its passes. */
module FirstPerson {
  import opened Text
  import opened Regex
  import opened Lists
  import Anchored = AnchoredRules
  import Words = WholeWordRules

  // ----- Rule tables -----

  /** `(?i)p -> q`: case-insensitive, no boundary. */
  function Contraction(p: string, q: string): Rule
    requires |p| > 0
  {
    Substitution(Literal(p), true, false, false, false, Fixed(q))
  }

  /** `(?i)\bp\b -> q`. */
  function Phrase(p: string, q: string): Rule
    requires |p| > 0
  {
    Substitution(Literal(p), true, true, true, false, Fixed(q))
  }

  /** `\bp\b -> q`, or `\bp(?!['’])\b -> q` when `guarded`. */
  function Pronoun(p: string, q: string, guarded: bool): Rule
    requires |p| > 0
  {
    Substitution(Literal(p), false, true, true, guarded, Fixed(q))
  }

  /** Contractions, in the order the table lists them. */
  const ContractionRules: seq<Rule> := [
    Contraction("you're", "I'm"),
    Contraction("you’re", "I'm"),
    Contraction("you'd", "I'd"),
    Contraction("you’d", "I'd"),
    Contraction("you've", "I've"),
    Contraction("you’ve", "I've"),
    Contraction("you'll", "I'll"),
    Contraction("you’ll", "I'll")
  ]

  /** The verbs of the back-reference rule, in the order the alternation tries them. */
  const Verbs: seq<string> :=
    ["support", "love", "remind", "trust", "forgive", "care about", "help", "thank", "appreciate"]

  /** `(?i)(support|love|...|appreciate) you\b -> $1 myself`: no leading boundary. */
  const VerbRule: Rule := Substitution(Group("", Verbs, " you"), true, false, true, false, CaptureThen(" myself"))

  /** Phrases and idioms, in the order the table lists them. */
  const PhraseRules: seq<Rule> := [
    Phrase("i love you", "I love myself"),
    Phrase("proud of you", "proud of myself"),
    Phrase("remind you", "remind myself"),
    Phrase("care about you", "care about myself"),
    Phrase("for you", "for myself"),
    Phrase("you are beautiful", "I am beautiful"),
    Phrase("you are worthy", "I am worthy"),
    Phrase("you are enough", "I am enough"),
    Phrase("you are safe", "I am safe"),
    Phrase("you are loved", "I am loved"),
    Phrase("you are strong", "I am strong"),
    Phrase("you matter", "I matter"),
    Phrase("you belong", "I belong"),
    Phrase("you got this", "I got this"),
    VerbRule
  ]

  /** The number of phrase rules. */
  const PhraseCount := 15

  lemma PhraseCountIsSize()
    ensures |PhraseRules| == PhraseCount
  {
  }

  /** `order` lists the phrase rules, each as often as the table does: an iteration order of
      the phrase dictionary. */
  ghost predicate IsPhraseOrder(order: seq<Rule>) {
    multiset(order) == multiset(PhraseRules)
  }

  /** Pronouns, in the order the table lists them. */
  const PronounRules: seq<Rule> := [
    Pronoun("yourself", "myself", false),
    Pronoun("Yourself", "Myself", false),
    Pronoun("your", "my", false),
    Pronoun("Your", "My", false),
    Pronoun("yours", "mine", false),
    Pronoun("Yours", "Mine", false),
    Pronoun("you", "I", true),
    Pronoun("You", "I", true)
  ]

  /** `\bi\b -> I`. */
  const StandaloneI: Rule := Substitution(Literal("i"), false, true, true, false, Fixed("I"))

  /** `(?i)(need (it|to it))\b -> need`. */
  const NeedItCleanup: Rule :=
    Substitution(Group("need ", ["it", "to it"], ""), true, false, true, false, Fixed("need"))

  // ----- The contraction and pronoun passes do not depend on the order of their rules -----

  /** A contraction `y...` whose tail lacks `y` and which lacks `i`, replaced by text starting
      with `I` and lacking `y`, belongs to the family anchored on `y`. */
  lemma AnchoredContraction(p: string, tail: string, q: string)
    requires p == "y" + tail && Anchored.LacksFold(tail, 'y') && Anchored.LacksFold(p, 'i')
    requires |q| > 0 && Anchored.LacksFold(q, 'y') && ToLower(q[0]) == 'i'
    ensures Anchored.Anchored(Contraction(p, q), 'y', 'i')
  {
    assert p[1..] == tail;
    Anchored.LacksFoldLacks(tail, 'y');
    Anchored.LacksFoldLacks(p, 'i');
    Anchored.LacksFoldLacks(q, 'y');
  }

  lemma ContractionAnchored0() ensures Anchored.Anchored(ContractionRules[0], 'y', 'i') {
    AnchoredContraction("you're", "ou're", "I'm");
  }
  lemma ContractionAnchored1() ensures Anchored.Anchored(ContractionRules[1], 'y', 'i') {
    AnchoredContraction("you’re", "ou’re", "I'm");
  }
  lemma ContractionAnchored2() ensures Anchored.Anchored(ContractionRules[2], 'y', 'i') {
    AnchoredContraction("you'd", "ou'd", "I'd");
  }
  lemma ContractionAnchored3() ensures Anchored.Anchored(ContractionRules[3], 'y', 'i') {
    AnchoredContraction("you’d", "ou’d", "I'd");
  }
  lemma ContractionAnchored4() ensures Anchored.Anchored(ContractionRules[4], 'y', 'i') {
    AnchoredContraction("you've", "ou've", "I've");
  }
  lemma ContractionAnchored5() ensures Anchored.Anchored(ContractionRules[5], 'y', 'i') {
    AnchoredContraction("you’ve", "ou’ve", "I've");
  }
  lemma ContractionAnchored6() ensures Anchored.Anchored(ContractionRules[6], 'y', 'i') {
    AnchoredContraction("you'll", "ou'll", "I'll");
  }
  lemma ContractionAnchored7() ensures Anchored.Anchored(ContractionRules[7], 'y', 'i') {
    AnchoredContraction("you’ll", "ou’ll", "I'll");
  }

  lemma ContractionAnchoredAt(i: nat)
    requires i < |ContractionRules|
    ensures Anchored.Anchored(ContractionRules[i], 'y', 'i')
  {
    if i == 0 { ContractionAnchored0(); } else if i == 1 { ContractionAnchored1(); }
    else if i == 2 { ContractionAnchored2(); } else if i == 3 { ContractionAnchored3(); }
    else if i == 4 { ContractionAnchored4(); } else if i == 5 { ContractionAnchored5(); }
    else if i == 6 { ContractionAnchored6(); } else { ContractionAnchored7(); }
  }

  /** The contractions form a family anchored on `y`: they cannot overlap, nor can one
      create a match of another. */
  lemma ContractionFamily()
    ensures Anchored.Family(ContractionRules, 'y', 'i')
  {
    forall i | 0 <= i < |ContractionRules| ensures Anchored.Anchored(ContractionRules[i], 'y', 'i') {
      ContractionAnchoredAt(i);
    }
    forall i, j | 0 <= i < |ContractionRules| && 0 <= j < |ContractionRules| && i != j
      ensures Anchored.FoldDiffer(ContractionRules[i].pattern.text, ContractionRules[j].pattern.text)
    {
      ContractionsDiffer(i, j);
    }
  }

  /** Two contraction patterns differ in the kind of apostrophe or in the letter after it. */
  lemma ContractionsDiffer(i: nat, j: nat)
    requires i < |ContractionRules| && j < |ContractionRules| && i != j
    ensures Anchored.FoldDiffer(ContractionRules[i].pattern.text, ContractionRules[j].pattern.text)
  {
    var a, b := ContractionRules[i].pattern.text, ContractionRules[j].pattern.text;
    if ToLower(a[3]) != ToLower(b[3]) {
      Anchored.FoldDifferAt(a, b, 3);
    } else {
      Anchored.FoldDifferAt(a, b, 4);
    }
  }

  /** A pronoun rule whose pattern and replacement are words is a whole-word rule. */
  lemma WholeWordPronoun(p: string, q: string, guarded: bool)
    requires |p| > 0 && Words.IsWord(p) && |q| > 0 && Words.IsWord(q)
    ensures Words.WholeWord(Pronoun(p, q, guarded))
  {
    Words.IsWordAll(p);
    Words.IsWordAll(q);
  }

  lemma PronounWholeWord0() ensures Words.WholeWord(PronounRules[0]) {
    WholeWordPronoun("yourself", "myself", false);
  }
  lemma PronounWholeWord1() ensures Words.WholeWord(PronounRules[1]) {
    WholeWordPronoun("Yourself", "Myself", false);
  }
  lemma PronounWholeWord2() ensures Words.WholeWord(PronounRules[2]) {
    WholeWordPronoun("your", "my", false);
  }
  lemma PronounWholeWord3() ensures Words.WholeWord(PronounRules[3]) {
    WholeWordPronoun("Your", "My", false);
  }
  lemma PronounWholeWord4() ensures Words.WholeWord(PronounRules[4]) {
    WholeWordPronoun("yours", "mine", false);
  }
  lemma PronounWholeWord5() ensures Words.WholeWord(PronounRules[5]) {
    WholeWordPronoun("Yours", "Mine", false);
  }
  lemma PronounWholeWord6() ensures Words.WholeWord(PronounRules[6]) {
    WholeWordPronoun("you", "I", true);
  }
  lemma PronounWholeWord7() ensures Words.WholeWord(PronounRules[7]) {
    WholeWordPronoun("You", "I", true);
  }

  lemma PronounWholeWordAt(i: nat)
    requires i < |PronounRules|
    ensures Words.WholeWord(PronounRules[i])
  {
    if i == 0 { PronounWholeWord0(); } else if i == 1 { PronounWholeWord1(); }
    else if i == 2 { PronounWholeWord2(); } else if i == 3 { PronounWholeWord3(); }
    else if i == 4 { PronounWholeWord4(); } else if i == 5 { PronounWholeWord5(); }
    else if i == 6 { PronounWholeWord6(); } else { PronounWholeWord7(); }
  }

  /** The pronoun rules are whole-word rules with distinct patterns, and no replacement
      (`myself`, `Myself`, `my`, `My`, `mine`, `Mine`, `I`) is a pattern. */
  lemma PronounFamily()
    ensures Words.Family(PronounRules)
  {
    forall i | 0 <= i < |PronounRules| ensures Words.WholeWord(PronounRules[i]) {
      PronounWholeWordAt(i);
    }
    forall i, j | 0 <= i < |PronounRules| && 0 <= j < |PronounRules| && i != j
      ensures PronounRules[i].pattern.text != PronounRules[j].pattern.text
      ensures PronounRules[i].template.text != PronounRules[j].pattern.text
    {
      // patterns start with `y` or `Y` and differ in that letter or in length;
      // replacements start with `m`, `M` or `I`
      var p, p', q := PronounRules[i].pattern.text, PronounRules[j].pattern.text, PronounRules[i].template.text;
      assert p[0] != p'[0] || |p| != |p'|;
      assert q[0] != p'[0];
    }
  }

  /** Any order of the contraction table gives the same result. */
  lemma ContractionOrderIrrelevant(order: seq<Rule>, s: string)
    requires multiset(order) == multiset(ContractionRules)
    ensures ApplyRules(order, s) == ApplyRules(ContractionRules, s)
  {
    ContractionFamily();
    Anchored.FamilyCommutes(ContractionRules, 'y', 'i');
    OrderIrrelevant(ContractionRules, order, s);
  }

  /** Any order of the pronoun table gives the same result. */
  lemma PronounOrderIrrelevant(order: seq<Rule>, s: string)
    requires multiset(order) == multiset(PronounRules)
    ensures ApplyRules(order, s) == ApplyRules(PronounRules, s)
  {
    PronounFamily();
    Words.FamilyCommutes(PronounRules);
    OrderIrrelevant(PronounRules, order, s);
  }

  // ----- The rewriter -----

  /** `result.replaceSubrange(first, with: String(first).uppercased())`. */
  function UppercaseFirst(s: string): string {
    if s == [] then [] else [ToUpper(s[0])] + s[1..]
  }

  /** The rewriter's passes in order: contractions, phrases (in `phraseOrder`), pronouns,
      standalone `i`, first character upper-cased, then the "need it" cleanup. The contraction
      and pronoun tables are applied in listed order, which loses nothing (see
      `ContractionOrderIrrelevant` and `PronounOrderIrrelevant`); the phrase order matters
      (see `PhraseOrderMatters`). */
  function Rewrite(text: string, phraseOrder: seq<Rule>): string {
    var contracted := ApplyRules(ContractionRules, text);
    var phrased := ApplyRules(phraseOrder, contracted);
    var pronounsDone := ApplyRules(PronounRules, phrased);
    var capitalI := ReplaceAll(StandaloneI, pronounsDone);
    ReplaceAll(NeedItCleanup, UppercaseFirst(capitalI))
  }

  /** One `for (pattern, replacement) in table` loop: every rule applied to the running
      result, in the order the dictionary yields them. */
  method ApplyPass(rules: seq<Rule>, text: string) returns (result: string)
    ensures result == ApplyRules(rules, text)
  {
    result := text;
    for i := 0 to |rules|
      invariant result == ApplyRules(rules[..i], text)
    {
      result := ReplaceAll(rules[i], result);
      assert rules[..i + 1][..i] == rules[..i];
    }
    assert rules[..|rules|] == rules;
  }

  /** The three table loops of `convertToFirstPerson`. Each table is iterated in an order the
      dictionary chooses, modelled by the three order parameters; the result does not depend
      on the contraction and pronoun orders. */
  method RulePasses(text: string, contractionOrder: seq<Rule>, phraseOrder: seq<Rule>,
                    pronounOrder: seq<Rule>) returns (result: string)
    requires multiset(contractionOrder) == multiset(ContractionRules)
    requires IsPhraseOrder(phraseOrder)
    requires multiset(pronounOrder) == multiset(PronounRules)
    ensures result == ApplyRules(PronounRules, ApplyRules(phraseOrder, ApplyRules(ContractionRules, text)))
  {
    var contracted := ApplyPass(contractionOrder, text);
    ContractionOrderIrrelevant(contractionOrder, text);
    var phrased := ApplyPass(phraseOrder, contracted);
    result := ApplyPass(pronounOrder, phrased);
    PronounOrderIrrelevant(pronounOrder, phrased);
  }

  /** The steps of `convertToFirstPerson` after the table loops: standalone `i`, the first
      character, and the "need it" cleanup. */
  method FinishRewrite(text: string) returns (result: string)
    ensures result == ReplaceAll(NeedItCleanup, UppercaseFirst(ReplaceAll(StandaloneI, text)))
  {
    result := ReplaceAll(StandaloneI, text);
    var capitalI := result;
    if |result| > 0 {
      result := [ToUpper(result[0])] + result[1..];
    }
    assert result == UppercaseFirst(capitalI);
    result := ReplaceAll(NeedItCleanup, result);
  }

  /** `convertToFirstPerson`, with the dictionaries' iteration orders as parameters. */
  method ConvertToFirstPerson(text: string, contractionOrder: seq<Rule>, phraseOrder: seq<Rule>,
                              pronounOrder: seq<Rule>) returns (result: string)
    requires multiset(contractionOrder) == multiset(ContractionRules)
    requires IsPhraseOrder(phraseOrder)
    requires multiset(pronounOrder) == multiset(PronounRules)
    ensures result == Rewrite(text, phraseOrder)
  {
    result := RulePasses(text, contractionOrder, phraseOrder, pronounOrder);
    result := FinishRewrite(result);
  }
}
