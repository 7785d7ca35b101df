/** The thought-reframe screen: the `reframe` text built from the user's answers, the emotion
    field with its toggle buttons, and the list of saved reframes. */
module Reframe {
  import opened Text
  import opened Regex
  import opened FirstPerson
  import FirstPersonFacts
  import opened Lists
  import opened Identity

  // ----- The emotion list -----

  /** Every emotion lower-cased, in order. */
  function LowercasedAll(xs: seq<string>): (r: seq<string>)
    ensures |r| == |xs|
    ensures forall k :: 0 <= k < |xs| ==> r[k] == Lowercased(xs[k])
  {
    seq(|xs|, k requires 0 <= k < |xs| => Lowercased(xs[k]))
  }

  /** The emotions as the `reframe` property writes them: one alone, two joined by " and ",
      three or more as the leading ones joined by ", " followed by ", and " and the last. */
  function EmotionList(xs: seq<string>): string
    requires |xs| >= 1
  {
    if |xs| == 1 then xs[0]
    else if |xs| == 2 then xs[0] + " and " + xs[1]
    else Join(xs[..|xs| - 1], ", ") + ", and " + xs[|xs| - 1]
  }

  /** Reference reading of an English list with a serial comma, built front to back: every item
      but the last is followed by ", ", and the last is introduced by "and". */
  function SerialList(xs: seq<string>): string
    requires |xs| >= 1
  {
    if |xs| == 1 then xs[0]
    else if |xs| == 2 then xs[0] + " and " + xs[1]
    else SerialTail(xs)
  }

  function SerialTail(xs: seq<string>): string
    requires |xs| >= 2
    decreases |xs|
  {
    if |xs| == 2 then xs[0] + ", and " + xs[1]
    else xs[0] + ", " + SerialTail(xs[1..])
  }

  lemma {:induction false} JoinThenLast(xs: seq<string>)
    requires |xs| >= 2
    ensures Join(xs[..|xs| - 1], ", ") + ", and " + xs[|xs| - 1] == SerialTail(xs)
    decreases |xs|
  {
    if |xs| > 2 {
      var init := xs[..|xs| - 1];
      JoinThenLast(xs[1..]);
      assert init[1..] == xs[1..][..|xs[1..]| - 1];
      assert Join(init, ", ") == xs[0] + ", " + Join(init[1..], ", ");
    }
  }

  /** The list the code builds is the serial-comma list. */
  lemma EmotionListIsSerial(xs: seq<string>)
    requires |xs| >= 1
    ensures EmotionList(xs) == SerialList(xs)
  {
    if |xs| > 2 { JoinThenLast(xs); }
  }

  // ----- The reframe text -----

  /** The fixed text between the emotions and the rewritten friend response (with a typographic
      apostrophe). */
  const Middle := ", but this feeling doesn’t define me. "

  /** The `reframe` computed property. The selected emotions are sorted by code point first and
      lower-cased afterwards; the rewritten friend response uses `phraseOrder` for its phrase
      pass. */
  function ReframeText(userThought: string, friendResponse: string, selectedEmotions: set<string>,
                       selectedEmotion: string, phraseOrder: seq<Rule>): (r: string)
    ensures r == [] <==>
            (userThought == [] || friendResponse == [] || (selectedEmotions == {} && selectedEmotion == []))
  {
    if userThought == [] || friendResponse == [] then []
    else
      var personalized := Rewrite(friendResponse, phraseOrder);
      if selectedEmotions != {} then
        "I feel " + EmotionList(LowercasedAll(SortedElements(selectedEmotions))) + Middle + personalized
      else if selectedEmotion != [] then
        "I feel " + Lowercased(selectedEmotion) + Middle + personalized
      else []
  }

  /** With a non-empty set of emotions the single emotion is ignored, and the text is the serial
      list of the sorted, lower-cased emotions between "I feel " and the rewritten response. */
  lemma ReframeWithEmotions(userThought: string, friendResponse: string, selectedEmotions: set<string>,
                            selectedEmotion: string, phraseOrder: seq<Rule>)
    requires userThought != [] && friendResponse != [] && selectedEmotions != {}
    ensures ReframeText(userThought, friendResponse, selectedEmotions, selectedEmotion, phraseOrder)
         == "I feel " + SerialList(LowercasedAll(SortedElements(selectedEmotions))) + Middle
            + Rewrite(friendResponse, phraseOrder)
    ensures ReframeText(userThought, friendResponse, selectedEmotions, selectedEmotion, phraseOrder)
         == ReframeText(userThought, friendResponse, selectedEmotions, [], phraseOrder)
  {
    EmotionListIsSerial(LowercasedAll(SortedElements(selectedEmotions)));
  }

  /** With no emotion in the set, the single selected emotion is used instead: the text is
      "I feel ", that emotion in lower case and the rewritten response, which is what selecting
      just that emotion in the set says. */
  lemma ReframeWithSingleEmotion(userThought: string, friendResponse: string, selectedEmotion: string,
                                 otherEmotion: string, phraseOrder: seq<Rule>)
    requires userThought != [] && friendResponse != [] && selectedEmotion != []
    ensures ReframeText(userThought, friendResponse, {}, selectedEmotion, phraseOrder)
         == "I feel " + Lowercased(selectedEmotion) + Middle + Rewrite(friendResponse, phraseOrder)
    ensures ReframeText(userThought, friendResponse, {}, selectedEmotion, phraseOrder)
         == ReframeText(userThought, friendResponse, {selectedEmotion}, otherEmotion, phraseOrder)
  {
    var sorted := SortedElements({selectedEmotion});
    assert selectedEmotion in sorted;
    assert sorted == [selectedEmotion];
  }

  /** The sorted elements of a two-element set. */
  lemma SortedPair(a: string, b: string)
    requires Less(a, b)
    ensures SortedElements({a, b}) == [a, b]
  {
    var r := SortedElements({a, b});
    SortedElementsSorted({a, b});
    LessIrreflexive(a);
    assert a in r && b in r;
    LessAsymmetric();
    assert r[0] in {a, b} && r[1] in {a, b};
  }

  /** Lower-casing comes after sorting and duplicates are not merged: "Sad" and "sad" are two
      emotions and both appear, as "sad and sad". */
  lemma SadTwice(sad: string, shouted: string)
    requires sad == "sad" && shouted == "Sad"
    ensures EmotionList(LowercasedAll(SortedElements({shouted, sad}))) == sad + " and " + sad
  {
    assert Less(shouted, sad);
    SortedPair(shouted, sad);
    var lowered := LowercasedAll([shouted, sad]);
    assert lowered[0] == Lowercased(shouted) && lowered[1] == Lowercased(sad);
    assert Lowercased(shouted) == sad by {
      assert ToLower('S') == 's' && ToLower('a') == 'a' && ToLower('d') == 'd';
    }
    assert Lowercased(sad) == sad;
    assert lowered == [sad, sad];
  }

  // ----- The emotion field -----

  /** One comma-separated piece as the commit handler cleans it: trimmed, then capitalised. */
  function CleanEmotion(piece: string): (r: string)
    ensures IsTrimmed(r) && Capitalized(r) == r
    ensures !Contains(piece, ',') ==> !Contains(r, ',')
  {
    var t := Trim(piece);
    CapitalizedIdempotent(t);
    CapitalizedTrimLacks(piece, ',');
    Capitalized(t)
  }

  /** Every piece cleaned, in order. */
  function CleanAll(pieces: seq<string>): (r: seq<string>)
    ensures |r| == |pieces|
    ensures forall k :: 0 <= k < |r| ==> r[k] == CleanEmotion(pieces[k])
  {
    seq(|pieces|, k requires 0 <= k < |pieces| => CleanEmotion(pieces[k]))
  }

  predicate NonEmpty(x: string) {
    x != []
  }

  /** The cleaned, non-empty pieces of the typed emotion text, in order. */
  function CleanedPieces(input: string): (r: seq<string>)
    ensures forall x :: x in r ==> IsCleanEmotion(x)
  {
    var cleaned := CleanAll(Fields(input, ','));
    assert forall x :: x in cleaned ==> IsTrimmed(x) && Capitalized(x) == x && !Contains(x, ',');
    Filter(cleaned, NonEmpty)
  }

  /** The set of emotions a commit of `input` selects. */
  function ParsedEmotions(input: string): set<string> {
    set x | x in CleanedPieces(input)
  }

  /** An emotion as the commit handler leaves it. */
  predicate IsCleanEmotion(x: string) {
    x != [] && IsTrimmed(x) && Capitalized(x) == x && !Contains(x, ',')
  }

  /** The single `selectedEmotion` kept beside the set: its only element, or empty. */
  function SyncedEmotion(S: set<string>): (r: string)
    ensures |S| == 1 ==> S == {r}
    ensures |S| != 1 ==> r == []
  {
    if |S| == 1 then
      var xs := SortedElements(S);
      assert forall y :: y in S ==> y == xs[0];
      xs[0]
    else []
  }

  /** The text written back into the emotion field: the sorted emotions joined by ", ". */
  function CleanInput(S: set<string>): string {
    Join(SortedElements(S), ", ")
  }

  lemma {:induction false} FieldsOfListJoin(xs: seq<string>)
    requires |xs| >= 1
    requires forall k :: 0 <= k < |xs| ==> xs[k] != [] && !Contains(xs[k], ',')
    ensures |Fields(Join(xs, ", "), ',')| == |xs|
    ensures Fields(Join(xs, ", "), ',')[0] == xs[0]
    ensures forall k :: 1 <= k < |xs| ==> Fields(Join(xs, ", "), ',')[k] == " " + xs[k]
  {
    if |xs| == 1 {
      FieldsOfPiece(xs[0], [], ',');
      assert xs[0] + [] == xs[0];
    } else {
      var tail := Join(xs[1..], ", ");
      FieldsOfListJoin(xs[1..]);
      var rest := [','] + (" " + tail);
      assert Join(xs, ", ") == xs[0] + rest;
      FieldsOfPiece(xs[0], rest, ',');
      assert rest[1..] == " " + tail;
      assert tail[0] == xs[1][0];
      assert !Contains(" ", ',');
      FieldsOfPiece(" ", tail, ',');
    }
  }

  /** Cleaning leaves a clean emotion alone, with or without the space that follows a comma. */
  lemma CleanOfClean(x: string)
    requires IsCleanEmotion(x)
    ensures CleanEmotion(x) == x && CleanEmotion(" " + x) == x
  {
    TrimOfTrimmed(x);
    TrimAfterSpaces(" ", x);
  }

  /** Each piece of clean emotions joined with ", " cleans to its emotion. */
  lemma CleanPiecesOfJoin(xs: seq<string>)
    requires |xs| >= 1 && forall i :: 0 <= i < |xs| ==> IsCleanEmotion(xs[i])
    ensures |Fields(Join(xs, ", "), ',')| == |xs|
    ensures forall k :: 0 <= k < |xs| ==> CleanEmotion(Fields(Join(xs, ", "), ',')[k]) == xs[k]
  {
    FieldsOfListJoin(xs);
    forall k | 0 <= k < |xs| ensures CleanEmotion(Fields(Join(xs, ", "), ',')[k]) == xs[k] {
      CleanOfClean(xs[k]);
    }
  }

  /** Cleaning pieces that each clean to the matching emotion gives the emotions. */
  lemma CleanAllIs(pieces: seq<string>, xs: seq<string>)
    requires |pieces| == |xs| && forall k :: 0 <= k < |xs| ==> CleanEmotion(pieces[k]) == xs[k]
    ensures CleanAll(pieces) == xs
  {
  }

  /** Cleaning the pieces of a list of emotions joined with ", " gives the emotions back. */
  lemma CleanAllOfJoin(xs: seq<string>)
    requires |xs| >= 1 && forall k :: 0 <= k < |xs| ==> IsCleanEmotion(xs[k])
    ensures CleanAll(Fields(Join(xs, ", "), ',')) == xs
  {
    CleanPiecesOfJoin(xs);
    CleanAllIs(Fields(Join(xs, ", "), ','), xs);
  }

  /** Joining clean emotions with ", " and cleaning the pieces gives the emotions back. */
  lemma CleanedPiecesOfJoin(xs: seq<string>)
    requires |xs| >= 1 && forall k :: 0 <= k < |xs| ==> IsCleanEmotion(xs[k])
    ensures CleanedPieces(Join(xs, ", ")) == xs
  {
    CleanAllOfJoin(xs);
    FilterAll(xs, NonEmpty);
  }

  /** Committing an empty field selects nothing. */
  lemma ParsedEmpty()
    ensures ParsedEmotions([]) == {}
  {
    assert Fields([], ',') == [[]];
    assert CleanedPieces([]) == [];
  }

  /** Committing clean emotions joined with ", " selects exactly those emotions. */
  lemma ParsedJoin(xs: seq<string>)
    requires forall k :: 0 <= k < |xs| ==> IsCleanEmotion(xs[k])
    ensures ParsedEmotions(Join(xs, ", ")) == set x | x in xs
  {
    if xs == [] {
      ParsedEmpty();
    } else {
      CleanedPiecesOfJoin(xs);
    }
  }

  /** Committing the text that a commit wrote back selects the same emotions again. */
  lemma ParseOfCleanInput(S: set<string>)
    requires forall x :: x in S ==> IsCleanEmotion(x)
    ensures ParsedEmotions(CleanInput(S)) == S
  {
    var xs := SortedElements(S);
    forall k | 0 <= k < |xs| ensures IsCleanEmotion(xs[k]) {
      assert xs[k] in S;
    }
    ParsedJoin(xs);
    assert (set x | x in xs) == S;
  }

  /** A second commit of the field's text changes nothing: the typed text settles after one. */
  lemma CommitSettles(input: string)
    ensures ParsedEmotions(CleanInput(ParsedEmotions(input))) == ParsedEmotions(input)
  {
    ParseOfCleanInput(ParsedEmotions(input));
  }

  /** The set after an emotion button is tapped: the emotion is added or removed. */
  function Toggled(S: set<string>, e: string): (r: set<string>)
    ensures e in r <==> e !in S
    ensures forall x :: x != e ==> (x in r <==> x in S)
  {
    if e in S then S - {e} else S + {e}
  }

  /** Tapping the same button twice restores the selection. */
  lemma ToggleTwice(S: set<string>, e: string)
    ensures Toggled(Toggled(S, e), e) == S
  {
    assert forall x :: x in Toggled(Toggled(S, e), e) <==> x in S;
  }

  // ----- Saved reframes -----

  datatype SavedReframe = SavedReframe(id: Uuid, text: string, date: Date)

  predicate DistinctTexts(xs: seq<SavedReframe>) {
    forall i, j :: 0 <= i < j < |xs| ==> xs[i].text != xs[j].text
  }

  predicate HasText(xs: seq<SavedReframe>, text: string) {
    exists k :: 0 <= k < |xs| && xs[k].text == text
  }

  /** The list after Save: the item is appended unless a saved reframe already has its text. */
  function WithSaved(xs: seq<SavedReframe>, item: SavedReframe): (r: seq<SavedReframe>)
    ensures HasText(r, item.text)
    ensures HasText(xs, item.text) ==> r == xs
    ensures !HasText(xs, item.text) ==> |r| == |xs| + 1 && r[..|xs|] == xs && r[|xs|] == item
    ensures DistinctTexts(xs) ==> DistinctTexts(r)
  {
    if HasText(xs, item.text) then xs
    else
      var r := xs + [item];
      assert r[|xs|].text == item.text;
      r
  }

  lemma {:induction false} SubsequenceDistinctTexts(xs: seq<SavedReframe>, ys: seq<SavedReframe>)
    requires Subsequence(xs, ys)
    ensures DistinctTexts(ys) ==> DistinctTexts(xs)
    decreases |ys|
  {
    if xs != [] && DistinctTexts(ys) {
      if xs[0] == ys[0] {
        assert DistinctTexts(ys[1..]);
        SubsequenceDistinctTexts(xs[1..], ys[1..]);
        SubsequenceElements(xs[1..], ys[1..]);
        forall j | 0 < j < |xs| ensures xs[0].text != xs[j].text {
          assert xs[j] == xs[1..][j - 1];
          assert xs[j] in xs[1..];
          var m :| 0 <= m < |ys[1..]| && ys[1..][m] == xs[j];
          assert ys[m + 1] == xs[j];
        }
      } else {
        assert DistinctTexts(ys[1..]);
        SubsequenceDistinctTexts(xs, ys[1..]);
      }
    }
  }

  /** The list after Delete: every entry with the id goes, the others stay in their order. */
  function WithoutId(xs: seq<SavedReframe>, id: Uuid): (r: seq<SavedReframe>)
    ensures Subsequence(r, xs)
    ensures forall x :: x in r <==> x in xs && x.id != id
    ensures DistinctTexts(xs) ==> DistinctTexts(r)
  {
    var r := Filter(xs, (x: SavedReframe) => x.id != id);
    FilterSubsequence(xs, (x: SavedReframe) => x.id != id);
    SubsequenceDistinctTexts(r, xs);
    r
  }

  /** Some saved reframe has the text that the test computed when it reached it: `seen[k]` is
      the reframe as evaluated for `xs[k]`. */
  predicate AnySeen(xs: seq<SavedReframe>, seen: seq<string>)
    requires |seen| == |xs|
  {
    exists k :: 0 <= k < |xs| && xs[k].text == seen[k]
  }

  /** The list after Save when every evaluation of the reframe may come out differently: the
      test compares each saved reframe with its own evaluation `seen[k]`, and `item` carries the
      text evaluated for the append. */
  function SavedUnder(xs: seq<SavedReframe>, seen: seq<string>, item: SavedReframe): seq<SavedReframe>
    requires |seen| == |xs|
  {
    if AnySeen(xs, seen) then xs else xs + [item]
  }

  /** When every evaluation agrees with the appended text, Save is `WithSaved`: the text ends
      up in the list exactly once more at most, and distinct texts stay distinct. */
  lemma SavedUnderAgreeing(xs: seq<SavedReframe>, seen: seq<string>, item: SavedReframe)
    requires |seen| == |xs|
    requires forall k :: 0 <= k < |seen| ==> seen[k] == item.text
    ensures SavedUnder(xs, seen, item) == WithSaved(xs, item)
    ensures DistinctTexts(xs) ==> DistinctTexts(SavedUnder(xs, seen, item))
  {
    assert AnySeen(xs, seen) <==> HasText(xs, item.text);
  }

  /** When the test's evaluation differs from the saved text and the append's evaluation equals
      it, Save appends a second reframe with that text. */
  lemma SavedUnderDuplicates(xs: seq<SavedReframe>, seen: seq<string>, item: SavedReframe)
    requires |xs| == 1 && |seen| == 1
    requires seen[0] != xs[0].text && item.text == xs[0].text
    ensures SavedUnder(xs, seen, item) == xs + [item]
    ensures !DistinctTexts(SavedUnder(xs, seen, item))
  {
    assert !AnySeen(xs, seen);
    assert (xs + [item])[0].text == (xs + [item])[1].text;
  }

  /** The reframe text depends on the order of the phrase table only through the rewritten
      friend response. */
  lemma ReframeTextFollowsRewrite(userThought: string, friendResponse: string, selectedEmotions: set<string>,
                                  selectedEmotion: string, first: seq<Rule>, second: seq<Rule>)
    requires Rewrite(friendResponse, first) == Rewrite(friendResponse, second)
    ensures ReframeText(userThought, friendResponse, selectedEmotions, selectedEmotion, first)
         == ReframeText(userThought, friendResponse, selectedEmotions, selectedEmotion, second)
  {
  }

  /** The order of the phrase table that a Lehmer code names. */
  function PhraseArrangement(code: seq<nat>): seq<Rule>
    requires IsLehmerCode(code, PhraseCount)
  {
    PhraseCountIsSize();
    Arrange(PhraseRules, code)
  }

  /** It is an order of the phrase table, headed by the phrase the code's first entry picks. */
  lemma PhraseArrangementIsOrder(code: seq<nat>)
    requires IsLehmerCode(code, PhraseCount)
    ensures IsPhraseOrder(PhraseArrangement(code))
    ensures |PhraseArrangement(code)| > 0 && PhraseArrangement(code)[0] == PhraseRules[code[0]]
  {
    PhraseCountIsSize();
    ArrangePermutes(PhraseRules, code);
    ArrangeFirst(PhraseRules, code);
  }

  /** With `for you` visited first, the friend response "for you are strong" is rewritten to
      "For myself are strong", which holds a `y`. */
  lemma ForYouFirstCode(code: seq<nat>, s: string)
    requires IsLehmerCode(code, PhraseCount) && code[0] == 4
    requires s == "for you are strong"
    ensures Rewrite(s, PhraseArrangement(code)) == "For myself are strong"
    ensures !Lacks(Rewrite(s, PhraseArrangement(code)), 'y')
  {
    ForYouFirstCodeRewrite(code, s, "for myself are strong");
    FirstPersonFacts.UppercaseForMyself("for myself are strong", "For myself are strong");
  }

  lemma ForYouFirstCodeRewrite(code: seq<nat>, s: string, phrased: string)
    requires IsLehmerCode(code, PhraseCount) && code[0] == 4
    requires s == "for you are strong" && phrased == "for myself are strong"
    ensures Rewrite(s, PhraseArrangement(code)) == UppercaseFirst(phrased)
  {
    PhraseArrangementIsOrder(code);
    FirstPersonFacts.RewriteForYouFirst(PhraseArrangement(code), s, phrased);
  }

  /** With `you are strong` visited first, the rewrite of "for you are strong" holds no `y`. */
  lemma StrongFirstCode(code: seq<nat>, s: string)
    requires IsLehmerCode(code, PhraseCount) && code[0] == 10
    requires s == "for you are strong"
    ensures Lacks(Rewrite(s, PhraseArrangement(code)), 'y')
  {
    PhraseArrangementIsOrder(code);
    FirstPersonFacts.RewriteStrongFirst(PhraseArrangement(code), s, "for I am strong");
  }

  /** Reframe texts with different rewritten responses differ (when there is a text at all). */
  lemma ReframeTextSeparates(userThought: string, friendResponse: string, selectedEmotions: set<string>,
                             selectedEmotion: string, first: seq<Rule>, second: seq<Rule>)
    requires userThought != [] && friendResponse != [] && (selectedEmotions != {} || selectedEmotion != [])
    requires Rewrite(friendResponse, first) != Rewrite(friendResponse, second)
    ensures ReframeText(userThought, friendResponse, selectedEmotions, selectedEmotion, first)
         != ReframeText(userThought, friendResponse, selectedEmotions, selectedEmotion, second)
  {
    var head := if selectedEmotions != {} then "I feel " + EmotionList(LowercasedAll(SortedElements(selectedEmotions))) + Middle
                else "I feel " + Lowercased(selectedEmotion) + Middle;
    var one := ReframeText(userThought, friendResponse, selectedEmotions, selectedEmotion, first);
    var other := ReframeText(userThought, friendResponse, selectedEmotions, selectedEmotion, second);
    assert one == head + Rewrite(friendResponse, first) && other == head + Rewrite(friendResponse, second);
    assert one[|head|..] == Rewrite(friendResponse, first) && other[|head|..] == Rewrite(friendResponse, second);
  }

  // ----- The screen's state -----

  class ThoughtReframeState {
    var userThought: string
    var selectedEmotion: string
    var selectedEmotions: set<string>
    var emotionInput: string
    var friendResponse: string
    var showReframe: bool
    var savedReframes: seq<SavedReframe>
    var showDeleteConfirmation: Option<SavedReframe>

    /** The reframe as one evaluation computes it: `order` names, as a Lehmer code over the
        phrase rules, the arrangement in which that evaluation's fresh phrase dictionary is
        visited. */
    function Reframe(order: seq<nat>): (r: string)
      requires IsLehmerCode(order, PhraseCount)
      reads this`userThought, this`friendResponse, this`selectedEmotions, this`selectedEmotion
    {
      ReframeText(userThought, friendResponse, selectedEmotions, selectedEmotion, PhraseArrangement(order))
    }

    /** The reframes one evaluation per order computes. */
    function Evaluations(orders: seq<seq<nat>>): (r: seq<string>)
      requires forall k :: 0 <= k < |orders| ==> IsLehmerCode(orders[k], PhraseCount)
      reads this`userThought, this`friendResponse, this`selectedEmotions, this`selectedEmotion
      ensures |r| == |orders|
      decreases |orders|
    {
      if orders == [] then [] else [Reframe(orders[0])] + Evaluations(orders[1..])
    }

    /** The `k`-th evaluation uses the `k`-th order. */
    lemma {:induction false} EvaluationAt(orders: seq<seq<nat>>, k: nat)
      requires forall j :: 0 <= j < |orders| ==> IsLehmerCode(orders[j], PhraseCount)
      requires k < |orders|
      ensures Evaluations(orders)[k] == Reframe(orders[k])
      decreases k
    {
      if k > 0 {
        EvaluationAt(orders[1..], k - 1);
      }
    }

    /** A friend response without `y` gives the same reframe on every evaluation. */
    lemma ReframeIgnoresOrderWithoutY(first: seq<nat>, second: seq<nat>)
      requires IsLehmerCode(first, PhraseCount) && IsLehmerCode(second, PhraseCount)
      requires Lacks(friendResponse, 'y')
      ensures Reframe(first) == Reframe(second)
    {
      var one, other := PhraseArrangement(first), PhraseArrangement(second);
      PhraseArrangementIsOrder(first);
      PhraseArrangementIsOrder(second);
      FirstPersonFacts.RewriteIgnoresOrderWithoutY(friendResponse, one, other);
      ReframeTextFollowsRewrite(userThought, friendResponse, selectedEmotions, selectedEmotion, one, other);
    }

    /** Two evaluations can disagree: with "for you are strong" as the friend response and an
        emotion chosen, an evaluation that visits `for you` first and one that visits `you are
        strong` first give different reframes. */
    lemma ReframeDependsOnOrder(first: seq<nat>, second: seq<nat>)
      requires IsLehmerCode(first, PhraseCount) && first[0] == 4
      requires IsLehmerCode(second, PhraseCount) && second[0] == 10
      requires userThought != [] && friendResponse == "for you are strong"
      requires selectedEmotions != {} || selectedEmotion != []
      ensures Reframe(first) != Reframe(second)
    {
      ForYouFirstCode(first, friendResponse);
      StrongFirstCode(second, friendResponse);
      ReframeTextSeparates(userThought, friendResponse, selectedEmotions, selectedEmotion,
                           PhraseArrangement(first), PhraseArrangement(second));
    }

    /** With a friend response without `y`, every evaluation gives the reframe of any one order. */
    lemma {:induction false} EvaluationsWithoutY(orders: seq<seq<nat>>, order: seq<nat>)
      requires forall k :: 0 <= k < |orders| ==> IsLehmerCode(orders[k], PhraseCount)
      requires IsLehmerCode(order, PhraseCount)
      requires Lacks(friendResponse, 'y')
      ensures Evaluations(orders) == Copies(Reframe(order), |orders|)
      decreases |orders|
    {
      if orders != [] {
        ReframeIgnoresOrderWithoutY(orders[0], order);
        EvaluationsWithoutY(orders[1..], order);
      }
    }

    /** A fresh screen. */
    constructor ()
      ensures userThought == [] && selectedEmotion == [] && selectedEmotions == {} && emotionInput == []
      ensures friendResponse == [] && !showReframe && savedReframes == [] && showDeleteConfirmation == None
    {
      userThought := [];
      selectedEmotion := [];
      selectedEmotions := {};
      emotionInput := [];
      friendResponse := [];
      showReframe := false;
      savedReframes := [];
      showDeleteConfirmation := None;
    }

    /** The emotion field's commit: parse the text, keep the single emotion in step, and write
        the cleaned list back into the field (where, by `CommitSettles`, a further commit finds
        the same emotions). */
    method CommitEmotionInput()
      modifies this`selectedEmotions, this`selectedEmotion, this`emotionInput
      ensures selectedEmotions == ParsedEmotions(old(emotionInput))
      ensures selectedEmotion == SyncedEmotion(selectedEmotions)
      ensures emotionInput == CleanInput(selectedEmotions)
    {
      selectedEmotions := ParsedEmotions(emotionInput);
      selectedEmotion := SyncedEmotion(selectedEmotions);
      emotionInput := CleanInput(selectedEmotions);
    }

    /** An emotion button: toggle the emotion, then keep the single emotion and the field in
        step with the set. */
    method ToggleEmotion(emotion: string)
      modifies this`selectedEmotions, this`selectedEmotion, this`emotionInput
      ensures selectedEmotions == Toggled(old(selectedEmotions), emotion)
      ensures selectedEmotion == SyncedEmotion(selectedEmotions)
      ensures emotionInput == CleanInput(selectedEmotions)
    {
      var toggled := Toggled(selectedEmotions, emotion);
      selectedEmotions, selectedEmotion, emotionInput := toggled, SyncedEmotion(toggled), CleanInput(toggled);
    }

    /** The Save button, with the fresh identifier and the current date supplied by the caller.
        `contains(where:)` evaluates the reframe afresh for each saved reframe it compares, with
        the phrase order `checkOrders[k]` for `savedReframes[k]` (evaluations after the first
        match are never made, and their orders do not matter); the append evaluates it once
        more, with `appendOrder`. */
    method Save(id: Uuid, date: Date, checkOrders: seq<seq<nat>>, appendOrder: seq<nat>)
      requires |checkOrders| == |savedReframes|
      requires forall k :: 0 <= k < |checkOrders| ==> IsLehmerCode(checkOrders[k], PhraseCount)
      requires IsLehmerCode(appendOrder, PhraseCount)
      modifies this`savedReframes
      ensures savedReframes == SavedUnder(old(savedReframes), old(Evaluations(checkOrders)),
                                          SavedReframe(id, old(Reframe(appendOrder)), date))
    {
      var seen := Evaluations(checkOrders);
      if !AnySeen(savedReframes, seen) {
        savedReframes := savedReframes + [SavedReframe(id, Reframe(appendOrder), date)];
      }
    }

    /** The trash button on a saved reframe: ask for confirmation. */
    method RequestDelete(item: SavedReframe)
      modifies this`showDeleteConfirmation
      ensures showDeleteConfirmation == Some(item)
    {
      showDeleteConfirmation := Some(item);
    }

    /** Cancel in the confirmation: close it, deleting nothing. */
    method CancelDelete()
      modifies this`showDeleteConfirmation
      ensures showDeleteConfirmation == None
    {
      showDeleteConfirmation := None;
    }

    /** Delete in the confirmation: remove every saved reframe with the item's id and close. */
    method ConfirmDelete()
      requires showDeleteConfirmation.Some?
      modifies this`savedReframes, this`showDeleteConfirmation
      ensures savedReframes == WithoutId(old(savedReframes), old(showDeleteConfirmation).value.id)
      ensures showDeleteConfirmation == None
    {
      var id := showDeleteConfirmation.value.id;
      savedReframes, showDeleteConfirmation := WithoutId(savedReframes, id), None;
    }
  }
}
