# Self-care companion: a verified model of its logic

The app has three screens with logic of their own, and this project models each of them in Dafny.

- **Thought reframe.** The user writes a negative thought, picks or types the emotions it brings and writes what they would tell a friend. The app then builds a "reframe" sentence. `convertToFirstPerson` rewrites the friend text from second to first person ("you are strong" becomes "I am strong", "you're" becomes "I'm"). It does this with three dictionaries of regular-expression substitutions and three fixed clean-up steps. Reframes can be saved and deleted after a confirmation. Save skips a text that is already saved. Each evaluation of `reframe` may visit the phrase dictionary in a different order, so a duplicate can still get in.
- **Goal tracker.** A `GoalViewModel` keeps a list of goals. Each goal has a category, a status and a progress percentage, and status and progress are coupled. Goals are added or replaced by identifier, updated, deleted and filtered by a string key. A completion checkbox composes two updates.
- **Affirmations.** An `AffirmationsViewModel` keeps a list of affirmations. It loads built-in samples, creates affirmations from a form, toggles favourites, counts uses and filters by favourites or category.

## Files

The modules follow the program's structure:

- `text.dfy` (`Text`): the string operations the code calls. These are ASCII case mapping, trimming, `capitalized`, splitting and joining, and code-point ordering with the sorted elements of a set.
- `lists.dfy` (`Lists`): the generic list operations the code uses, plus the arrangement of a list by a Lehmer code. The operations are `firstIndex`, `filter`, subsequences and permutations.
- `regex.dfy` (`Regex`): the substitutions as the regular-expression engine applies them. A substitution is a literal pattern, optionally with one alternation group, and a flag for each of:
  - `(?i)`;
  - a leading `\b`;
  - a trailing `\b`;
  - the look-ahead `(?!['’])`.

  It is applied by a left-to-right, non-overlapping scan. The module also proves when the order of a list of substitutions does not matter.
- `anchored.dfy` (`AnchoredRules`) and `wholeword.dfy` (`WholeWordRules`): two families of substitutions that commute pairwise. The contractions form the first family and the pronouns the second.
- `first_person.dfy` (`FirstPerson`): the rule tables and `convertToFirstPerson` itself, with its passes in order.
- `first_person_facts.dfy` (`FirstPersonFacts`): what the rewriter does to particular inputs.
- `reframe.dfy` (`Reframe`): the `reframe` text, the emotion field and buttons, and the saved reframes, gathered in the class `ThoughtReframeState`.
- `goals.dfy` (`Goals`): goals, the string-keyed filter and the class `GoalViewModel`.
- `affirmations.dfy` (`Affirmations`): affirmations, the filter enum and the class `AffirmationsViewModel`.
- `identity.dfy` (`Identity`): identifiers and dates as abstract values.

## Reading of the code

The model follows the code, including these behaviours that are easy to miss:

- The selected emotions are sorted before they are lower-cased, and duplicates that only differ in case are kept. `{"Sad", "sad"}` gives "sad and sad" (`Reframe.SadTwice`).
- `reframe` is empty when the thought is empty, not only when the friend text or the emotions are missing (`Reframe.ReframeText`).
- The pronoun pass does no verb agreement. It turns a bare "You are doing" into "I are doing" (`FirstPersonFacts.PronounNoAgreement`, a statement about the pronoun pass). Only the listed `you are …` phrases give "I am".
- `reframe` is a computed property, and the phrase dictionary is a local of `convertToFirstPerson`. So each evaluation builds a fresh dictionary, and its iteration order may differ from one evaluation to the next. `contains(where:)` in Save evaluates `reframe` once per saved reframe it compares, and the append evaluates it once more. For "for you are strong" two orders give different texts (`Reframe.ThoughtReframeState.ReframeDependsOnOrder`), and then Save can append a text that is already saved (`Reframe.SavedUnderDuplicates`).
- Text without any "you" word is still changed by the steps after the dictionaries. No lone lower-case `i` is left, because the standalone-`i` step makes it `I` (`FirstPersonFacts.NoStandaloneI`). The first letter is upper-cased, and "need it" becomes "need" (`FirstPersonFacts.CleanupNeedIt`). Text with neither `y` nor `i` comes back with just its first letter upper-cased (`FirstPersonFacts.RewritePassThrough`).
- The "need it" cleanup runs after the first character is upper-cased. So a text that is just "Need it" ends as lower-case "need" (`FirstPersonFacts.NeedItEndsLowercase`).

## Model

| member | source | states |
|---|---|---|
| Regex.Alternatives | thoughtReframe.swift:86 | a literal pattern matches only its text; a group `h(c1\|…\|cn)t` matches `h+ci+t`, one alternative per choice, in the listed order |
| Regex.FirstMatchFrom | thoughtReframe.swift:86 | the alternative found is the first one from position k that matches; every earlier alternative fails |
| Regex.MatchAt | thoughtReframe.swift:67 | a match at the start of the text is the first listed alternative that matches, given case folding, `\b` on either side and the apostrophe look-ahead; there is no match exactly when no alternative matches |
| Regex.SkipChar | thoughtReframe.swift:67 | a character that starts no alternative is copied and the scan moves on by one |
| Regex.ScanLeavesTextWithout | thoughtReframe.swift:67 | a rule each of whose alternatives holds a letter that the text lacks leaves the text unchanged |
| Regex.ApplyRulesLeavesTextWithout | thoughtReframe.swift:66-68 | the same holds for a whole pass of such rules, in any order |
| Regex.ApplyRulesNonEmpty | thoughtReframe.swift:66-68 | a pass whose replacements are never empty gives empty text exactly for empty text |
| Regex.ApplyRulesAppend | thoughtReframe.swift:66-68 | running the rules of `xs + ys` is running `xs` and then `ys` |
| Regex.FirstRuleDecides | thoughtReframe.swift:89-91 | when the first rule's output lacks a letter every rule needs, the later rules change nothing |
| Regex.MoveToEnd | thoughtReframe.swift:66-68 | a rule that commutes with every later rule can be moved to the end of the pass |
| Regex.OrderIrrelevant | thoughtReframe.swift:66-68 | when every two rules of a pass commute, any order of the same rules gives the same text |
| AnchoredRules.FamilyCommutes | thoughtReframe.swift:55-64 | non-overlapping literal rules without boundaries, each starting at the letter `y`, lacking `y` further on and replacing with text that lacks `y`, commute pairwise |
| AnchoredRules.NoNewMatch | thoughtReframe.swift:55-67 | rewriting the rest of a text with one member of the family never creates, at its start, a match of another member |
| WholeWordRules.UnfoldWord | thoughtReframe.swift:94-107 | a whole-word rule turns a word into its replacement exactly when the word is its pattern and the look-ahead allows it; scanning then goes on after the word |
| WholeWordRules.UnfoldNonWord | thoughtReframe.swift:94-107 | a whole-word rule copies a character that is not a word character |
| WholeWordRules.FamilyCommutes | thoughtReframe.swift:94-104 | whole-word rules with distinct patterns, none replacing with another's pattern, commute pairwise |
| WholeWordRules.RewrittenAllAt | thoughtReframe.swift:94-107 | a pass of such rules turns a word into the replacement of the rule whose pattern it is, when its guard allows |
| FirstPerson.ContractionFamily | thoughtReframe.swift:55-64 | the eight contractions form a family anchored on `y` |
| FirstPerson.PronounFamily | thoughtReframe.swift:94-104 | the eight pronouns are whole-word rules with distinct patterns, and no replacement is a pattern |
| FirstPerson.ContractionOrderIrrelevant | thoughtReframe.swift:55-68 | every iteration order of the contraction dictionary gives the result of the listed order |
| FirstPerson.PronounOrderIrrelevant | thoughtReframe.swift:94-108 | every iteration order of the pronoun dictionary gives the result of the listed order |
| FirstPerson.ApplyPass | thoughtReframe.swift:66-68 | the `for` loop over a dictionary applies every rule to the running result in the order given |
| FirstPerson.RulePasses | thoughtReframe.swift:51-108 | for any three dictionary orders, the three loops give contractions in listed order, then phrases in the given order, then pronouns in listed order |
| FirstPerson.FinishRewrite | thoughtReframe.swift:110-122 | standalone `i` is capitalised, then the first character is upper-cased, then the "need it" cleanup runs |
| FirstPerson.ConvertToFirstPerson | thoughtReframe.swift:50-125 | the method's result is `Rewrite` of the text under the phrase dictionary's order, whatever the other two orders are |
| FirstPersonFacts.PhraseHoldsYou | thoughtReframe.swift:72-86 | every phrase pattern, the verb rule's included, holds `you` |
| FirstPersonFacts.ContractionsHoldY | thoughtReframe.swift:55-64 | every contraction pattern starts with `y` or `Y` |
| FirstPersonFacts.PronounsHoldY | thoughtReframe.swift:94-103 | every pronoun pattern starts with `y` or `Y` |
| FirstPersonFacts.PhraseOrderFacts | thoughtReframe.swift:71-87 | every rule of any order of the phrase table needs `y` and `u` and never replaces with empty text |
| FirstPersonFacts.TablesLeaveTextWithoutY | thoughtReframe.swift:55-108 | text without the letter `y` passes the three dictionary passes untouched, in any phrase order |
| FirstPersonFacts.CleanupNeedIt | thoughtReframe.swift:122 | any casing of "need it" before a word boundary becomes lower-case "need" |
| FirstPersonFacts.CleanupNeedToIt | thoughtReframe.swift:122 | any casing of "need to it" before a word boundary becomes lower-case "need" |
| FirstPersonFacts.StandaloneIKeepsNeedIt | thoughtReframe.swift:111-114 | the standalone-`i` step leaves "Need it" alone |
| FirstPersonFacts.FinishOfNeedIt | thoughtReframe.swift:110-122 | the last three steps turn "Need it" into "need" |
| FirstPersonFacts.RewriteUntouched | thoughtReframe.swift:110-122 | text that the three dictionary passes leave alone only meets the last three steps |
| FirstPersonFacts.NeedItEndsLowercase | thoughtReframe.swift:117-122 | "Need it" is rewritten to lower-case "need", in every phrase order |
| FirstPersonFacts.RewriteEmpty | thoughtReframe.swift:117-119 | the rewrite is empty exactly when the input is empty |
| FirstPersonFacts.RewriteFirstCharacter | thoughtReframe.swift:117-122 | a non-empty result starts with no lower-case letter unless it starts with "need" |
| FirstPersonFacts.ContractionAt | thoughtReframe.swift:55-68 | wherever a contraction matches, in any casing, the contraction pass puts its replacement there and goes on after it |
| FirstPersonFacts.ShoutedContraction | thoughtReframe.swift:56 | "YOU'RE" becomes "I'm": the contractions ignore case |
| FirstPersonFacts.PronounWord | thoughtReframe.swift:94-108 | a word that is a pronoun pattern becomes its replacement unless the apostrophe look-ahead forbids it |
| FirstPersonFacts.PronounOtherWord | thoughtReframe.swift:94-108 | every other word passes the pronoun pass unchanged |
| FirstPersonFacts.PronounYouBeforeApostrophe | thoughtReframe.swift:101-103 | `you` or `You` before `'` or `’` is never rewritten, so no "I're" can arise |
| FirstPersonFacts.PronounYouBecomesI | thoughtReframe.swift:102-103 | `you` or `You` before anything else at a word end becomes `I` |
| FirstPersonFacts.PronounKeepsShoutedYou | thoughtReframe.swift:102-103 | all-caps `YOU` is untouched: the pronoun pass is case-sensitive |
| FirstPersonFacts.PronounNoAgreement | thoughtReframe.swift:102-103 | the pronoun pass turns "You are doing" into "I are doing" |
| FirstPersonFacts.NoStandaloneI | thoughtReframe.swift:111-114 | after the standalone-`i` step no word of the text is lower-case `i` |
| FirstPersonFacts.VerbStartsOnlyAtInitial | thoughtReframe.swift:86 | no match of the verb rule starts at a character that is no verb's initial |
| FirstPersonFacts.LoveYou | thoughtReframe.swift:86 | any casing of "love you" becomes the verb as written followed by " myself" |
| FirstPersonFacts.VerbMatch | thoughtReframe.swift:86 | any casing of any of the nine verbs followed by " you" and a word end is matched by that verb's own alternative |
| FirstPersonFacts.VerbAt | thoughtReframe.swift:86 | wherever any casing of a verb and " you" stands before a word end, the verb is kept as written, " you" becomes " myself", and the scan goes on after it |
| FirstPersonFacts.VerbInsideWord | thoughtReframe.swift:86 | the verb rule has no leading boundary: "glove you" becomes "glove myself" |
| FirstPersonFacts.PhraseAt | thoughtReframe.swift:72-85 | a phrase matched in any casing at a word start and followed by a word end is replaced by its fixed text |
| FirstPersonFacts.ForYouFirstInOrder | thoughtReframe.swift:76 | with "for you" first, "for you are strong" becomes "for myself are strong" |
| FirstPersonFacts.StrongFirstInOrder | thoughtReframe.swift:82 | with "you are strong" first, "for you are strong" becomes "for I am strong" |
| FirstPersonFacts.RewriteIgnoresOrderWithoutY | thoughtReframe.swift:71-91 | for text without the letter `y` every order of the phrase dictionary gives the same rewrite |
| FirstPersonFacts.RewritePassThrough | thoughtReframe.swift:50-125 | text with no `y` and no `i` (so no second-person word and no lone `i`) comes back with only its first letter upper-cased, in every phrase order |
| FirstPersonFacts.FinishWithoutI | thoughtReframe.swift:110-122 | on text without the letter `i` the last three steps only upper-case the first character |
| FirstPersonFacts.RewriteForYouFirst | thoughtReframe.swift:50-125 | in any phrase order that starts with "for you", "for you are strong" is rewritten to "For myself are strong" |
| FirstPersonFacts.RewriteStrongFirst | thoughtReframe.swift:50-125 | in any phrase order that starts with "you are strong", the rewrite of "for you are strong" holds no `y` |
| FirstPersonFacts.PhraseOrderMatters | thoughtReframe.swift:71-91 | two orders of the phrase dictionary give different results, so its order is a real parameter |
| Text.Lowercased | thoughtReframe.swift:135 | same length; every character lower-cased |
| Text.Trim | thoughtReframe.swift:193 | whitespace is cut from the two ends and nothing else: the result is a slice of the text that neither starts nor ends with whitespace, and everything before and after the slice is whitespace |
| Text.TrimAfterSpaces | thoughtReframe.swift:193 | trimming text that is whitespace followed by trimmed text gives the trimmed text |
| Text.Capitalized | thoughtReframe.swift:193 | same length; the first character and each character after whitespace are upper-cased, every other character is lower-cased; trimmed text stays trimmed |
| Text.CapitalizedIdempotent | thoughtReframe.swift:193 | capitalising twice is capitalising once |
| Text.FieldsOfJoin | thoughtReframe.swift:192-205 | splitting at the separator undoes joining pieces that lack it |
| Text.SortedElements | thoughtReframe.swift:135 | `sorted()` on a set: one entry per element, holding exactly the set's elements |
| Text.SortedElementsSorted | thoughtReframe.swift:135 | the entries ascend strictly in code-point order |
| Reframe.LowercasedAll | thoughtReframe.swift:135 | the list lower-cased element by element, same length |
| Reframe.EmotionListIsSerial | thoughtReframe.swift:136-145 | the list the code builds is the serial-comma English list: one item alone, "a and b", or "a, b, and c" |
| Reframe.ReframeText | thoughtReframe.swift:128-154 | the reframe is empty exactly when the thought or the friend text is empty, or no emotion is selected in either form |
| Reframe.ReframeWithEmotions | thoughtReframe.swift:132-153 | with a non-empty set the single emotion is ignored; the text is "I feel ", the serial list of sorted, lower-cased emotions, the fixed middle and the rewritten friend text |
| Reframe.ReframeWithSingleEmotion | thoughtReframe.swift:145-153 | with an empty set and a single emotion the text is "I feel ", that emotion lower-cased, the fixed middle and the rewritten friend text, the same text as selecting just that emotion in the set |
| Reframe.SortedPair | thoughtReframe.swift:135 | a two-element set sorts as its two elements in code-point order |
| Reframe.SadTwice | thoughtReframe.swift:135 | sorting happens before lower-casing and nothing is de-duplicated: "Sad" and "sad" give "sad and sad" |
| Reframe.CleanEmotion | thoughtReframe.swift:193 | a cleaned piece is trimmed and capitalised, and has no comma if the piece had none |
| Reframe.CleanedPieces | thoughtReframe.swift:191-194 | every piece kept is non-empty, trimmed, capitalised and comma-free |
| Reframe.SyncedEmotion | thoughtReframe.swift:198-202 | the single emotion is the set's only element when it has one, and empty otherwise |
| Reframe.ParseOfCleanInput | thoughtReframe.swift:191-205 | parsing the text written back for a set of clean emotions gives that set again |
| Reframe.CommitSettles | thoughtReframe.swift:189-206 | a second commit of the field's text selects the same emotions as the first |
| Reframe.Toggled | thoughtReframe.swift:214-218 | the tapped emotion is in the new set exactly when it was not in the old one; other emotions keep their membership |
| Reframe.ToggleTwice | thoughtReframe.swift:214-218 | tapping the same emotion twice restores the set |
| Reframe.WithSaved | thoughtReframe.swift:257-261 | when every evaluation gives the same text: afterwards the text is present; the list is unchanged if the text was there already, and otherwise the item is appended; distinct texts stay distinct |
| Reframe.SavedUnderAgreeing | thoughtReframe.swift:257-261 | when every comparison's evaluation equals the appended text, Save is `WithSaved`, and distinct texts stay distinct |
| Reframe.SavedUnderDuplicates | thoughtReframe.swift:257-261 | when the one comparison's evaluation differs from the saved text and the append's evaluation equals it, Save appends a second reframe with that text, and the texts are no longer distinct |
| Reframe.ReframeTextFollowsRewrite | thoughtReframe.swift:128-153 | the reframe depends on the phrase order only through the rewritten friend text |
| Reframe.ReframeTextSeparates | thoughtReframe.swift:128-153 | when there is a reframe at all, different rewritten friend texts give different reframes |
| Reframe.PhraseArrangementIsOrder | thoughtReframe.swift:71-91 | every Lehmer code arranges the phrase table into an order of it, headed by the phrase the code's first entry picks |
| Reframe.ForYouFirstCode | thoughtReframe.swift:71-91 | an arrangement that visits "for you" first rewrites "for you are strong" to "For myself are strong", which holds a `y` |
| Reframe.StrongFirstCode | thoughtReframe.swift:71-91 | an arrangement that visits "you are strong" first rewrites "for you are strong" to a text without `y` |
| Reframe.WithoutId | thoughtReframe.swift:356 | Delete keeps, in order, exactly the entries with another identifier; distinct texts stay distinct |
| Reframe.ThoughtReframeState.constructor | thoughtReframe.swift:4-19 | empty fields, no saved reframes, no pending confirmation |
| Reframe.ThoughtReframeState.CommitEmotionInput | thoughtReframe.swift:189-206 | the set becomes the parsed emotions, the single emotion is synced, the field holds the sorted, comma-joined list (which `Reframe.CommitSettles` shows parses back to the same set) |
| Reframe.ThoughtReframeState.ToggleEmotion | thoughtReframe.swift:212-226 | the set is toggled at the emotion, the single emotion is synced, and the field holds the sorted list |
| Reframe.ThoughtReframeState.Evaluations | thoughtReframe.swift:258 | one reframe per comparison that `contains(where:)` makes |
| Reframe.ThoughtReframeState.EvaluationAt | thoughtReframe.swift:258 | the comparison with the `k`-th saved reframe sees the reframe evaluated under the `k`-th order |
| Reframe.ThoughtReframeState.ReframeIgnoresOrderWithoutY | thoughtReframe.swift:128-153 | with a friend text without `y`, every evaluation of the reframe gives the same text |
| Reframe.ThoughtReframeState.EvaluationsWithoutY | thoughtReframe.swift:258-259 | with a friend text without `y`, every comparison sees the text the append stores |
| Reframe.ThoughtReframeState.ReframeDependsOnOrder | thoughtReframe.swift:128-153 | with the friend text "for you are strong", a thought and an emotion, an evaluation visiting "for you" first and one visiting "you are strong" first give different reframes |
| Reframe.ThoughtReframeState.Save | thoughtReframe.swift:257-261 | the reframe evaluated for the append is appended exactly when no saved reframe's text equals the evaluation compared with it; each evaluation has its own phrase order |
| Reframe.ThoughtReframeState.RequestDelete | thoughtReframe.swift:306-308 | the trash button marks the item for confirmation |
| Reframe.ThoughtReframeState.CancelDelete | thoughtReframe.swift:347-349 | Cancel clears the pending confirmation |
| Reframe.ThoughtReframeState.ConfirmDelete | thoughtReframe.swift:355-358 | Delete removes every entry with the pending item's identifier and clears the confirmation |
| Goals.CategoryFromRaw | ContentView.swift:5-7 | a category read from a string has that string as its raw value |
| Goals.IsCategoryRawIff | ContentView.swift:82 | a string is among the categories' raw values exactly when it reads back as a category |
| Goals.CategoryRawInjective | ContentView.swift:5-7 | two categories with the same raw value are the same |
| Goals.KeywordsAreNotCategories | ContentView.swift:77-83 | "all", "active" and "completed" are no category's raw value |
| Goals.FilteredGoals | ContentView.swift:76-87 | an in-order subsequence: "active" keeps exactly the not-started and in-progress goals, "completed" the completed ones, a raw value that category's goals, and any other key every goal |
| Goals.FilterAllShowsEverything | ContentView.swift:84-85 | the key "all", the initial one, shows every goal |
| Goals.IndexOfId | ContentView.swift:90 | the first position holding the identifier, or none when no goal has it |
| Goals.IndexOfIdAfterReplace | ContentView.swift:111-112 | replacing a goal by one with the same identifier moves no identifier's first position |
| Goals.Upserted | ContentView.swift:89-94 | the form replaces the first goal with its identifier (length unchanged) or is appended; afterwards it is found at its identifier's first position and every other position is unchanged |
| Goals.UpsertIdempotent | ContentView.swift:89-94 | saving the same form twice is saving it once |
| Goals.UpsertKeepsDistinctIds | ContentView.swift:89-94 | adding or replacing keeps identifiers distinct |
| Goals.WithoutId | ContentView.swift:135 | an in-order subsequence keeping exactly the goals with another identifier |
| Goals.WithoutIdKeepsDistinctIds | ContentView.swift:135 | deleting keeps identifiers distinct |
| Goals.DeleteIdempotent | ContentView.swift:135 | deleting twice is deleting once |
| Goals.WithStatus | ContentView.swift:112-118 | only status and progress change; completed forces 100, not started forces 0, other statuses keep the progress |
| Goals.WithProgress | ContentView.swift:124-130 | only progress and status change; the progress is stored unclamped; exactly 100 completes, any other positive value starts a not-started goal, otherwise the status stays |
| Goals.WithStatusKeepsRange | ContentView.swift:110-120 | a status update keeps a progress between 0 and 100 in that range |
| Goals.Checked | ContentView.swift:355-362 | the checkbox on a completed card leaves the goal not started at 0, and on any other card completed at 100 |
| Goals.CheckTwice | ContentView.swift:355-362 | ticking twice restores a goal that was completed at 100 or not started at 0 |
| Goals.GoalViewModel.constructor | ContentView.swift:62-71 | no goals, key "all", form closed and blank, no toast |
| Goals.GoalViewModel.ResetForm | ContentView.swift:104-108 | a blank form with a fresh identifier, no goal being edited, form closed |
| Goals.GoalViewModel.AddOrUpdateGoal | ContentView.swift:89-96 | the goals become the form upserted into them, then the form is reset; identifiers stay distinct |
| Goals.GoalViewModel.EditGoal | ContentView.swift:98-102 | the goal is copied into the form and the editing slot, and the form opens |
| Goals.GoalViewModel.ShowCompletionToast | ContentView.swift:139-143 | the toast shows "Way to go!" |
| Goals.GoalViewModel.HideToast | ContentView.swift:146-150 | the toast is hidden |
| Goals.GoalViewModel.UpdateStatus | ContentView.swift:110-120 | nothing changes without a goal with the identifier; otherwise only the first such goal becomes `WithStatus` of itself, and completing shows the toast |
| Goals.GoalViewModel.UpdateProgress | ContentView.swift:122-132 | nothing changes without a goal with the identifier; otherwise only the first such goal becomes `WithProgress` of itself, and 100 shows the toast |
| Goals.GoalViewModel.DeleteGoal | ContentView.swift:134-137 | every goal with the identifier is removed, the rest keep their order |
| Goals.GoalViewModel.ToggleCompletion | ContentView.swift:355-362 | only the first goal with the card's identifier changes, to `Checked` of the card and itself, and the toast shows when the card was not completed |
| Affirmations.FilterKey | affirmationsInterface.swift:46-54 | "all" and "favorites" name no category; each other case names one |
| Affirmations.KeyFromRaw | affirmationsInterface.swift:12-18 | a category read from a string has that string as its raw value |
| Affirmations.KeyRawInjective | affirmationsInterface.swift:12-18 | every category reads back from its raw value, so the raw values are distinct |
| Affirmations.FilterRawMatchesKey | affirmationsInterface.swift:46-54 | a filter's raw value equals a category key's raw value exactly when the filter is named after that category |
| Affirmations.Samples | affirmationsInterface.swift:87-94 | six samples with the drawn identifiers, not favourites, never used, one per category |
| Affirmations.FilteredAffirmations | affirmationsInterface.swift:147-156 | an in-order subsequence: all keeps everything, favourites keeps exactly the favourites, a category filter exactly the affirmations whose category raw value is the filter's; each shown affirmation as many times as in the list |
| Lists.ArrangeComplete | thoughtReframe.swift:89-91 | every rearrangement of a list, so every order in which a dictionary can be visited, is the arrangement of some Lehmer code |
| Lists.Filter | affirmationsInterface.swift:150-155 | `filter` keeps, in order, the elements that satisfy the predicate, each as many times as in the input, and no other element |
| Affirmations.FilteredByCategory | affirmationsInterface.swift:153-154 | a category filter keeps exactly the affirmations of its category |
| Affirmations.IndexOf | affirmationsInterface.swift:131 | the first position holding an affirmation equal on every field, or none when there is none |
| Affirmations.FavoriteFlipped | affirmationsInterface.swift:132 | only the favourite mark changes, and it flips |
| Affirmations.UsedOnce | affirmationsInterface.swift:138 | only the use count changes, and it grows by exactly one |
| Affirmations.FavoriteTwice | affirmationsInterface.swift:130-134 | toggling the shown affirmation and then its updated value restores the list, when the updated value does not already occur earlier |
| Affirmations.AffirmationsViewModel.constructor | affirmationsInterface.swift:76-94 | empty list, loading, form closed and empty, filter all, six samples |
| Affirmations.AffirmationsViewModel.LoadData | affirmationsInterface.swift:102-114 | an empty list becomes the samples, any other list stays, and loading ends |
| Affirmations.AffirmationsViewModel.ResetForm | affirmationsInterface.swift:125-128 | the form's text and category are cleared |
| Affirmations.AffirmationsViewModel.CreateAffirmation | affirmationsInterface.swift:116-123 | without a category or with empty text nothing changes; otherwise one new affirmation (that text and category, not a favourite, never used) is appended, and the form is cleared and closed |
| Affirmations.AffirmationsViewModel.ToggleFavorite | affirmationsInterface.swift:130-134 | only the first equal affirmation changes, its favourite mark flipped; nothing changes when none is equal |
| Affirmations.AffirmationsViewModel.UseAffirmation | affirmationsInterface.swift:136-141 | only the first equal affirmation changes, its use count plus one, and it becomes the current one; nothing changes when none is equal |
| Affirmations.AffirmationsViewModel.CreateSampleAffirmations | affirmationsInterface.swift:143-145 | the six samples are appended: six more items and the existing ones unchanged in front |

## Left out

- Regular expressions in general. Only the literal patterns, with one alternation group, the case flag, `\b` and the apostrophe look-ahead the rewriter uses are modelled.
- Unicode case mapping. `uppercased`, `lowercased` and `capitalized` map ASCII letters only; other characters, `’` among them, are kept as they are.
- `\b` in Unicode. Word characters are ASCII letters, digits and `_`.
- Text.Capitalized: word starts follow ASCII whitespace only, not Foundation's full word segmentation.
- The iteration order of a Swift dictionary. Each table is applied in an order given as a parameter. The contraction and pronoun orders are proved not to matter. The phrase order does matter and stays a parameter of `Rewrite`. Each evaluation of `reframe` on the screen gets its own order as a Lehmer code, because each call builds its dictionary afresh. Every rearrangement of the table has a Lehmer code (`Lists.ArrangeComplete`), so no order is lost. Which orders Swift picks is not modelled.
- Text.Trim: trims ASCII whitespace only (space, tab, line feed, vertical tab, form feed, carriage return). Swift's `.whitespacesAndNewlines` also trims U+0085, U+00A0, U+1680, U+2000 to U+200A, U+2028, U+2029, U+202F, U+205F and U+3000; the model keeps them.
- Text.Less and Text.SortedElements: strings are compared code point by code point. Swift's `==`, `<`, `Set` and `sorted()` treat canonically equivalent strings as equal (a precomposed "é" and "e" with a combining acute accent), and the model treats them as different.
- Regex.MatchAt: `(?i)` folds ASCII letters only. ICU's case-insensitive matching also folds some other characters onto ASCII letters, such as ſ (U+017F) onto `s` and the Kelvin sign (U+212A) onto `k`; the model does not match those.
- Text.Fields keeps empty pieces where `split(separator:)` drops them. The cleaned list filters out empty pieces afterwards, so the parsed emotions are the same.
- The emotion buttons are modelled for any emotion text, not only the twelve listed names.
- `UUID()` and `Date()`. Fresh identifiers and dates are parameters of the operations that need them.
- The toast's timer and the haptic feedback. The delayed hide is the separate method `HideToast`.
- `Task.sleep` and the `async`/`@MainActor` wrappers of `loadData`, `createAffirmation` and `createSampleAffirmations`. Only the state after each call completes is modelled. Changes made by other calls during the sleep are not modelled.
- Swift's `Int` overflow on `timesUsed += 1` and on progress values. Integers are unbounded.
- Sample identifiers: they are drawn once per view-model, so `createSampleAffirmations` appends affirmations with the same identifiers again, as the code does.
- Affirmations.FavoriteTwice: the round trip is proved only when the updated value does not already occur before the changed position. Otherwise the second toggle finds that earlier copy, as the code would.
- Display names, colours, icons, the status label and all view layout, animation and navigation.
- The grounding activities and the "Reframe" button that only shows the reframe.
- AnimatedBackground.swift, CustomizableBubble.swift, GoalsView.swift and AddSafePerson.swift are not part of this model. They are random animation, view-local toggles and device calls.
