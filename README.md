# Quiz logic of the interactive flashcard template

The template shows one flashcard as a quiz. Two families of card exist:

* **Basic** cards. A tag chooses the quiz kind.
* **Cloze** cards. The answer field holds `{{cN::content::placeholder}}` deletions, and card `N` asks for deletion `N`.

Each family has a front script and a back script. This project models the quiz logic inside those four scripts:

* turning the card fields into a typed question: kind detection from tags, hints, option tokens, ids, explanations and per-kind answers;
* the cloze bookkeeping: the deletion scanner, the largest index, the review marker, placeholder rewriting and per-card selection;
* grading a response;
* the character diff shown for a wrong exact answer.

Module layout:

| module | file | what it models |
|---|---|---|
| `Wrappers`, `JsText` | js_text.dfy | the string built-ins the scripts rely on: `trim` (JavaScript's white-space set), `toLowerCase` (ASCII letters), `split`/`join`, `.filter(Boolean)`, `includes`, `${n}` against `parseInt` |
| `JsValue`, `MapFill` | js_value.dfy | the response value (`null`, string, string array, string object), property access, `Object.keys(..).length`, truthiness, and the "later assignment wins" object fill that several `forEach` loops perform |
| `FieldGrammar` | field_grammar.dfy | the id token `^([a-zA-Z0-9_.-]+)[.)]\s*(.+)` as a hand-written scanner, `parseOpt`, `parseIdAndText`, `cleanId` |
| `QuizKind` | quiz_kind.dfy | the eight kinds, the two tag tables, first/last type tag |
| `BasicFront` | basic_front.dfy | `parseFields` of the basic scripts, `shuffleArray`, the index wrap of `updateFocus` |
| `BasicBack` | basic_back.dfy | `arraysEqualUnordered`, `arraysEqualOrdered`, `evaluateAnswer` of the basic back |
| `TextDiff` | text_diff.dfy | `getDiffParts` of both back scripts: the LCS table on an `array2` and the walk back |
| `ClozeScan` | cloze_scan.dfy | the deletion regex `\{\{c(\d+)::([\s\S]*?)(::([\s\S]*?))?\}\}` as a scanner, `maxClozeNum`, `hasReviewCloze`, `isReviewAllCard`, per-card selection |
| `ClozeFront` | cloze_front.dfy | tag detection, `quizTypeForCard`, `processFieldForCloze`, the per-kind derivations and the answer arrays the event handlers update |
| `ClozeBack` | cloze_back.dfy | `parseFields` of the cloze back: tags, `revealCloze`, explanations, per-kind correct answers, the matching map |
| `ClozeGrade` | cloze_grade.dfy | `evaluateAnswer` of the cloze back and its `arraysEqualOrdered` |

Basic `parseFields` exists twice: at `src/js/basic/front.js:1066-1224`, and as a statement-for-statement copy at `src/js/basic/back.js:447-507`. `BasicFront` models it once, and both copies are cited. The two copies differ only in layout, so one definition is the result of both.

Where the two cloze scripts disagree, the model keeps both behaviours. `ClozeBack.TagsDivergence` states the tag divergence, and `ClozeGrade.OrderedVariantsDiffer` states the ordered-comparison divergence.

The inputs are parameters:

* the card fields;
* the card ordinal, which the scripts obtain from the host;
* the response;
* the random index of the shuffle, a nondeterministic choice.

JavaScript `TypeError`s that the scripts can raise are modelled as explicit outcomes: `None` for a question that cannot be built, `Thrown` for a verdict. Four are captured: `.id` of `null`, `.map` of a string, `.map` of an object (a multiple-choice answer that is a JSON object), and `.trim` of an object.

## Model

| member | source | states |
|---|---|---|
| `FieldGrammar.LastIdDelimMeans` | src/js/basic/front.js:1127 | the backwards search finds the largest position whose prefix is id characters followed by `.` or `)`, and finds none exactly when no such position exists |
| `FieldGrammar.HasIdPrefixMeans` | src/js/basic/front.js:1148 | the gate regex `^[a-zA-Z0-9_.-]+[.)]` holds exactly when some non-empty id prefix is followed by a delimiter |
| `FieldGrammar.MatchIdToken` | src/js/basic/front.js:1127 | a successful match has a non-empty text group and leaves room for the id and the delimiter |
| `FieldGrammar.MatchIdTokenMeans` | src/js/basic/front.js:1127 | the match fails exactly when no split point leaves text after the delimiter; otherwise the id group is the longest such prefix (backtracking semantics), and the text group is a suffix of the input |
| `FieldGrammar.MatchedGroupsShape` | src/js/basic/front.js:1129 | on a trimmed input the id group needs no trimming and the text group stays non-blank after trimming |
| `FieldGrammar.IdGroupTrimmed` | src/js/basic/front.js:1129 | the id group is its own trim |
| `FieldGrammar.RestGroupSolid` | src/js/basic/front.js:1129 | the text group of a trimmed input is non-blank after trimming |
| `FieldGrammar.SplitIdTextShape` | src/js/cloze/back.js:1115-1125 | `parseIdAndText` returns null exactly for blank input; a result has non-empty id and text; without a match, both are the trimmed input; with a match, the id is the longest valid prefix |
| `FieldGrammar.ParseOptShape` | src/js/basic/front.js:1124-1130 | `parseOpt` returns null exactly for blank input; otherwise `id == value` always, and id and text are non-empty |
| `FieldGrammar.ParseOptDecimalExample` | src/js/basic/front.js:1124-1130 | `"1.5 kg"` parses to id `"1"`, text `"5 kg"` |
| `FieldGrammar.ParseOptSelfIdExample` | src/js/basic/front.js:1129 | a piece without an id token is its own id, text and value |
| `FieldGrammar.CleanId` | src/js/basic/front.js:1133 | the result is the trimmed input, or the trimmed input without its last character; it is shorter exactly when the trimmed input ends in `.` or `)` |
| `FieldGrammar.CleanIdNotIdempotent` | src/js/basic/front.js:1133 | `cleanId("a..")` is `"a."`, and cleaning again gives `"a"` |
| `QuizKind.ClozeTable` | src/js/cloze/front.js:42 | every cloze code means what it means in the basic table, and none means true/false |
| `QuizKind.TableCodes` | src/js/basic/front.js:1071-1080 | the basic table knows exactly `sc mc tf ae r o f b`; the cloze table knows the same codes without `tf` |
| `QuizKind.FirstTypeTag` | src/js/basic/front.js:1089-1097 | the index found is a type tag and no earlier tag is one; no index means no tag is a type tag |
| `QuizKind.LastTypeTag` | src/js/cloze/back.js:993-1007 | the index found is a type tag and no later tag is one; no index means no tag is a type tag |
| `QuizKind.NonTypeTags` | src/js/cloze/back.js:993-1005 | exactly the tags that the table does not know are kept |
| `BasicFront.ParseTags` | src/js/basic/front.js:1085-1102 | the tag loop yields the kind of the first type tag (`basic` when none) and every other tag with `_` shown as a space |
| `BasicFront.ThematicTagsSnoc` | src/js/basic/front.js:1092-1096 | one more tag becomes thematic unless it is the first type tag |
| `BasicFront.FirstTypeTagSnoc` | src/js/basic/front.js:1092 | once a type tag is found, later tags do not change it |
| `BasicFront.TagsFirstWinsExample` | src/js/basic/front.js:1089-1097 | for tags `mc sc a_b` the kind is multiple choice, and `sc` stays a thematic tag next to `a b` |
| `BasicFront.ThematicTagsCount` | src/js/basic/front.js:1089-1102 | exactly one tag is dropped when a type tag exists and none otherwise; then the kind is `basic`; every other tag appears, with `_` shown as a space |
| `BasicFront.SplitBrNoTag` | src/js/basic/front.js:1117 | a text without `<br>` splits into itself |
| `BasicFront.HintOf` | src/js/basic/front.js:1114-1120 | a piece gives no hint exactly when it is blank |
| `BasicFront.HintsCount` | src/js/basic/front.js:1113-1121 | one hint per non-blank piece between the pipe separators |
| `BasicFront.HintWithoutBr` | src/js/basic/front.js:1117-1120 | a hint without `<br>` is its trimmed text as title and has no content |
| `BasicFront.ParseExplanation` | src/js/basic/front.js:1141-1172 | the loop with the `allPartsHadValidIds` flag and `break` computes `ExplanationOf` |
| `BasicFront.ExplanationCases` | src/js/basic/front.js:1141-1172 | an empty field gives no explanation; a non-empty field gives per-option explanations exactly when the gate holds and every segment is valid; otherwise the whole field, `\n` turned into `<br>`, is the general explanation |
| `BasicFront.GeneralExplanationExample` | src/js/basic/front.js:1148-1168 | a field without an id token is a general explanation |
| `BasicFront.OptsOf` | src/js/basic/front.js:1177 | `map(parseOpt).filter(Boolean)` never adds options |
| `BasicFront.OptsOfShape` | src/js/basic/front.js:1177 | every parsed option has non-empty id and text and its value is its id |
| `BasicFront.SidesMembers` | src/js/basic/front.js:1197-1200 | right items are exactly the options with all-digit ids, left items exactly those whose non-digit id starts with a letter, and no option is on both sides |
| `BasicFront.PartitionMatching` | src/js/basic/front.js:1194-1200 | the `forEach` with two `push`es yields the two filtered lists in option order |
| `BasicFront.ParsePairs` | src/js/basic/front.js:1201-1206 | the `forEach` over `;`/`,` segments fills the map as the later-wins fill of the pair entries |
| `BasicFront.CleanIdsOfMembers` | src/js/basic/front.js:1187 | the list holds exactly the non-empty cleaned pieces |
| `BasicFront.TrueFalseAnswer` | src/js/basic/front.js:1183 | the correct answer is `'true'` exactly when the trimmed lowercased field is `true`, else `'false'` |
| `BasicFront.TrueFalseBody` | src/js/basic/front.js:1180-1184 | a true/false question has the two fixed options and that answer |
| `BasicFront.ParseFields` | src/js/basic/front.js:1066-1224 | the field-by-field construction of `q` equals `QuestionOf`; the same statements appear at src/js/basic/back.js:447-507 |
| `BasicFront.Shuffle` | src/js/basic/front.js:163-171 | with any choice of `j` in `0..i` the result is a permutation of the argument and the argument is not modified |
| `BasicFront.WrapFocus` | src/js/basic/front.js:1628-1629 | an empty zone has focus -1; otherwise the result is in range: below 0 wraps to the last item, past the end wraps to the first, and an index in range is kept |
| `BasicBack.StrLeTotal` | src/js/basic/back.js:105 | the string order that `sort()` uses is total |
| `BasicBack.StrLeAntisymmetric` | src/js/basic/back.js:105 | the order is antisymmetric |
| `BasicBack.StrLeTransitive` | src/js/basic/back.js:105 | the order is transitive |
| `BasicBack.Insert` | src/js/basic/back.js:105 | insertion adds exactly one element |
| `BasicBack.InsertSorted` | src/js/basic/back.js:105 | insertion keeps a sequence sorted |
| `BasicBack.Sort` | src/js/basic/back.js:105 | the sorted copy is a permutation |
| `BasicBack.SortSorted` | src/js/basic/back.js:105 | the sorted copy is sorted |
| `BasicBack.SortedUnique` | src/js/basic/back.js:105 | two sorted permutations of each other are equal, so comparing sorted copies is multiset comparison |
| `BasicBack.ArraysEqualUnorderedMeans` | src/js/basic/back.js:105 | `arraysEqualUnordered(a, b)` holds exactly when `a` is indexable and has the same multiset as `b`; a missing or object `a` is always unequal |
| `BasicBack.ArraysEqualUnorderedPermutation` | src/js/basic/back.js:105 | permuting the response does not change the verdict |
| `BasicBack.ArraysEqualOrdered` | src/js/basic/back.js:107 | the index loop returns true exactly when lengths match and `a[i] === b[i]` everywhere (no trimming, case-sensitive) |
| `BasicBack.OrderedEqualMeans` | src/js/basic/back.js:107 | position-by-position equality is the predicate the loop computes |
| `BasicBack.CorrectMatchesAll` | src/js/basic/back.js:580-581 | every left item is counted exactly when every pair is correct |
| `BasicBack.CountCorrectMatches` | src/js/basic/back.js:577-580 | the counting loop computes `CorrectMatches` |
| `BasicBack.EvaluateAnswer` | src/js/basic/back.js:512-591 | the method with the reassigned `answeredIdk` computes `Evaluate` |
| `BasicBack.BasicAndIdk` | src/js/basic/back.js:519-566 | for kind basic, `isCorrect` is null and `answeredIdk` is the caller's flag; otherwise `answeredIdk` forces `isCorrect` false; an explicit idk is always reported |
| `BasicBack.IdkInference` | src/js/basic/back.js:519-558 | for a non-basic kind, the inference fires exactly on a functionally empty answer when an answer is expected |
| `BasicBack.EmptyAnswerText` | src/js/basic/back.js:572 | an empty answer reads as the empty text |
| `BasicBack.ExactEvaluation` | src/js/basic/back.js:538-574 | exact-answer evaluation, spelled out: idk when empty and expected, otherwise the trimmed lowercased comparison |
| `BasicBack.BlankNeverMatches` | src/js/basic/back.js:573 | a blank text never equals a non-blank expected answer |
| `BasicBack.ExactAnswerCorrect` | src/js/basic/back.js:571-574 | exact answer is correct exactly when `trim(lower(userAnswer[0] or ""))` equals `trim(lower(answer))` |
| `BasicBack.MatchingCorrect` | src/js/basic/back.js:575-585 | matching is correct exactly when the response has as many keys as there are left items and every left id maps to its expected value; fewer keys than left items is always incorrect |
| `BasicBack.MultipleChoiceCorrect` | src/js/basic/back.js:570 | multiple choice is correct exactly when the response is a permutation of the correct answers |
| `BasicBack.OrderedKindsCorrect` | src/js/basic/back.js:586-587 | ordering and sentence formation are correct exactly when the response is the expected sequence |
| `BasicBack.ChoiceCorrect` | src/js/basic/back.js:569 | single choice is correct exactly when the answer is truthy and its first element is the correct answer; a null answer gives null |
| `TextDiff.Lcs` | src/js/basic/back.js:596-605 | a table cell never exceeds either prefix length |
| `TextDiff.Back` | src/js/basic/back.js:608-620 | each step of the walk emits `common` only on a case-insensitive match, `removed` a character of the second string, and `added` a character of the first; the `break` branch is unreachable |
| `TextDiff.BackLcs` | src/js/basic/back.js:608-620 | a step lowers the table value by one exactly when it emits `common` |
| `TextDiff.FillTable` | src/js/basic/back.js:596-605 | the nested loops fill every cell with the LCS length of the prefixes |
| `TextDiff.FillRow` | src/js/basic/back.js:598-604 | one turn of the outer loop fills row `i` |
| `TextDiff.WalkBack` | src/js/basic/back.js:606-622 | the backtracking loop with `unshift` returns the walk from the last cell |
| `TextDiff.WalkUnfold` | src/js/basic/back.js:608-620 | the walk from a cell is the walk from the next cell followed by that step's token |
| `TextDiff.GetDiffParts` | src/js/basic/back.js:595-623 | `getDiffParts(str1, str2)` is the walk from the cell of the two full lengths |
| `TextDiff.WalkFirstSide` | src/js/basic/back.js:608-620 | the non-`removed` tokens spell `str1` exactly |
| `TextDiff.WalkSecondSide` | src/js/basic/back.js:608-620 | the non-`added` tokens spell `str2` up to letter case |
| `TextDiff.SecondSideKept` | src/js/basic/back.js:609-614 | a step that is not `added` extends the second side by one character of `str2` |
| `TextDiff.BackSecond` | src/js/basic/back.js:609-614 | a step that is not `added` consumes one character of `str2`, equal up to case |
| `TextDiff.WalkCommonCount` | src/js/basic/back.js:596-620 | the number of `common` tokens is the table value `dp[n][m]` |
| `TextDiff.WalkLength` | src/js/basic/back.js:608-620 | the diff has `n + m - dp[n][m]` tokens and is empty only for two empty strings |
| `TextDiff.WalkSelf` | src/js/basic/back.js:608-611 | walking a text against itself emits only `common` tokens |
| `TextDiff.DiffSelf` | src/js/basic/back.js:595-623 | `getDiffParts(a, a)` is all `common`, one per character |
| `TextDiff.DiffExample` | src/js/basic/back.js:595-623 | `"cat"` against `"cut"` gives common `c`, added `a`, removed `u`, common `t` |
| `TextDiff.ClozeDiffParts` | src/js/cloze/back.js:973 | the cloze variant returns `[]` for strings equal ignoring case (null read as `''`), and the basic decomposition otherwise |
| `TextDiff.ClozeDiffEmpty` | src/js/cloze/back.js:973 | the cloze diff is empty exactly for strings equal ignoring case |
| `ClozeScan.DigitRun` | src/js/cloze/front.js:1304 | the `\d+` group ends at the first non-digit |
| `ClozeScan.StopFrom` | src/js/cloze/front.js:1304 | the lazy content group stops at a `::` or `}}` |
| `ClozeScan.StopFromFirst` | src/js/cloze/front.js:1304 | that stop is the first one |
| `ClozeScan.CloseFrom` | src/js/cloze/front.js:1304 | the lazy placeholder group stops at a `}}` |
| `ClozeScan.CloseFromFirst` | src/js/cloze/front.js:1304 | that `}}` is the first one |
| `ClozeScan.SpanAt` | src/js/cloze/front.js:1304 | a match's landmarks are ordered: digits, `::`, content, closing, all inside the text |
| `ClozeScan.SpanAtFacts` | src/js/cloze/front.js:1304 | a match starts with `{{c`, has maximal digits then `::`, content up to the first stop, and closes at that `}}` or at the first `}}` after a placeholder |
| `ClozeScan.MatchAt` | src/js/cloze/front.js:1304 | a match consumes at least one character |
| `ClozeScan.NextMatch` | src/js/cloze/front.js:1310 | the search returns a position where a match starts |
| `ClozeScan.NextMatchFirst` | src/js/cloze/front.js:1310 | no match starts before that position |
| `ClozeScan.MatchAtClosing` | src/js/cloze/front.js:1304 | the end of a match is the closing text of the deletion read |
| `ClozeScan.MatchAtSource` | src/js/cloze/front.js:1304 | a match is exactly the text its deletion is written as |
| `ClozeScan.MatchAtLazy` | src/js/cloze/front.js:1304 | the digits are a decimal numeral whose value is `parseInt(m[1])`; the content holds no stop and the placeholder no `}}` (laziness) |
| `ClozeScan.ClosingAt` | src/js/cloze/front.js:1304 | the closing text is `}}`, or `::placeholder}}` |
| `ClozeScan.MatchAtWritten` | src/js/cloze/front.js:1304 | a canonical deletion written into a text is read back as itself |
| `ClozeScan.WrittenSpan` | src/js/cloze/front.js:1304 | a written deletion spans exactly the text it was written as |
| `ClozeScan.WrittenLandmarks` | src/js/cloze/front.js:1304 | the scanner finds the written digits, content end and placeholder end |
| `ClozeScan.SpanAtFrom` | src/js/cloze/front.js:1304 | landmarks determine the span |
| `ClozeScan.MatchAtOfSpan` | src/js/cloze/front.js:1304 | the groups of a span give the deletion |
| `ClozeScan.MatchAtFrom` | src/js/cloze/front.js:1304 | the match is read off the span: digits, content and optional placeholder |
| `ClozeScan.ScanFromRoundTrip` | src/js/cloze/front.js:1386 | writing every piece back as it was read rebuilds the text from any position |
| `ClozeScan.RoundTripStep` | src/js/cloze/front.js:1386 | one text piece and one match round-trip |
| `ClozeScan.ScanFromStep` | src/js/cloze/front.js:1386 | the pieces from a position are the text up to the next match, the match, then the rest |
| `ClozeScan.RewriteStep` | src/js/cloze/front.js:1386 | `replace` puts the callback's value where the match was |
| `ClozeScan.ScanRoundTrip` | src/js/cloze/front.js:1386 | a replacement callback returning each match unchanged gives back the field: the scan loses no text |
| `ClozeScan.NoOpenNoDeletion` | src/js/cloze/front.js:1386 | text without `{{c` has no deletion and any callback leaves it unchanged |
| `ClozeScan.NoOpenNoMatch` | src/js/cloze/front.js:1304 | no match starts where `{{c` does not |
| `ClozeScan.NextMatchSame` | src/js/cloze/front.js:1310 | the search skips text without `{{c` |
| `ClozeScan.NextMatchIs` | src/js/cloze/front.js:1310 | the next match is the first `{{c` that starts a match |
| `ClozeScan.NextMatchSkip` | src/js/cloze/front.js:1310 | a position where no match starts is skipped |
| `ClozeScan.NextMatchHere` | src/js/cloze/front.js:1310 | a match starting here is the next match |
| `ClozeScan.DeletionsFromStep` | src/js/cloze/front.js:1310 | `matchAll` lists the next match, then those after it |
| `ClozeScan.SpacedDeletion` | src/js/cloze/front.js:1310 | after spaces the next deletion listed is the match there |
| `ClozeScan.SpacedWritten` | src/js/cloze/front.js:1310 | after spaces a written deletion is the next one listed |
| `ClozeScan.MaxClozeNum` | src/js/cloze/front.js:1312-1314 | the `forEach` with `Math.max` computes `MaxNum` |
| `ClozeScan.MaxNumIsMax` | src/js/cloze/front.js:1312-1314 | `maxClozeNum` bounds every index and is one of them when a deletion exists (0 otherwise) |
| `ClozeScan.FirstWithNum` | src/js/cloze/front.js:1318 | `find` returns a deletion with that index |
| `ClozeScan.FirstIndexUnique` | src/js/cloze/front.js:1318 | the first position holding an index is unique |
| `ClozeScan.FirstWithNumFound` | src/js/cloze/front.js:1318 | when some deletion holds the index, `find` returns the first one in document order |
| `ClozeScan.ReviewClozeMeans` | src/js/cloze/front.js:1318-1326 | the review marker exists exactly when the first deletion with the largest index has blank content |
| `ClozeScan.CardOf` | src/js/cloze/front.js:1328 | a card is review-all exactly when the marker exists and the ordinal is the maximum |
| `ClozeScan.SelectedMembers` | src/js/cloze/back.js:1141-1143 | a card selects exactly the deletions below the maximum on a review-all card, or with its own index otherwise |
| `ClozeScan.Contents` | src/js/cloze/back.js:1169 | `m[2].trim()` of each selected deletion, in order |
| `ClozeScan.ActiveHiddenDisjoint` | src/js/cloze/front.js:1394-1424 | no deletion is both shown and hidden; on a review-all card each deletion is one of the two |
| `ClozeFront.DetectKind` | src/js/cloze/front.js:44-58 | the tag loop with `break` yields the kind of the first known tag, `basic` when none |
| `ClozeFront.FrontTagsExample` | src/js/cloze/front.js:44-58 | for tags `mc sc a_b` the kind is multiple choice and only `a_b` is thematic: the second type tag is dropped |
| `ClozeFront.QuizTypeForCard` | src/js/cloze/front.js:1332-1354 | every branch keeps the detected kind |
| `ClozeFront.PlaceholderText` | src/js/cloze/front.js:1390 | the placeholder shown is never empty (`"..."` by default) |
| `ClozeFront.FrontReplacementCases` | src/js/cloze/front.js:1386-1436 | a deletion the card asks for becomes an active placeholder, the review marker on another card becomes `''`, every other deletion shows its content in overlapper mode or an inactive placeholder |
| `ClozeFront.ProcessFieldPlain` | src/js/cloze/front.js:1380-1386 | text outside deletions is kept: a field without deletions is unchanged (the empty field gives `''`) |
| `ClozeFront.ItemsOfShape` | src/js/cloze/front.js:1584-1598 | every parsed item has non-empty id and text |
| `ClozeFront.LeftItemsForCardMembers` | src/js/cloze/front.js:1622 | a left item is on the card exactly when its text contains the literal `{{c<ordinal>::` |
| `ClozeFront.MarkerExample` | src/js/cloze/front.js:1622 | `{{c10::x}}` is not selected by card 1 and is by card 10 |
| `ClozeFront.CollectMatching` | src/js/cloze/front.js:1916-1926 | the change handler rebuilds the answer object from the rows with a chosen value |
| `ClozeFront.CollectMatchingMeans` | src/js/cloze/front.js:1916-1926 | a left id is in the answer exactly when some row has it with a non-empty choice, and its value is the last such choice |
| `ClozeFront.WordBank` | src/js/cloze/front.js:1702-1726 | the word bank is a permutation of this card's words and the distractors |
| `ClozeFront.CorrectWordsMeans` | src/js/cloze/front.js:1712-1720 | the card's words are the trimmed contents of exactly the deletions it selects, in document order |
| `ClozeFront.FillOptionIdMap` | src/js/cloze/front.js:1740-1742 | the `forEach` fills `optionIdMap` with lowercased text to id |
| `ClozeFront.MappedIdMeans` | src/js/cloze/front.js:1742-1746 | an item's text maps to the id of the last option with that text ignoring case, and falls back to the text itself |
| `ClozeFront.OrderItemsOfMeans` | src/js/cloze/front.js:1752-1756 | each item to order is the trimmed content with its mapped id, in document order |
| `ClozeFront.ExactInputsFor` | src/js/cloze/front.js:1666-1694 | a review-all card gets M-1 inputs; another card gets several inputs exactly when more than one deletion has its index, one per deletion |
| `ClozeFront.InitialExactAnswer` | src/js/cloze/front.js:2124-2150 | with several inputs the answer starts as that many `''`, otherwise as `[]` |
| `ClozeFront.MultiInputAnswer.constructor` | src/js/cloze/front.js:2130 | `new Array(n).fill('')` |
| `ClozeFront.MultiInputAnswer.Type` | src/js/cloze/front.js:2136-2138 | typing in input `idx` changes that element and nothing else |
| `ClozeFront.WithoutMembers` | src/js/cloze/front.js:2088 | unchecking removes every copy of the value and keeps everything else |
| `ClozeFront.WithoutPush` | src/js/cloze/front.js:2084-2088 | checking then unchecking a value leaves no copy of it |
| `ClozeFront.AnswerList.constructor` | src/js/cloze/front.js:2074 | the answer list starts empty |
| `ClozeFront.AnswerList.Push` | src/js/cloze/front.js:2084 | choosing a word or checking a box appends it |
| `ClozeFront.AnswerList.Uncheck` | src/js/cloze/front.js:2088 | unchecking replaces the list by its filtered copy |
| `ClozeFront.AnswerList.RemoveAt` | src/js/cloze/front.js:1980 | `splice(index, 1)` removes exactly that element |
| `ClozeBack.ParseTags` | src/js/cloze/back.js:991-1007 | the `filter` that overwrites the kind yields the last type tag's kind and the non-type tags with `_` shown as a space |
| `ClozeBack.NonTypeTagsSnoc` | src/js/cloze/back.js:993-1005 | one more tag is kept exactly when the table does not know it |
| `ClozeBack.TagsDivergence` | src/js/cloze/back.js:993-1007 | for tags `mc sc` the front's kind is multiple choice and the back's is single choice |
| `ClozeBack.FrontBackAgree` | src/js/cloze/back.js:1091-1113 | `revealCloze` hides what the front hides, shows `<span class="cloze">content</span>` where the front shows an active placeholder, and agrees with the front on every other deletion |
| `ClozeBack.RewriteContains` | src/js/cloze/back.js:1095 | a replacement holding a text puts that text in the result |
| `ClozeBack.RevealShowsSpan` | src/js/cloze/back.js:1091-1113 | a text with a deletion the card asks for shows a revealed span |
| `ClozeBack.ExampleCardAnswers` | src/js/cloze/back.js:1039-1143 | `{{c1::Paris}} {{c2::France}} {{c3::}}` gives `["Paris","France"]` on card 3 and `["Paris"]` on card 1 |
| `ClozeBack.ThreeDeletions` | src/js/cloze/back.js:1137 | three written deletions one space apart are read back in order |
| `ClozeBack.ExampleReviewMarker` | src/js/cloze/back.js:1041-1047 | in the example, 3 is the largest index and its deletion is the marker |
| `ClozeBack.ExampleSelected` | src/js/cloze/back.js:1141-1143 | the example's review card selects Paris and France; card 1 selects Paris |
| `ClozeBack.ExampleCards` | src/js/cloze/back.js:1141-1143 | the example's cards, taken from the scanned deletions |
| `ClozeBack.FillExplanations` | src/js/cloze/back.js:1147-1153 | the `forEach` fills `q.explanations` as the later-wins fill of the segment entries |
| `ClozeBack.GeneralExplanation` | src/js/cloze/back.js:1155-1159 | a general explanation exists exactly when no segment set an entry and the field is not blank |
| `ClozeBack.ExplanationsKeepEvery` | src/js/cloze/back.js:1147-1153 | an id has an explanation exactly when some segment names it, and it is the last such segment's text: valid segments are kept even when others fail |
| `ClozeBack.ChoiceIdsMembers` | src/js/cloze/back.js:1175 | the correct answers are the ids of exactly the options whose text or id names a selected deletion |
| `ClozeBack.ChoiceAnswersMeans` | src/js/cloze/back.js:1165-1176 | building a choice question fails exactly when a selected content is blank (`parseIdAndText` gives null); otherwise the answers are the ids of options whose lowercased text or id matches a selected content or its parsed id |
| `ClozeBack.MapIds` | src/js/cloze/back.js:1187 | each correct answer is the mapped id of the content at the same position |
| `ClozeBack.OrderingAgrees` | src/js/cloze/back.js:1177-1188 | the back's ordering answers are the ids the front gives the items to order, position by position |
| `ClozeBack.FindRight` | src/js/cloze/back.js:1211 | the right item found has that trimmed text ignoring case |
| `ClozeBack.FillMatchingMap` | src/js/cloze/back.js:1203-1217 | the `forEach` fills `correctAnswersMap` as the later-wins fill of the left items' entries |
| `ClozeBack.MatchingMapMeans` | src/js/cloze/back.js:1203-1217 | each key is the id of a left item with a first deletion, mapped to a right item whose trimmed text equals that deletion's trimmed content ignoring case |
| `ClozeBack.RevealLeftTexts` | src/js/cloze/back.js:1219 | the in-place loop replaces each left item's text by its revealed text |
| `ClozeBack.RevealItems` | src/js/cloze/back.js:1219 | each item's text is revealed, in order |
| `ClozeBack.ParseShared` | src/js/cloze/back.js:985-1159 | the statements every kind runs yield this card and the shared fields of `q` |
| `ClozeBack.ParseKind` | src/js/cloze/back.js:1163-1225 | the branch on the kind yields `KindQuestion` |
| `ClozeBack.ParseMatching` | src/js/cloze/back.js:1193-1219 | a matching question has the plain question text, revealed left items, the right items and the matching map |
| `ClozeBack.ParseFields` | src/js/cloze/back.js:981-1229 | `parseFields()` equals `ClozeQuestionOf`, `None` where it throws |
| `ClozeGrade.OnCardMembers` | src/js/cloze/back.js:1313 | the left items on this card are exactly those whose text contains `<span class="cloze">` |
| `ClozeGrade.MatchingAnswer` | src/js/cloze/back.js:1311 | a missing matching answer is read as the empty object, so the answer is never null |
| `ClozeGrade.CorrectPairsAll` | src/js/cloze/back.js:1317-1329 | every pair is counted exactly when every pair is correct |
| `ClozeGrade.PairsOfMeans` | src/js/cloze/back.js:1317-1327 | `individualResults` has one entry per left id on the card, holding that pair's result |
| `ClozeGrade.NormEqualMeans` | src/js/cloze/back.js:971 | the trimmed, lowercased comparison is equality of the normalised sequences |
| `ClozeGrade.ArraysEqualOrdered` | src/js/cloze/back.js:971 | the index loop returns `OrderedMatch` |
| `ClozeGrade.NormPrefixAll` | src/js/cloze/back.js:971 | the loop finishing means every position agrees |
| `ClozeGrade.NormDiffers` | src/js/cloze/back.js:971 | one differing position makes the arrays unequal |
| `ClozeGrade.OrderedVariantsDiffer` | src/js/cloze/back.js:971 | `[" Paris"]` against `["paris"]` is equal for the cloze comparer and unequal for the basic one |
| `ClozeGrade.ExactLoop` | src/js/cloze/back.js:1339-1345 | the `map` over the correct answers computes `ExactResults` |
| `ClozeGrade.SetsAgreeMeans` | src/js/cloze/back.js:1357 | equal size and inclusion is set equality |
| `ClozeGrade.UserResponse.constructor` | src/js/cloze/back.js:1235 | the response object holds the answer and the idk flag |
| `ClozeGrade.CountPairs` | src/js/cloze/back.js:1317-1327 | the counting loop computes `CorrectPairs` |
| `ClozeGrade.CollectPairs` | src/js/cloze/back.js:1317-1327 | the same loop fills `individualResults` |
| `ClozeGrade.EvaluateAnswer` | src/js/cloze/back.js:1235-1371 | the caller's `idk` becomes true exactly when inferred (the answer is untouched), and the result is `Evaluate` on the original response |
| `ClozeGrade.SkippedMeans` | src/js/cloze/back.js:1301-1315 | the skipped idk verdict occurs exactly when idk is set after inference; a correct skipped verdict occurs exactly for matching with no left item on the card |
| `ClozeGrade.IdkInference` | src/js/cloze/back.js:1241-1293 | idk is inferred exactly for a non-basic kind with an empty answer and an expected answer; with no declared idk, kind basic is always correct, and with idk declared (as for a card with no stored response) it is skipped and not correct |
| `ClozeGrade.MatchingMeans` | src/js/cloze/back.js:1309-1333 | with left items on the card, matching is correct exactly when the key count equals their number and every pair is correct; fewer keys is always incorrect |
| `ClozeGrade.OrderedMeans` | src/js/cloze/back.js:1335 | ordering and sentence are correct exactly when the normalised response equals the normalised answers (a missing response counts as `[]`) |
| `ClozeGrade.ExactMeans` | src/js/cloze/back.js:1337-1349 | an object answer throws exactly when there is something to compare; no correct answers give true; otherwise correct exactly when every aligned input matches after normalising |
| `ClozeGrade.ExtraInputsIgnored` | src/js/cloze/back.js:1341 | inputs beyond the correct answers do not change the verdict |
| `ClozeGrade.MultipleChoiceMeans` | src/js/cloze/back.js:1351-1361 | a non-empty string or an object answer throws; a list is correct exactly when its trimmed set equals the trimmed correct set |
| `ClozeGrade.RepeatedChoice` | src/js/cloze/back.js:1353-1357 | a repeated choice collapses into one |
| `ClozeGrade.SingleChoiceMeans` | src/js/cloze/back.js:1363 | single choice is correct exactly when the answer is the string `correctAnswers[0]` |

## Left out

- Media players, HTML rendering, CSS classes, timers, `sessionStorage`, cursor hiding and the `MutationObserver` bootstrap: these are DOM effects and presentation. The model computes the values they display.
- Host bridge and `getCardNumber`: the card ordinal is a parameter.
- Keyboard navigation and drag-and-drop: only the index wrap of `updateFocus` is modelled (`BasicFront.WrapFocus`). The ordering answer the drag-and-drop handlers build is read from the DOM order and is not modelled.
- `Math.random`: the shuffle draws an arbitrary `j` in `0..i` instead of a random one.
- `build.py` is not part of this model. It is file I/O and a call to npm.
- The field reads (`innerHTML` of elements): the fields are parameters. An absent field is `""`.
- Strings are sequences of Unicode scalar values, whereas JavaScript uses UTF-16 code units. Lowercasing covers ASCII letters only.
- Properties inherited through the prototype are not modelled: `constructor` or `length` on an object answer, and the tag-table lookups `knownQuizTypes[normalizedTag]` (src/js/basic/front.js:1092, src/js/cloze/front.js:50, src/js/cloze/front.js:1570, src/js/cloze/back.js:997), where a tag such as `constructor` is truthy in the scripts and becomes the kind, while the model keeps it as a thematic tag. Neither is `parseInt` precision for very long digit runs.
- `[undefined]` as an empty answer is not modelled: an answer array holds strings only.
- `ClozeGrade.OnCardMembers`: the evaluator recognises a left item as on the card by the text `<span class="cloze">`. `ClozeBack.RevealShowsSpan` proves that direction: an item with a deletion of this card shows the span. The converse is not proved, because an option text may contain that literal markup itself.
- `ClozeBack.RevealLeftTexts` updates an array in place. The question value `ClozeBack.ParseFields` returns uses the value-level `ClozeBack.RevealItems`, which the method's contract matches element by element.
- `BasicFront.Shuffle` promises a permutation and an unchanged argument. It does not describe the distribution of the result.
- `ClozeFront.MappedIdMeans` assumes non-empty item ids, as `parseIdAndText` always produces (`ClozeFront.ItemsOfShape`). An empty id would be falsy in `optionIdMap.get(..) || text`.
- The cloze front's single-choice handler (`userAnswer = e.target.value`) and single exact input (`userAnswer = [value]`) are plain assignments. They appear only as the answer values the evaluator receives.
