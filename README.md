# Dialogue explorer: strategy labels, search and navigation

This project models the page script `Demo/js/app.js` of the dialogue explorer. The script loads a collection of
dialogue records for one of two tasks (image or story). It offers the strategy labels found in the records as
checkboxes and the personality traits as high/low buttons. It filters the collection by the selected traits and
strategies, and steps through the whole collection or through the search results.

The model has eight modules:

- `Wrappers` holds the `Option` type that stands for an absent property, a `NaN` input and a thrown search.
- `Text` covers the string operations the script relies on. These are JavaScript's `\s` class, `split` with the
  two regular expressions the page uses, `trim`, and the word capitalisation of `capitalizeStrategy`.
- `Labels` turns a record's `record[i].strategy` annotations into labels. `Dataset` collects the labels of a
  whole collection into the checkbox vocabulary.
- `Search` holds the search predicate and the stable filter of `searchDialogues`.
- `Navigation` holds the page state as a `Session` value and one function per event handler. Its lemmas state what
  each handler promises: the state invariant, steps of exactly one, the mode kept, the round trips, and the error
  paths.
- `App` holds the class `Explorer`. Its fields are the script's variables and the page controls it writes, and it
  has one method per handler. Each method updates the fields in place and is proved to produce exactly the
  `Navigation` function's result.
- `Scenarios` works through annotation texts of given shapes, such as a two-word phrase joined to a word by `and`.

The loops of the source are loops with invariants: the label loops in `Labels.CollectLabels`, the vocabulary loop
in `Dataset.CollectVocabulary`, the trait loop of the search in `Search.TraitsAgree`, and the filter and the trait
selection of `showDialogue` in `App.FilterRecords` and `App.SelectTraits`.

Behaviour of the code worth noting (the model follows the code):

- The `and` separator is case-sensitive and needs white space on both sides (`\s+and\s+`). So `"calm AND kind"` is
  one piece (`Scenarios.NonAndPhraseSplit`).
- `"shows empathy and patience"` yields the labels "Shows Empathy" and "Patience", not "Empathy". So selecting
  "Empathy" does not find such a record (`Scenarios.PhraseAndWordLabels`, `Scenarios.PhraseWordAloneNotFound`).
- Reset does not leave the trait selection empty. `resetFilters` calls `showRandomDialogue`, and `showDialogue`
  then selects the shown record's traits (`Navigation.ResetSpec`).
- A search that finds something replaces the selected traits by those of its first match. A second search then
  filters on all of that record's traits that have a button (`Navigation.SearchSpec`).
- A task switch keeps `currentDialogIndex` and the Previous/Next button states. Only the collection, the label
  list, the selections (with the trait buttons' highlight) and the filtered list are cleared
  (`Navigation.SwitchTaskSpec`, `Navigation.PreviousAfterSwitch`).
- A search with traits selected throws a `TypeError` as soon as any record lacks `personality`. The state is then
  left as it was (`Navigation.SearchSpec`).
- After a search that finds nothing, both buttons are disabled and the position is -1. Next, if invoked anyway,
  starts over at the first record of the whole collection (`Navigation.NoMatchThenStep`).

## Model

| member | source | states |
|---|---|---|
| Text.IsSpace | Demo/js/app.js:151 | JavaScript's `\s`: the white space of the strategy separator here, the class behind `/\s+/` at app.js:115, and what `trim` removes at app.js:153-154: the WhiteSpace and LineTerminator code points of ECMA-262 (its "White Space" and "Line Terminators" sections). The results that rest on it are stated by `Text.SplitWordsShape`, `Text.Trim` and `Text.TrimRemovesOnlyEnds` |
| Text.IsLowerLetter | Demo/js/app.js:116 | the lower-case letters `a`-`z`, the only characters `toUpperCase` changes in this model |
| Text.IsUpperLetter | Demo/js/app.js:116 | the upper-case letters `A`-`Z`, the only characters `toLowerCase` changes in this model |
| Text.ToUpper | Demo/js/app.js:116 | `toUpperCase` of one character leaves no lower-case letter, changes only lower-case letters, keeps white space, and gives the same character as the input up to case |
| Text.ToLower | Demo/js/app.js:116 | `toLowerCase` of one character leaves no upper-case letter, changes only upper-case letters and keeps white space. Which letter it gives is stated by `Text.CaseInverse` |
| Text.CaseInverse | Demo/js/app.js:116 | lower- and upper-casing undo each other on the letters: an upper-case letter lower-cases to a lower-case letter that upper-cases back to it, and a lower-case letter upper-cases to an upper-case letter that lower-cases back to it |
| Text.LowerAll | Demo/js/app.js:116 | `toLowerCase` of a string (`word.slice(1).toLowerCase()`): the same length, each character passed through `Text.ToLower`. Used by the contract of `Text.Capitalize` and by `Search.IsHigh` |
| Text.SpaceRun | Demo/js/app.js:151 | the greedy `\s*`: the length of the longest run of white space at the start of a text, with every character in it white space and the next one, if any, not |
| Text.MatchLen | Demo/js/app.js:151 | the length of the match anchored at the start of a text, 0 for none, of the strategy separator (a comma with the white space after it, a semicolon with white space around it, or `and` between white space) or of `/\s+/`; a match never runs past the text. What a match cuts is stated by `Text.SplitAtFirstSeparator` and `Text.SplitSeparatorFree` |
| Text.SplitScan | Demo/js/app.js:151 | the loop of `split` from a position: the text before the leftmost match is cut off as a piece and the scan restarts after the match; at the end the rest is the last piece. Never fewer than one piece |
| Text.Split | Demo/js/app.js:151 | `split` with a regular expression that never matches the empty string returns at least one piece |
| Text.SplitSeparatorFree | Demo/js/app.js:151 | no piece returned by `split` contains a match of the separator |
| Text.SplitWithoutSeparator | Demo/js/app.js:151 | a text with no match of the separator splits into itself alone |
| Text.SplitAtFirstSeparator | Demo/js/app.js:151 | the text before the leftmost match is the first piece, and splitting continues after the match |
| Text.SplitWordsShape | Demo/js/app.js:115 | splitting on `/\s+/` gives space-free pieces, empty only at an end that starts or ends with white space |
| Text.TrimStart | Demo/js/app.js:153 | the first half of `trim`: a suffix of the input, everything dropped is white space, and it does not start with white space |
| Text.TrimEnd | Demo/js/app.js:153 | the second half of `trim`: a prefix of the input, everything dropped is white space, and it does not end with white space |
| Text.Trim | Demo/js/app.js:153-154 | `trim` leaves no white space at either end and leaves an already trimmed text unchanged |
| Text.TrimRemovesOnlyEnds | Demo/js/app.js:153-154 | the result of `trim` is the input with a run of white space removed at each end and nothing else |
| Text.Capitalize | Demo/js/app.js:116 | a capitalised word keeps its length and its spaces, starts without a lower-case letter, continues without upper-case letters, is unchanged exactly when it was already capitalised, and has at each position the input's character up to case |
| Text.CapitalizeAll | Demo/js/app.js:115-117 | the `map` step of `capitalizeStrategy`: as many words as given, each passed through `Text.Capitalize`. Characterised by `Text.NormalizeWords` |
| Text.Join | Demo/js/app.js:117 | `join(' ')`: the words with one space between each two. Splitting on `/\s+/` undoes it, as `Text.SplitJoin` states |
| Text.SplitJoin | Demo/js/app.js:115-117 | joining non-empty space-free words with one space and splitting on white space gives the words back |
| Text.NormalizeWords | Demo/js/app.js:114-118 | the words of `capitalizeStrategy(s)` are the capitalised words of `s` |
| Text.Normalize | Demo/js/app.js:114-118 | `capitalizeStrategy`: split on white space, capitalise each word, join with one space. Its properties are stated by `Text.NormalizeWords`, `Text.NormalizeIdempotent` and `Text.NormalizeTrimmed` |
| Text.NormalizeIdempotent | Demo/js/app.js:114-118 | `capitalizeStrategy` applied twice equals applying it once |
| Text.NormalizeTrimmed | Demo/js/app.js:114-118 | `capitalizeStrategy` of a trimmed non-empty text is trimmed and non-empty |
| Labels.PieceLabel | Demo/js/app.js:153-155 | the label of one piece: nothing when `s.trim()` is empty, else `capitalizeStrategy(s.trim())`. Stated by `Labels.PieceLabelsExact` and `Labels.PieceLabelCanonical` |
| Labels.UnionOver | Demo/js/app.js:152-156 | a `forEach` adding into one `Set`: the union of the per-element sets. A label is in it exactly when some element yields it (the lemma `Labels.UnionOverExact`, used by `Labels.PieceLabelsExact`, `Labels.RecordLabelsExact` and `Dataset.VocabularyExact`) |
| Labels.UnionOverExact | Demo/js/app.js:152-156 | a label is in the union of a `forEach` into one `Set` exactly when some element yields it |
| Labels.PieceLabels | Demo/js/app.js:152-156 | the labels of the pieces of one annotation: the union of their piece labels. Stated by `Labels.PieceLabelsExact` |
| Labels.TextLabels | Demo/js/app.js:151-156 | the labels of one annotation text: its pieces, trimmed, empty ones dropped, passed through `capitalizeStrategy`. Characterised by `Labels.PieceLabelsExact` and `Labels.TextLabelsCanonical` |
| Labels.AnnotationLabels | Demo/js/app.js:150 | `if (record.strategy)`: an absent or empty `strategy` adds nothing, any other adds the labels of its text. Used by `Labels.RecordLabelsExact` |
| Labels.RecordLabels | Demo/js/app.js:149-158 | the labels of a record's `record` array: the union over its annotations, an absent or empty `strategy` adding nothing. Characterised by `Labels.RecordLabelsExact` and computed by `Labels.CollectLabels` |
| Labels.IsCanonicalLabel | Demo/js/app.js:154 | the form of what `allStrategies.add(capitalizeStrategy(s.trim()))` adds: non-empty, trimmed and unchanged by `capitalizeStrategy`. Stated of every label by `Labels.PieceLabelCanonical`, `Labels.RecordLabelsCanonical` and `Dataset.VocabularyCanonical` |
| Labels.CollectLabels | Demo/js/app.js:149-158 | the label loop adds to the set it is given exactly the labels of the annotations |
| Labels.PieceLabelsExact | Demo/js/app.js:152-156 | a label comes from a list of pieces exactly when some piece trims to a non-empty text that capitalises to it |
| Labels.RecordLabelsExact | Demo/js/app.js:149-158 | a record's labels are the union of its annotations' labels |
| Labels.PieceLabelCanonical | Demo/js/app.js:153-154 | every label of a piece is non-empty, trimmed and unchanged by `capitalizeStrategy` |
| Labels.TextLabelsCanonical | Demo/js/app.js:151-156 | every label of an annotation text is non-empty, trimmed and unchanged by `capitalizeStrategy` |
| Labels.RecordLabelsCanonical | Demo/js/app.js:149-158 | every label of a record is non-empty, trimmed and unchanged by `capitalizeStrategy` |
| Labels.CanonicalLabelRoundTrip | Demo/js/app.js:149-158 | a label written back as a whole annotation, free of separators, is extracted as exactly itself |
| Dataset.ItemLabels | Demo/js/app.js:148-149 | `if (item.record && Array.isArray(item.record))`: a record without a `record` array adds nothing, any other adds the labels of its annotations. Used by `Dataset.VocabularyExact` |
| Dataset.Vocabulary | Demo/js/app.js:146-160 | the labels offered as checkboxes: the union over all records. Computed by `Dataset.CollectVocabulary` and characterised by `Dataset.VocabularyExact` and `Dataset.VocabularyCanonical` |
| Dataset.CollectVocabulary | Demo/js/app.js:146-160 | the `allStrategies` loop computes the union of the labels of all records |
| Dataset.VocabularyExact | Demo/js/app.js:146-160 | a label is offered exactly when some record yields it |
| Dataset.VocabularyCanonical | Demo/js/app.js:146-162 | every offered label is non-empty, trimmed and unchanged by `capitalizeStrategy` |
| Search.IsHigh | Demo/js/app.js:213 | `value.toLowerCase() === 'high'`. That `high`/`low` read back as the truth values that wrote them is stated by `Navigation.LevelReadsBack` |
| Search.TraitAgrees | Demo/js/app.js:212-218 | one selected trait agrees when the record's personality has it with the value read as `high`; a missing trait is `undefined` and disagrees. Used by `Search.TraitsAgree` |
| Search.TraitsMatch | Demo/js/app.js:210-219 | `matchesTraits`: every selected trait agrees, and with none selected the personality is never read. Computed by the loop `Search.TraitsAgree` |
| Search.StrategiesMatch | Demo/js/app.js:221-242 | `matchesStrategies`: with strategies selected, the record has a `record` array and its labels include every selected one. Characterised through `Labels.RecordLabelsExact`, and shown in use by `Scenarios.PhraseWordAloneNotFound` |
| Search.Matches | Demo/js/app.js:209-243 | a record is kept when every selected trait equals its personality value read as `high`, and, with strategies selected, it has a `record` array whose labels include all of them. Used by `Search.FilterExact` and `Search.TraitsAgree` |
| Search.SearchThrows | Demo/js/app.js:211-212 | the filter throws exactly when a trait is selected and some record has no `personality`. It is exactly when `App.FilterRecords` returns no result |
| Search.Positions | Demo/js/app.js:209 | `filter` as the positions of the kept elements. Stated by `Search.PositionsExact` (exactly the passing positions, in order, each once) and `Search.PositionsFirst` |
| Search.PositionsExact | Demo/js/app.js:209 | `filter` keeps exactly the elements that pass: its positions are in range, strictly increasing, and include a position exactly when the element there passes |
| Search.PositionsFirst | Demo/js/app.js:209 | the first kept position is the first element that passes |
| Search.Filter | Demo/js/app.js:209-245 | `dialogueData.filter` as the positions of the kept records. Characterised by `Search.FilterExact` and `Search.FilterFirst`, computed by `App.FilterRecords` |
| Search.TraitsAgree | Demo/js/app.js:210-219 | the trait loop with its early `break` accepts exactly when every selected trait equals the record's value read as `high` |
| Search.FilterExact | Demo/js/app.js:209-245 | the filter keeps exactly the matching records, in collection order, each once |
| Search.FilterFirst | Demo/js/app.js:260-265 | the first search result is the first matching record of the collection |
| Search.FilterUnconstrained | Demo/js/app.js:209-245 | with no trait and no strategy selected every record is kept |
| Search.VocabularyLabelSelects | Demo/js/app.js:221-242 | a label selected alone keeps exactly the records that yield it, and a label is offered exactly when it finds something |
| Navigation.Valid | Demo/js/app.js:28-35 | the consistency the handlers keep among these variables: the filtered list is ordered positions into the collection, the filtered index is in range exactly when the list is non-empty, in filtered mode the absolute index is the current entry's position, selected traits have buttons, and the highlighted buttons are exactly the selected traits. Kept by every `Navigation` handler lemma |
| Navigation.Filtering | Demo/js/app.js:76 | filtered mode, `currentFilteredIndex >= 0 && filteredDialogues.length > 0`, the test every navigation handler makes first (also app.js:286, 439 and 454). Kept or left as stated by `Navigation.ShowSpec`, `Navigation.SearchSpec`, `Navigation.RandomSpec` and `Navigation.ResetSpec` |
| Navigation.ActiveIndex | Demo/js/app.js:439-465 | the position navigation moves: `currentFilteredIndex` in filtered mode, `currentDialogIndex` otherwise, in `showPreviousDialogue` and `showNextDialogue` and likewise at app.js:76-90 and 286-299. Its steps are stated by `Navigation.PreviousSpec`, `Navigation.NextSpec` and `Navigation.SeekSpec` |
| Navigation.ActiveLength | Demo/js/app.js:439-465 | the length bounding navigation: `filteredDialogues.length` in filtered mode, `dialogueData.length` otherwise, in `showPreviousDialogue` and `showNextDialogue` and likewise at app.js:76-90 and 286-299. The bounds are stated by `Navigation.NextSpec`, `Navigation.SeekSpec` and the invariant `Navigation.Valid` |
| Navigation.Level | Demo/js/app.js:309 | `value ? 'high' : 'low'`. Read back by `Navigation.LevelReadsBack` |
| Navigation.AutoTraits | Demo/js/app.js:303-315 | the traits `showDialogue` selects: those of the personality whose button for the level exists, with that level. Stated by `Navigation.AutoTraitsAgree` and `Navigation.ShowSpec` |
| Navigation.Highlight | Demo/js/app.js:310-314 | the buttons carrying `selected`: one per selected trait, for its value. Stated by `Navigation.HighlightAdd` and the invariant `Navigation.Valid` |
| Navigation.Show | Demo/js/app.js:280-316 | `showDialogue`: the index bookkeeping of `Navigation.Place`, then, for a position inside the collection, the trait overwrite and label list of `Navigation.Display`; past the end the record is `undefined` and the rest throws. Stated by `Navigation.ShowSpec` |
| Navigation.Place | Demo/js/app.js:283-300 | the position, number box and button flags, relative in filtered mode and absolute otherwise. Stated by `Navigation.ShowSpec` |
| Navigation.Display | Demo/js/app.js:302-316 | the shown record's traits that have a button replace the selection and its labels are listed. The label list is built at app.js:362-381. Stated by `Navigation.ShowSpec` |
| Navigation.SearchDialogues | Demo/js/app.js:208-267 | `searchDialogues`: throw, no-result and result branches. Stated by `Navigation.SearchSpec` |
| Navigation.RandomDialogue | Demo/js/app.js:269-278 | `showRandomDialogue` with the random position as a parameter. Stated by `Navigation.RandomSpec` |
| Navigation.ResetFilters | Demo/js/app.js:417-436 | `resetFilters`. Stated by `Navigation.ResetSpec` |
| Navigation.Previous | Demo/js/app.js:438-451 | `showPreviousDialogue`. Stated by `Navigation.PreviousSpec` |
| Navigation.Next | Demo/js/app.js:453-466 | `showNextDialogue`. Stated by `Navigation.NextSpec` |
| Navigation.Seek | Demo/js/app.js:73-91 | the number box's `change` handler. Stated by `Navigation.SeekSpec` |
| Navigation.ToggleTrait | Demo/js/app.js:94-111 | the trait button's `click` handler. Stated by `Navigation.ToggleTraitSpec` |
| Navigation.ToggleStrategy | Demo/js/app.js:190-196 | the strategy checkbox's `change` handler. Stated by `Navigation.ToggleStrategySpec` |
| Navigation.SwitchTask | Demo/js/app.js:48-71 | the task selector's `change` handler before `loadData`. Stated by `Navigation.SwitchTaskSpec` |
| Navigation.Loaded | Demo/js/app.js:136-172 | `loadData` once the collection has arrived. Stated by `Navigation.LoadedSpec` |
| Navigation.LevelReadsBack | Demo/js/app.js:213 | the levels `high`/`low` written at app.js:309 read back as the truth values they came from |
| Navigation.AutoTraitsAgree | Demo/js/app.js:302-315 | the traits selected for a shown record all have buttons and all agree with that record |
| Navigation.HighlightAdd | Demo/js/app.js:311-313 | selecting one more trait highlights exactly its own button in addition |
| Navigation.ShowSpec | Demo/js/app.js:280-316 | showing a dialogue moves to the requested position, sets the number box and both buttons from it, keeps the mode, replaces the selected traits by exactly the record's traits that have a button (all of which it agrees to), and lists its labels |
| Navigation.SearchSpec | Demo/js/app.js:208-267 | a throwing search changes nothing. A search with no result leaves filtered mode with position -1 and both buttons disabled. A search with results enters filtered mode on the first match with the result count, and that match's traits with a button become the selection. The invariant is kept |
| Navigation.SearchKeepsValid | Demo/js/app.js:208-267 | search keeps the state invariant |
| Navigation.NoMatchThenStep | Demo/js/app.js:247-257 | after a search with no result, Previous does nothing and Next shows the first record of the whole collection |
| Navigation.PreviousSpec | Demo/js/app.js:438-451 | Previous steps back by exactly one in the current mode, sets the buttons from the new index, and does nothing at index 0 |
| Navigation.NextSpec | Demo/js/app.js:453-466 | Next steps forward by exactly one in the current mode, sets the buttons from the new index, and does nothing at the last index |
| Navigation.NextThenPrevious | Demo/js/app.js:438-466 | Next followed by Previous returns to the same position in either mode |
| Navigation.SeekSpec | Demo/js/app.js:73-91 | a number from 1 to the active length moves to that position. Any other input, `NaN` included, only rewrites the box with the current number |
| Navigation.RandomSpec | Demo/js/app.js:269-278 | the random dialogue leaves filtered mode on the chosen record, shows the whole count, and selects the record's traits that have a button. On an empty collection it does nothing |
| Navigation.ResetSpec | Demo/js/app.js:417-436 | reset clears the strategies and leaves filtered mode. On an empty collection only the selections and the filter are cleared, and nothing else changes. Otherwise the random record is shown with its position, number box, count, Previous/Next flags and label list; the traits end up empty unless it has a personality, and then they are exactly its traits that have a button |
| Navigation.ToggleTraitSpec | Demo/js/app.js:93-112 | a trait click removes the trait when its value was selected and otherwise replaces the trait's value. The highlighted buttons stay exactly the selected traits, one per trait |
| Navigation.ToggleStrategySpec | Demo/js/app.js:190-196 | a checkbox adds or removes exactly its own label |
| Navigation.SwitchTaskSpec | Demo/js/app.js:48-71 | a task switch empties the collection, every selection and the label list, leaves filtered mode, and keeps the position and the Previous/Next button states |
| Navigation.PreviousAfterSwitch | Demo/js/app.js:438-451 | before the new collection arrives, Previous still steps the stale position back over an empty collection |
| Navigation.LoadedSpec | Demo/js/app.js:136-172 | a completed load replaces the collection and count, leaves filtered mode, offers the vocabulary (all canonical), and sets the buttons from the random record shown, or disables both when the collection is empty |
| Navigation.OfferedLabelFinds | Demo/js/app.js:146-162 | every offered checkbox label, selected alone, finds at least one record, and only records that carry it |
| App.SelectTraits | Demo/js/app.js:303-315 | the trait loop selects and highlights exactly the traits of the personality that have a button |
| App.FilterRecords | Demo/js/app.js:209-245 | the filter loop throws exactly when a selected trait meets a record without a personality. Otherwise it returns the stable filter |
| App.Explorer.constructor | Demo/js/app.js:28-36 | the initial state satisfies the invariant |
| App.Explorer.ShowDialogue | Demo/js/app.js:280-316 | the method performs `Navigation.Show` in place |
| App.Explorer.PlaceDialogue | Demo/js/app.js:283-300 | the method performs the index and button bookkeeping in place |
| App.Explorer.DisplayRecord | Demo/js/app.js:302-316 | the method performs the trait overwrite and the label list (built at app.js:362-381) in place |
| App.Explorer.SearchDialogues | Demo/js/app.js:208-267 | the method performs `Navigation.SearchDialogues` in place and keeps the invariant |
| App.Explorer.ShowNoMatch | Demo/js/app.js:247-257 | the method writes the no-result state |
| App.Explorer.ClearResult | Demo/js/app.js:428-429 | the method discards the search result and changes nothing else |
| App.Explorer.ClearSelection | Demo/js/app.js:418-429 | the method empties the trait and strategy selections and the highlighted buttons, discards the search result, and changes nothing else |
| App.Explorer.InstallRecords | Demo/js/app.js:136-160 | the method installs the arrived collection, its count, its vocabulary and the initial button states, and leaves filtered mode |
| App.Explorer.ShowRandomDialogue | Demo/js/app.js:269-278 | the method performs `Navigation.RandomDialogue` in place and keeps the invariant |
| App.Explorer.ResetFilters | Demo/js/app.js:417-436 | the method performs `Navigation.ResetFilters` in place and keeps the invariant |
| App.Explorer.ShowPrevious | Demo/js/app.js:438-451 | the method performs `Navigation.Previous` in place and keeps the invariant |
| App.Explorer.ShowNext | Demo/js/app.js:453-466 | the method performs `Navigation.Next` in place and keeps the invariant |
| App.Explorer.SeekDialogue | Demo/js/app.js:73-91 | the method performs `Navigation.Seek` in place and keeps the invariant |
| App.Explorer.ClickTrait | Demo/js/app.js:94-111 | the method performs `Navigation.ToggleTrait` in place and keeps the invariant |
| App.Explorer.CheckStrategy | Demo/js/app.js:190-196 | the method performs `Navigation.ToggleStrategy` in place and keeps the invariant |
| App.Explorer.SelectTask | Demo/js/app.js:48-69 | the method performs `Navigation.SwitchTask` in place and keeps the invariant |
| App.Explorer.LoadCompleted | Demo/js/app.js:136-172 | the method performs `Navigation.Loaded` in place and keeps the invariant |
| Scenarios.PlainWordSplit | Demo/js/app.js:115 | a word without white space, `,` or `;` is split by neither pattern |
| Scenarios.NormalizeTwoWords | Demo/js/app.js:114-118 | two lower-case words joined by one space are already trimmed, and `capitalizeStrategy` upper-cases the first letter of each |
| Scenarios.PhraseAndWordSplit | Demo/js/app.js:151 | a text such as "shows empathy and patience" splits only at ` and `, into the two-word phrase and the last word |
| Scenarios.PhraseAndWordLabels | Demo/js/app.js:151-156 | such a text yields exactly two labels, the capitalised phrase ("Shows Empathy") and the capitalised last word ("Patience") |
| Scenarios.PhraseWordAloneNotFound | Demo/js/app.js:221-242 | selecting the phrase's second word alone ("Empathy") does not find a record annotated with such a text, and selecting the whole phrase ("Shows Empathy") does |
| Scenarios.NonAndPhraseSplit | Demo/js/app.js:151 | a three-word text whose middle word is not exactly `and` ("calm AND kind") is one piece, because the `and` alternative is case-sensitive |
| Scenarios.CommaKeepsSpaceBefore | Demo/js/app.js:151 | a comma takes only the white space after it: `"<w1> ,<w2>"` splits into `"<w1> "` and `"<w2>"` |
| Scenarios.CommaAndList | Demo/js/app.js:151 | a list `"<w1>, <w2> and <w3>"` splits into its three words |

## Left out

- The rendering of the dialogue messages, the image, the story title, and the morals file with `loadMorals`. None
  of these feed back into the state. For the same reason a `Record` holds only `personality` and the `record`
  annotations.
- The order of the labels. Labels are sets here. The source sorts them only to display them and to build the
  checkboxes.
- `fetch` and the asynchronous order of events. `LoadCompleted` takes the arrived collection as a parameter. A
  failed fetch is a load that never completes. A load that completes after a later task switch is not modelled.
- `Math.random`. Every handler that picks a random record takes the chosen position `r` as a parameter.
- `parseInt`. `SeekDialogue` takes its result as `Option<int>`, with `None` for `NaN`.
- `getPersonalityDescription` and `adjustDialogueHeight`, which the explorer never uses for its state.
- `uniqueStrategies`. It is declared and never written.
- Text.ToUpper: maps only the ASCII letters. JavaScript's full Unicode case mapping is not modelled.
- Text.ToLower: maps only the ASCII letters, for the same reason.
- Text.NormalizeIdempotent: holds only because case mapping is limited to ASCII here, and so do the canonical-label results built on it (`Labels.PieceLabelCanonical`, `Labels.TextLabelsCanonical`, `Labels.RecordLabelsCanonical`, `Dataset.VocabularyCanonical`, `Navigation.LoadedSpec`). With JavaScript's full case mapping `capitalizeStrategy("ß")` is `"SS"` and `capitalizeStrategy("SS")` is `"Ss"`; likewise `"ﬁx"` gives `"FIx"` and then `"Fix"`.
- The HTML page's initial button states, number box and count. `App.Explorer.constructor` takes them as enabled
  buttons and zero.
- The `selected`/`auto-selected` class pair. Both are removed together at app.js:305, so the model keeps a single
  `highlighted` set.
