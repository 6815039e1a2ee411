# Industrial Lexicon — a verified model of the word pipeline

Industrial Lexicon is a small React application that shows a bilingual
(English/Persian) glossary of industrial-engineering terms, grouped into five
categories. This project models the core of it in Dafny and proves what that
core promises:

- **the word loader** (`src/utils/dataLoader.js`)
  - normalises CSV rows and JSON entries into canonical words, or rejects them
  - chooses between the CSV words and the bundled fallback
  - groups words by category
- **the category page's filter engine** (`src/pages/CategoryPage.jsx`)
  - the words of one category
  - the case-insensitively de-duplicated part-of-speech options
  - the stale-facet reset
  - the facet and search filters
  - the persisted search and facet
  - the loading, list and empty states
- **the match highlighter** (`src/utils/highlight.js`)
  - escapes the query
  - splits the text around its case-insensitive occurrences
  - renders the parts as fragments and marks
- **the flip card** (`src/components/WordCard.jsx`): the first definition, the back face's id slug, and the two-flag flip state machine
- **the part-of-speech pills** (`src/components/FilterPills.jsx`): rendering, the active pill and the select/deselect toggle
- **the colour theme** (`src/utils/theme.js`): stored, system and preferred theme, initial theme, the hook's effect and the toggle

Browser facilities are never touched; each one becomes a parameter or a result:

- the fetch, the CSV parse and the JSON import
- `localStorage`, `matchMedia` and the document

Modules:

| file | module | contents |
|---|---|---|
| `wrappers.dfy` | `Wrappers` | `Option` |
| `js_string.dfy` | `JsString` | JavaScript's `trim`, `toLowerCase`, `includes` and `split` on strings |
| `seqs.dfy` | `Seqs` | `Array.prototype.filter`, and the reference definition of an order-preserving filter (`IsFilterOf`) |
| `data_loader.dfy` | `DataLoader` | records, normalisers, `loadWords`, `groupByCategory` |
| `category_page.dfy` | `CategoryPage` | derivations of the category page and its state (`FilterState`) |
| `highlight.dfy` | `Highlight` | `escapeRegExp`, the split, `highlightMatch` |
| `word_card.dfy` | `WordCard` | back id, flip state, the card (`FlipCard`) |
| `filter_pills.dfy` | `FilterPills` | pills and `handleSelect` |
| `theme.dfy` | `Theme` | theme selection and the `useTheme` hook (`ThemeHook`) |

The loop-based operations are methods proved against specification functions:

- `DataLoader.GroupByCategory` (the `reduce` that pushes into per-category arrays) is proved against `Group`.
- `CategoryPage.PosOptions` (the `forEach` that fills a `Map`) is proved against `PosOptionsOf`.

The state the page, the card and the theme hook update lives in classes:

- `FilterState`: the words, the loading flag, the query and the facet.
- `FlipCard`: `isFlipped` and `hasFlipped`.
- `ThemeHook`: the theme, the document attribute and the stored item.

The pure derivations are functions with lemmas relating them to reference definitions.

## Model

| member | source | states |
|---|---|---|
| JsString.Trim | industrial-lexicon/src/utils/dataLoader.js:11-14 | the result has no leading or trailing JavaScript white space and is no longer than the input |
| JsString.TrimCutsSpace | industrial-lexicon/src/utils/dataLoader.js:13 | `trim` removes exactly a white-space prefix and a white-space suffix, keeping the middle |
| JsString.TrimIdempotent | industrial-lexicon/src/utils/dataLoader.js:13 | trimming twice is trimming once (Papa's `transform` trims, and the normalisers trim again) |
| JsString.TrimEmptyIffBlank | industrial-lexicon/src/utils/highlight.js:16-20 | the trimmed string is empty exactly when every character is white space |
| JsString.TrimKeepsOut | industrial-lexicon/src/utils/dataLoader.js:60 | trimming never introduces a character |
| JsString.TrimStartSpaces | industrial-lexicon/src/components/WordCard.jsx:19 | a white-space run in front of a non-space character is exactly what is cut from the start |
| JsString.Lower | industrial-lexicon/src/pages/CategoryPage.jsx:89 | `toLowerCase` keeps the length and folds each capital letter (ASCII) |
| JsString.LowerIdempotent | industrial-lexicon/src/pages/CategoryPage.jsx:103 | lower-casing is idempotent |
| JsString.Includes | industrial-lexicon/src/pages/CategoryPage.jsx:127 | `includes` holds exactly when the query occurs at some index |
| JsString.Split | industrial-lexicon/src/utils/dataLoader.js:59 | `split(',')` gives at least one piece, none of which holds the separator |
| JsString.JoinSplit | industrial-lexicon/src/utils/dataLoader.js:59 | joining the pieces with the separator gives the input back |
| Seqs.Filter | industrial-lexicon/src/pages/CategoryPage.jsx:79 | `filter` keeps exactly the elements satisfying the predicate, never more than the input |
| Seqs.FilterMeetsReference | industrial-lexicon/src/pages/CategoryPage.jsx:79 | `filter` is an order-preserving subsequence with every kept element's multiplicity unchanged |
| Seqs.FilterIsSubsequence | industrial-lexicon/src/pages/CategoryPage.jsx:114 | the filtered list is a subsequence of the input |
| Seqs.FilterMultiplicity | industrial-lexicon/src/pages/CategoryPage.jsx:114 | an element occurs in the result as often as in the input when it passes, else not at all |
| Seqs.FilterAppend | industrial-lexicon/src/pages/CategoryPage.jsx:126 | filtering distributes over concatenation |
| Seqs.FilterAll | industrial-lexicon/src/utils/dataLoader.js:61 | a filter every element passes changes nothing |
| Seqs.FilterNone | industrial-lexicon/src/utils/dataLoader.js:29 | a filter no element passes gives nothing |
| Seqs.FilterHead | industrial-lexicon/src/components/WordCard.jsx:9 | the first kept element is the first element that passes |
| Seqs.SubsequenceTransitive | industrial-lexicon/src/pages/CategoryPage.jsx:111-134 | a subsequence of a subsequence is a subsequence (the page's filters chain) |
| Seqs.SubsequenceMembers | industrial-lexicon/src/pages/CategoryPage.jsx:111-134 | members of a subsequence are members of the whole |
| Seqs.FilterMapMembers | industrial-lexicon/src/utils/dataLoader.js:157 | `map(f).filter(Boolean)` holds exactly the present images; it is empty exactly when every image is absent |
| Seqs.FilterMapSingle | industrial-lexicon/src/utils/dataLoader.js:157 | one element maps to its present image, or to nothing |
| Seqs.FilterMapAppend | industrial-lexicon/src/utils/dataLoader.js:157 | `map(f).filter(Boolean)` of a concatenation is the concatenation of the parts, which fixes order and repetitions |
| DataLoader.TrimValue | industrial-lexicon/src/utils/dataLoader.js:11-14 | a string becomes its JavaScript `trim`, a missing value `''`; either way the result is trimmed |
| DataLoader.NonEmpty | industrial-lexicon/src/utils/dataLoader.js:29 | `filter(Boolean)` keeps exactly the non-empty strings |
| DataLoader.KeepExamples | industrial-lexicon/src/utils/dataLoader.js:40 | an example pair is kept exactly when its English or Persian side is non-empty |
| DataLoader.SplitTags | industrial-lexicon/src/utils/dataLoader.js:58-61 | every tag is non-empty, trimmed and free of commas |
| DataLoader.SplitTagsMeetsReference | industrial-lexicon/src/utils/dataLoader.js:58-61 | the tags are the trimmed comma pieces, filtered in order to the non-empty ones |
| DataLoader.TrimmedPiecesHaveNoComma | industrial-lexicon/src/utils/dataLoader.js:59-60 | no trimmed comma piece contains a comma |
| DataLoader.RowDefinitionSlots | industrial-lexicon/src/utils/dataLoader.js:27-28 | three slots `def1_en`..`def3_en`, each trimmed |
| DataLoader.RowExampleSlots | industrial-lexicon/src/utils/dataLoader.js:31-39 | three trimmed example pairs `ex1`..`ex3` |
| DataLoader.RowDefinitions | industrial-lexicon/src/utils/dataLoader.js:27-29 | at most three definitions, each non-empty and trimmed, the in-order non-empty slots |
| DataLoader.RowExamples | industrial-lexicon/src/utils/dataLoader.js:31-40 | at most three pairs, each with text and trimmed, the in-order non-empty slots |
| DataLoader.NormalizeRow | industrial-lexicon/src/utils/dataLoader.js:16-65 | rejects exactly when the trimmed id, category or term is empty or the category is not one of the five. Otherwise the word is canonical, carries the trimmed fields and the definitions and examples above, has `pos` exactly when the trimmed `pos` is non-empty, and has `tags` exactly when the trimmed tags text is non-empty (so `","` gives no tags but a `tags` field) |
| DataLoader.EntryDefinitions | industrial-lexicon/src/utils/dataLoader.js:78-80 | every JSON definition kept is non-empty and trimmed; a non-list gives none |
| DataLoader.EntryExamples | industrial-lexicon/src/utils/dataLoader.js:82-89 | every JSON example kept has text and is trimmed; a non-list gives none |
| DataLoader.EntryListsMeetReference | industrial-lexicon/src/utils/dataLoader.js:78-89 | the JSON definitions and examples are the in-order filters of the trimmed list, and empty for a non-list |
| DataLoader.EntryPos | industrial-lexicon/src/utils/dataLoader.js:99-104 | `pos` is present exactly when its trimmed value is non-empty, and is that value |
| DataLoader.TagValue | industrial-lexicon/src/utils/dataLoader.js:107-114 | a missing `tags` gives none, a comma string the split of its trimmed text (none when empty); every tag is non-empty and trimmed |
| DataLoader.TagListMeetsReference | industrial-lexicon/src/utils/dataLoader.js:107-110 | list tags are the trimmed elements filtered in order to the non-empty ones, repetitions kept |
| DataLoader.EntryTags | industrial-lexicon/src/utils/dataLoader.js:106-119 | JSON tags are present exactly when the computed list is non-empty, and are that list |
| DataLoader.NormalizeEntry | industrial-lexicon/src/utils/dataLoader.js:67-122 | a null entry is rejected. Otherwise it rejects exactly when the trimmed id, category or term is empty or the category is not one of the five; an accepted word is canonical with the trimmed fields, the list-or-empty definitions and examples, `pos` as for rows, and `tags` exactly when the list or string gives a non-empty list, which it then is |
| DataLoader.NormalizeRows | industrial-lexicon/src/utils/dataLoader.js:156-158 | the normalised rows are canonical words, never more than the rows |
| DataLoader.NormalizeRowsSound | industrial-lexicon/src/utils/dataLoader.js:157 | every word comes from some row |
| DataLoader.NormalizeRowsComplete | industrial-lexicon/src/utils/dataLoader.js:157 | every accepted row's word is present |
| DataLoader.NormalizeRowsEmpty | industrial-lexicon/src/utils/dataLoader.js:157-164 | there are no words exactly when every row is rejected |
| DataLoader.NormalizeRowsInOrder | industrial-lexicon/src/utils/dataLoader.js:156-158 | the words follow their rows: concatenated rows give concatenated words, and one row gives its word or nothing |
| DataLoader.NormalizeEntries | industrial-lexicon/src/utils/dataLoader.js:169-171 | the normalised fallback entries are canonical words, never more than the entries |
| DataLoader.NormalizeEntriesSound | industrial-lexicon/src/utils/dataLoader.js:170 | every fallback word comes from some entry |
| DataLoader.NormalizeEntriesComplete | industrial-lexicon/src/utils/dataLoader.js:170 | every accepted entry's word is present |
| DataLoader.NormalizeEntriesInOrder | industrial-lexicon/src/utils/dataLoader.js:169-171 | the fallback words follow their entries in the same way |
| DataLoader.FallbackWords | industrial-lexicon/src/utils/dataLoader.js:168-173 | a fallback that is not a list gives no words; all fallback words are canonical |
| DataLoader.CsvWords | industrial-lexicon/src/utils/dataLoader.js:125-164 | CSV words exist only for an ok response with non-blank text |
| DataLoader.LoadWords | industrial-lexicon/src/utils/dataLoader.js:124-175 | the CSV words when there is at least one, otherwise the fallback words (bad status, blank text, parse failure or no valid row); all canonical |
| DataLoader.Group | industrial-lexicon/src/utils/dataLoader.js:181-185 | a group holds exactly the words of that category |
| DataLoader.Push | industrial-lexicon/src/utils/dataLoader.js:181-185 | a word without a category leaves the groups alone; otherwise it is appended to its category's group, created when new, and every other group is unchanged |
| DataLoader.GroupSnoc | industrial-lexicon/src/utils/dataLoader.js:185 | one more word is appended to its own category's group only |
| DataLoader.GroupByCategory | industrial-lexicon/src/utils/dataLoader.js:177-188 | a key exists exactly for each non-empty category present. Each group is that category's words in input order (a subsequence). Every categorised word appears in its group as often as in the input, and no group holds a word of another category |
| DataLoader.GroupSizesSnoc | industrial-lexicon/src/utils/dataLoader.js:181-185 | one more word adds one to the summed group sizes exactly when its category is among the keys |
| DataLoader.GroupSizesSum | industrial-lexicon/src/utils/dataLoader.js:177-188 | summed over the distinct categories, the group sizes equal the number of categorised words |
| CategoryPage.ResolveSlug | industrial-lexicon/src/pages/CategoryPage.jsx:19 | the route slug when non-empty, else `unknown`; never empty |
| CategoryPage.StorageKeysDistinct | industrial-lexicon/src/pages/CategoryPage.jsx:26-27 | search and facet keys never collide, and each key determines its slug |
| CategoryPage.StoredOr | industrial-lexicon/src/pages/CategoryPage.jsx:61-65 | the stored string, or `''` when absent |
| CategoryPage.Persist | industrial-lexicon/src/pages/CategoryPage.jsx:68-76 | the two page keys hold the query and the facet; every other key of storage is kept as it was |
| CategoryPage.RestoreAfterPersist | industrial-lexicon/src/pages/CategoryPage.jsx:61-75 | what the page persists (the untrimmed query and the facet) is what it restores; every other key, including other slugs' keys, reads as before |
| CategoryPage.CategoryWords | industrial-lexicon/src/pages/CategoryPage.jsx:78-81 | exactly the words of the slug's category, as an order-preserving filter |
| CategoryPage.PosOf | industrial-lexicon/src/pages/CategoryPage.jsx:87 | a word's option candidate is its trimmed `pos`, `''` without one |
| CategoryPage.PosOptionsOf | industrial-lexicon/src/pages/CategoryPage.jsx:83-96 | never more options than words; the `PosOptions*` lemmas below pin the list as first-seen, case-insensitively distinct and complete |
| CategoryPage.PosOptions | industrial-lexicon/src/pages/CategoryPage.jsx:83-96 | the `forEach` loop computes the first-seen option list |
| CategoryPage.HasKeyEntries | industrial-lexicon/src/pages/CategoryPage.jsx:90 | `unique.has(key)` holds exactly when some option already lower-cases to the key |
| CategoryPage.PosOptionsSnoc | industrial-lexicon/src/pages/CategoryPage.jsx:86-93 | one more word appends its trimmed `pos` exactly when it is non-empty and its key is new |
| CategoryPage.PosOptionsDistinct | industrial-lexicon/src/pages/CategoryPage.jsx:83-96 | no two options are equal after lower-casing |
| CategoryPage.PosOptionsFromWords | industrial-lexicon/src/pages/CategoryPage.jsx:87-92 | every option is a non-empty trimmed `pos` of some word |
| CategoryPage.PosOptionsCover | industrial-lexicon/src/pages/CategoryPage.jsx:86-93 | every word's non-empty `pos` has its key among the options |
| CategoryPage.PosOptionsFirstSeen | industrial-lexicon/src/pages/CategoryPage.jsx:89-92 | the first word with a given key contributes its own casing |
| CategoryPage.PosOptionsGrow | industrial-lexicon/src/pages/CategoryPage.jsx:86-93 | more words only extend the option list (first-seen order is kept) |
| CategoryPage.PosOptionsPrefix | industrial-lexicon/src/pages/CategoryPage.jsx:86-93 | the options of a prefix of the words are a prefix of the options |
| CategoryPage.FacetAfterReset | industrial-lexicon/src/pages/CategoryPage.jsx:98-109 | the facet is cleared exactly when non-empty, there are options, and none matches case-insensitively; otherwise unchanged |
| CategoryPage.FacetResetSettles | industrial-lexicon/src/pages/CategoryPage.jsx:98-109 | running the reset again changes nothing |
| CategoryPage.FilteredByPos | industrial-lexicon/src/pages/CategoryPage.jsx:111-115 | all the category's words without a facet, else the in-order words whose lower-cased `pos` equals the lower-cased facet |
| CategoryPage.MatchesQuery | industrial-lexicon/src/pages/CategoryPage.jsx:126-133 | a word matches when the query occurs in its lower-cased term or in some lower-cased definition |
| CategoryPage.FilteredWords | industrial-lexicon/src/pages/CategoryPage.jsx:117-134 | unchanged for a blank query, else the in-order words whose lower-cased term or some definition includes the lower-cased trimmed query |
| CategoryPage.VisibleWords | industrial-lexicon/src/pages/CategoryPage.jsx:78-134 | every listed word is a loaded word of the slug's category; `VisibleWordsExactly` and `VisibleWordsInCategory` give the rest |
| CategoryPage.VisibleWordsInCategory | industrial-lexicon/src/pages/CategoryPage.jsx:78-134 | every displayed word is of the slug's category and the displayed list is a subsequence of all words |
| CategoryPage.VisibleWordsExactly | industrial-lexicon/src/pages/CategoryPage.jsx:78-134 | a word is displayed exactly when it is loaded, of the category, passes the facet and matches the query |
| CategoryPage.View | industrial-lexicon/src/pages/CategoryPage.jsx:159-173 | loading while loading. Otherwise the list when non-empty; when empty, "not found" if the trimmed query or facet is set, else "no words yet" |
| CategoryPage.FilterState.constructor | industrial-lexicon/src/pages/CategoryPage.jsx:21-24 | no words, loading, empty query and facet |
| CategoryPage.FilterState.FinishLoading | industrial-lexicon/src/pages/CategoryPage.jsx:32-48 | unmounted: nothing changes. Otherwise the loaded words, or none after a failure, and loading ends |
| CategoryPage.FilterState.Restore | industrial-lexicon/src/pages/CategoryPage.jsx:58-66 | outside a browser nothing changes; otherwise the stored query and facet or `''` |
| CategoryPage.FilterState.SetSearchQuery | industrial-lexicon/src/pages/CategoryPage.jsx:151 | the query becomes the value |
| CategoryPage.FilterState.SetFacet | industrial-lexicon/src/pages/CategoryPage.jsx:153 | the facet becomes the value |
| CategoryPage.FilterState.ResetStaleFacet | industrial-lexicon/src/pages/CategoryPage.jsx:98-109 | the facet after the reset rule, which is then empty, option-less or matched |
| CategoryPage.FilterState.Persisted | industrial-lexicon/src/pages/CategoryPage.jsx:68-76 | storage is written exactly when there is a browser. It then holds the query (untrimmed) and the facet under the page's keys, and every other key, such as the theme's or another category's, is kept |
| CategoryPage.FilterState.CurrentView | industrial-lexicon/src/pages/CategoryPage.jsx:78-173 | every listed word is a loaded word of the page's category |
| Highlight.EscapeRegExp | industrial-lexicon/src/utils/highlight.js:3 | each metacharacter gains one backslash, so the length at most doubles |
| Highlight.Literal | industrial-lexicon/src/utils/highlight.js:22 | reading an escaped pattern as a literal never lengthens it |
| Highlight.LiteralOfEscape | industrial-lexicon/src/utils/highlight.js:3-22 | the escaped pattern matches the query literally: read back, it is the query |
| Highlight.PatternLiteral | industrial-lexicon/src/utils/highlight.js:22 | the pattern built from the trimmed query matches that query literally |
| Highlight.AgreesFromPointwise | industrial-lexicon/src/utils/highlight.js:22 | the `i` flag's comparison is character-by-character case-insensitive |
| Highlight.MatchesAtLower | industrial-lexicon/src/utils/highlight.js:22-23 | a case-insensitive match at an index is an occurrence in the lower-cased strings |
| Highlight.LowerSlice | industrial-lexicon/src/utils/highlight.js:22-23 | lower-casing commutes with slicing |
| Highlight.NoMatchInGap | industrial-lexicon/src/utils/highlight.js:23 | a stretch with no match start holds no occurrence |
| Highlight.SplitFromConcat | industrial-lexicon/src/utils/highlight.js:23 | the split parts, concatenated, give the text back |
| Highlight.SplitFrom | industrial-lexicon/src/utils/highlight.js:22-23 | the scan from a chunk start yields an odd number of parts (chunk, match, ..., chunk); `SplitFromConcat`, `SplitFromMatches`, `SplitFromGaps` and `SplitFromLeftmost` pin the rest |
| Highlight.SplitParts | industrial-lexicon/src/utils/highlight.js:23 | `source.split(pattern)` gives an odd number of parts that spell the text |
| Highlight.SplitFromMatches | industrial-lexicon/src/utils/highlight.js:23 | every odd part is a captured match, case-insensitively equal to the query |
| Highlight.SplitFromGaps | industrial-lexicon/src/utils/highlight.js:23 | no even part contains an occurrence of the query |
| Highlight.SplitFromLeftmost | industrial-lexicon/src/utils/highlight.js:22-23 | no match starts inside a plain part, so each mark is the leftmost match after the previous one and marks never overlap |
| Highlight.SplitFromSingle | industrial-lexicon/src/utils/highlight.js:23-27 | there is a single part exactly when no match starts in the rest of the text |
| Highlight.SplitPartsSingle | industrial-lexicon/src/utils/highlight.js:25-27 | one part exactly when the lower-cased text does not include the lower-cased query |
| Highlight.NodesOf | industrial-lexicon/src/utils/highlight.js:29-43 | one node per part, keyed by its index and carrying the part. Empty parts become empty fragments; non-empty odd parts become marks |
| Highlight.NodesTextOfParts | industrial-lexicon/src/utils/highlight.js:29-43 | the nodes' texts, concatenated, are the parts concatenated |
| Highlight.HighlightMatch | industrial-lexicon/src/utils/highlight.js:5-44 | null text gives `''`; a blank query gives the text; nodes exactly when the trimmed query occurs case-insensitively, otherwise the text itself |
| Highlight.HighlightPreservesText | industrial-lexicon/src/utils/highlight.js:22-43 | the rendered result always reads as the original text |
| Highlight.HighlightMarks | industrial-lexicon/src/utils/highlight.js:22-43 | with nodes there are an odd number, keyed in order. Every odd node is a mark case-insensitively equal to the trimmed query; no even node is a mark, contains an occurrence, or has a match starting inside it, so the marks are the leftmost non-overlapping occurrences |
| WordCard.PrimaryDefinitionOfRow | industrial-lexicon/src/components/WordCard.jsx:9 | the front of a word loaded from a CSV row shows its first filled definition column |
| WordCard.PrimaryDefinitionBlank | industrial-lexicon/src/components/WordCard.jsx:9 | the front of a loaded word is blank exactly when the word has no definition |
| WordCard.DashSpaces | industrial-lexicon/src/components/WordCard.jsx:19 | no white space is left and the string does not grow |
| WordCard.DashSpacesNoSpace | industrial-lexicon/src/components/WordCard.jsx:19 | a string without white space is unchanged |
| WordCard.DashSpacesWord | industrial-lexicon/src/components/WordCard.jsx:19 | a stretch without white space passes through unchanged |
| WordCard.DashSpacesRun | industrial-lexicon/src/components/WordCard.jsx:19 | a maximal white-space run, however long, becomes one `-` |
| WordCard.TrimStartKeepsText | industrial-lexicon/src/components/WordCard.jsx:19 | leading white space holds no character other than white space |
| WordCard.DashSpacesKeepsText | industrial-lexicon/src/components/WordCard.jsx:19 | the characters other than white space and `-` are kept, in order |
| WordCard.Slug | industrial-lexicon/src/components/WordCard.jsx:17-20 | the slug holds only `a-z`, `0-9` and `-` |
| WordCard.SlugCharsFixed | industrial-lexicon/src/components/WordCard.jsx:18-19 | slug characters survive lower-casing and are not white space |
| WordCard.SlugOfSlugChars | industrial-lexicon/src/components/WordCard.jsx:17-20 | a term of `a-z`, `0-9` and `-` is its own slug |
| WordCard.SlugIdempotent | industrial-lexicon/src/components/WordCard.jsx:17-20 | the slug of a slug is itself |
| WordCard.SlugIgnoresCase | industrial-lexicon/src/components/WordCard.jsx:18 | a term and its lower-cased form have the same slug |
| WordCard.BackId | industrial-lexicon/src/components/WordCard.jsx:11-25 | the prefix plus the id when truthy. Otherwise the prefix plus the term's slug when non-empty, else the prefix plus `term` (also for a non-string term) |
| WordCard.Toggled | industrial-lexicon/src/components/WordCard.jsx:27-37 | a toggle always turns the face, and the back counts as shown exactly when it was before or the card now shows it |
| WordCard.ToggledSpec | industrial-lexicon/src/components/WordCard.jsx:27-37 | a toggle turns the face over and sets `hasFlipped` on turning to the back. It never clears `hasFlipped` and keeps "flipped implies has flipped" |
| WordCard.TogglesSpec | industrial-lexicon/src/components/WordCard.jsx:27-37 | after n toggles the face has turned n times. `hasFlipped` is never lost, is set from two toggles on, and consistency is kept |
| WordCard.ToggleTwice | industrial-lexicon/src/components/WordCard.jsx:27-37 | two toggles show the same face, and the back has been shown |
| WordCard.FlipCard.constructor | industrial-lexicon/src/components/WordCard.jsx:6-7 | both flags start false; the back id is derived |
| WordCard.FlipCard.ToggleFlip | industrial-lexicon/src/components/WordCard.jsx:27-37 | the new flags are the toggled old ones: the face turns, `hasFlipped` is kept, and consistency holds |
| WordCard.FlipCard.HandleKeyDown | industrial-lexicon/src/components/WordCard.jsx:39-44 | Enter or Space prevents the default and toggles; any other key changes nothing |
| WordCard.FlipCard.AriaControls | industrial-lexicon/src/components/WordCard.jsx:57 | `aria-controls` names the back id exactly when the back has been shown |
| WordCard.FlipCard.BackFaceRendered | industrial-lexicon/src/components/WordCard.jsx:73 | the back face exists exactly when `aria-controls` is set |
| FilterPills.Render | industrial-lexicon/src/components/FilterPills.jsx:3-31 | nothing without options, else one pill per option in order, active exactly when equal to the value |
| FilterPills.HandleSelect | industrial-lexicon/src/components/FilterPills.jsx:8-16 | nothing without `onChange`; `''` for the active option; the option otherwise |
| FilterPills.ActivePillUnique | industrial-lexicon/src/components/FilterPills.jsx:24-26 | with distinct options at most one pill is active, and one is exactly when the value is an option |
| FilterPills.SelectToggles | industrial-lexicon/src/components/FilterPills.jsx:11-14 | a click selects a non-active option or clears the active one, and a second click undoes it |
| FilterPills.PageOptionsActivePill | industrial-lexicon/src/components/FilterPills.jsx:24-26 | with the page's options, at most one pill is ever active |
| FilterPills.CaseMismatch | industrial-lexicon/src/components/FilterPills.jsx:24-26 | the pills compare case-sensitively while the page keeps a facet that matches case-insensitively: facet `verb` with option `Verb` survives the reset, yet no pill is pressed |
| FilterPills.SurvivingFacetHasNoPill | industrial-lexicon/src/components/FilterPills.jsx:24-26 | for any options, a facet that is not an option but survives the page's reset differs from some option only in case, and no pill is pressed |
| Theme.GetStoredTheme | industrial-lexicon/src/utils/theme.js:7-19 | the stored item only when exactly `dark` or `light`; nothing on error, outside a browser or otherwise |
| Theme.GetSystemTheme | industrial-lexicon/src/utils/theme.js:21-28 | dark exactly when the media query matches; light on error or outside a browser |
| Theme.Normalized | industrial-lexicon/src/utils/theme.js:32 | dark only for dark, light for anything else; a valid theme is kept |
| Theme.ApplyTheme | industrial-lexicon/src/utils/theme.js:30-34 | the attribute is written exactly when there is a document, as the normalised theme |
| Theme.GetPreferredTheme | industrial-lexicon/src/utils/theme.js:36-43 | the stored theme when valid, else the system theme; always a theme |
| Theme.ExistingTheme | industrial-lexicon/src/utils/theme.js:48-49 | the document attribute when it names a theme |
| Theme.EnsureInitialTheme | industrial-lexicon/src/utils/theme.js:45-56 | light without a document. An existing valid attribute is returned without a write; otherwise the preferred theme is applied and returned |
| Theme.EnsureInitialThemeSettles | industrial-lexicon/src/utils/theme.js:45-56 | after its write, a second call finds the theme and writes nothing |
| Theme.InitialTheme | industrial-lexicon/src/utils/theme.js:68-76 | the hook starts from a valid attribute, else the preferred theme |
| Theme.InitialAgreesWithEnsure | industrial-lexicon/src/utils/theme.js:45-76 | with a document, the hook's initial theme is the one `ensureInitialTheme` reports |
| Theme.PersistedThemeReadBack | industrial-lexicon/src/utils/theme.js:7-19 | a persisted theme is read back as the preferred theme |
| Theme.Toggled | industrial-lexicon/src/utils/theme.js:84 | dark becomes light, anything else dark; always a change |
| Theme.ToggleTwice | industrial-lexicon/src/utils/theme.js:83-85 | toggling twice from a valid theme restores it |
| Theme.ThemeHook.constructor | industrial-lexicon/src/utils/theme.js:68-76 | the hook's theme is the initial theme, and the document and storage are as read |
| Theme.ThemeHook.SyncEffect | industrial-lexicon/src/utils/theme.js:58-65 | the attribute becomes the normalised theme where there is a document, and the stored item becomes the theme where storage accepts writes. Both read back as the theme |
| Theme.ThemeHook.ToggleTheme | industrial-lexicon/src/utils/theme.js:83-85 | the theme becomes the toggled old theme |

## Left out

- **Fetch, CSV parsing and the JSON import.** The network response, Papa's parse and the bundled JSON module are inputs (`CsvFetch`, `ParseOutcome`, `Option<seq<Entry>>`). Papa's own tokenising, its `header` and `skipEmptyLines` options, and the `Cache-Control` header are not part of this model.
- **A failing fallback import.** It escapes `loadWords` and is caught by the page; `FinishLoading` receives it as `None`, leaving the page with no words.
- **Console output.** The parse-error warning, the fallback notice and the page's error log are side channels only.
- **React scheduling.** The order in which effects and memos run, batching and re-rendering are not modelled. Each derivation is a function, each effect a method. The `isMounted` guard is the `mounted` flag of `FinishLoading`.
- **The search box's debounce.** Its 300 ms timer in `SearchBar.jsx` is not part of this model; `SetSearchQuery` takes the already-debounced value.
- **Other screens.** `App.jsx`, `HomePage.jsx`, `CategoryCard.jsx` and `TopBar.jsx` are routing and static markup and are not part of this model. So is the page's category-title lookup.
- **Locale formatting.** `toLocaleString('fa-IR')` of the word count is not modelled.
- **Unicode.** JavaScript's `toLowerCase` and the regular expression's `i` flag fold all of Unicode; `Lower` folds ASCII only. `trim` and `\s` use the JavaScript white-space set, which `IsSpace` lists in full. A Dafny `char` is a Unicode scalar value while a JavaScript string is a sequence of UTF-16 code units, so lengths and indices differ for characters outside the Basic Multilingual Plane.
- **Non-string JSON values.** `trimValue` passes a number, boolean or object through unchanged. The model's fields are strings or missing, so such values are not represented.
- **Null words.** `groupByCategory` skips `null` words; the model's words are never null.
- **Highlight.HighlightMatch** takes the text as an optional string. `String(text)` of a non-string and a non-string query are not modelled. The React elements are modelled by their kind, key and text, not their identity.
- **WordCard.FlipCard.ToggleFlip** reads `hasFlipped` from the current state rather than from the render's closure. Two toggles batched in one render are therefore not modelled.
- **Theme.ThemeHook.SyncEffect** takes a storage write that throws as `storageWritable == false`.
- **CategoryPage.FilterState.Restore** receives storage as present or absent. The page does not catch a `getItem` that throws (`CategoryPage.jsx:61-62`), so such a throw escapes the effect; the model has no such case and treats storage it cannot read as no browser (`None`).
- **CategoryPage.FilterState.Persisted** writes storage whenever there is a browser. The page does not catch a `setItem` that throws (`CategoryPage.jsx:70`, `75`), so such a throw escapes the effect, and the model does not represent it.
- **DataLoader.GroupByCategory** gives every non-empty category its group. The source's accumulator is a plain object, so a category named after an inherited property such as `constructor` or `toString` finds a truthy value and `push` throws; the model has no prototype and no throw. Loaded words carry one of the five categories, so the page never meets this.
- **CSV and JSON tags differ.** A CSV tags cell of `","` yields an empty `tags` list, while the JSON path omits empty tags. The model follows the code in both (`NormalizeRow`, `EntryTags`).
- **DataLoader.GroupSizesSum** states the size sum over any duplicate-free list of the non-empty categories, rather than over the keys of the map `GroupByCategory` returns.
