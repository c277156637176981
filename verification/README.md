# BOARDS-AI Data Explorer — a Dafny model of its browsing core

The explorer is a single page script, `app.js`. It loads an index of clinical imaging
cases, lets the reader filter it by subspecialty and by a free-text search, and opens
one case at a time. For an open case it shows each model's answers side by side: the
multiple-choice questions 1–3, or the evaluation. Cases marked `access_restricted` are
gated: their tabs are locked and no model content is shown.

This project models the deterministic core of that script:

- `strings.dfy` (module `Strings`) holds the JavaScript string operations the script
  relies on. These are integer text and `parseInt`, `toLowerCase`, `includes`, and a
  global literal `replace`.
- `sorting.dfy` (module `Sorting`) holds `[...new Set(xs)].sort()` on strings: an
  order-keeping de-duplication, the default lexicographic order and an insertion sort.
- `format.dfy` (module `Format`) holds `formatContent`, the unescaping steps of
  `formatCitation` and the value rule of `toggleTheme`.
- `cases.dfy` (module `Cases`) holds the case index entries and what is derived from
  them. That is the filter predicate, the filtered list, the set of cases the grid
  shows, the counters, the subspecialty options, the grid cards and
  `shortenSubspecialty`.
- `explorer.dfy` (module `Explorer`) holds the detail record and the column renderer.
  Its class `ExplorerState` holds the script's module-level variables (`caseIndex`,
  `filteredCases`, `currentCaseId`, `currentCaseData`, `currentView`, `selectedMcq`). It
  also holds the parts of the page the handlers write: the tab buttons and the model
  columns are arrays of records updated in place, and the grid, counters, overlay,
  title and theme are fields. There is one method per handler.

The network is a parameter. A request's outcome is passed in as `Option<...>`, where
`None` stands for a failed request or an unreadable response. `showCaseDetail` is
split at its `await`: `OpenCard` is the click up to the request, and
`CompleteCaseDetail` is everything after the response.

Two behaviours of the code are worth stating, because a reader might expect otherwise:

- A late detail response is not discarded. `CompleteCaseDetail` stores any detail it
  is given, whatever `currentCaseId` is and whether the grid is showing.
- Selecting a view with no case open is not refused; only locked tabs are.
  `ClickTab` with no case open still updates `currentView` and `selectedMcq`, and the
  render that follows leaves every column empty.

## Model

| member | source | states |
|---|---|---|
| `Strings.IntToString` | app.js:148 | `${id}`: an optionally signed, non-empty run of decimal digits, with a minus sign exactly for negative ids |
| `Strings.ParseInt` | app.js:166 | `parseInt` on such a literal; `ParseIntToString` states that it inverts `IntToString` |
| `Strings.ParseIntToString` | app.js:149-166 | reading a card's `data-case-id` back with `parseInt` yields the case id that was written into it |
| `Strings.Lower` | app.js:126-131 | `toLowerCase`: same length, and each character is its lower-case form, which is never an upper-case letter |
| `Strings.LowerAppend` | app.js:131 | lower-casing distributes over the concatenation that builds the searchable text |
| `Strings.Includes` | app.js:132 | `includes`; `IncludesIff` states it as an occurrence at some index |
| `Strings.IncludesIff` | app.js:132 | `includes` holds exactly when the term occurs at some index of the text |
| `Strings.ReplaceAll` | app.js:297-300 | a global literal `replace`, scanning left to right without overlap; `ReplaceAllAbsent`, `ReplaceAllHead`, `ReplaceAllRemoves` and `ReplaceAllShrinks` state it |
| `Strings.ReplaceAllAbsent` | app.js:297-300 | a global replace leaves text without the pattern unchanged |
| `Strings.ReplaceAllHead` | app.js:308-309 | text that starts with the pattern is rewritten to start with the replacement, and the scan resumes after it |
| `Strings.ReplaceAllShrinks` | app.js:154 | replacing by text no longer than the pattern, such as removing every backslash, never lengthens the text |
| `Strings.ReplaceAllRemoves` | app.js:300 | replacing every `\n` by `<br>` leaves no newline |
| `Sorting.Below` | app.js:111 | the default `sort` comparison, lexicographic by character; `BelowTotal`, `BelowTransitive` and `BelowAntisymmetric` make it a total order |
| `Sorting.Sort` | app.js:111 | `.sort()` returns an ordered permutation of its input |
| `Sorting.InsertSorted` | app.js:111 | one insertion step keeps a sorted list sorted |
| `Sorting.Dedup` | app.js:111 | `new Set` keeps every value exactly once and no other value |
| `Sorting.SortedSetUnique` | app.js:111 | a sorted duplicate-free list is determined by its set of elements |
| `Format.Bold` | app.js:298 | the bold pass `/\*\*([^*]+)\*\*/g`; `BoldAbsent`, `BoldSkip` and `BoldSpan` state it |
| `Format.BoldAbsent` | app.js:298 | text with no doubled `*` has no bold span and is left unchanged |
| `Format.BoldSpan` | app.js:298 | `**a**` with `a` free of `*` becomes `<strong>a</strong>`, and scanning resumes after the closing marker |
| `Format.BoldSkip` | app.js:298 | text without `*` before the rest passes the bold pass unchanged, so with `BoldSpan` a span is replaced wherever it stands |
| `Format.FormatContent` | app.js:294-303 | empty text gives `<em>No content</em>`; other text gives a paragraph that opens with `<p>`, closes with `</p>` and holds no newline |
| `Format.FormatContentPlain` | app.js:294-303 | text with no `*` and no newline is only wrapped: `<p>` + text + `</p>` |
| `Format.FormatContentBoldParagraphs` | app.js:294-303 | `**a**`, a blank line, then `b` becomes `<p><strong>a</strong></p><p>b</p>` |
| `Format.UnescapeCitation` | app.js:305-309 | an empty citation gives the empty string, and unescaping never lengthens a citation |
| `Format.UnescapeCitationBrackets` | app.js:305-309 | `a\[b\]c` with backslash-free `a`, `b`, `c` becomes `a[b]c` |
| `Format.TwoPasses` | app.js:308-309 | two global replacements in a row each replace their one marker, and leave the text around it as it was |
| `Format.ClosingSurvivesOpening` | app.js:308 | the `\[` pass leaves an escaped closing bracket alone |
| `Format.UnescapeCitationPlain` | app.js:307-309 | a citation without a backslash passes the unescaping steps unchanged |
| `Format.NextTheme` | app.js:67 | the new theme is `light` exactly when the current one is `dark`, and `dark` otherwise |
| `Cases.Searchable` | app.js:131 | the text a search looks in: the id, title and subspecialty, space-separated and lower-cased; `SearchIgnoresTitleCase` states its case-insensitivity |
| `Cases.Keeps` | app.js:128-134 | the filter callback: an empty subspecialty or term does not filter; `FilterSound`, `FilterCounts` and `FilterEmptyIff` state the filter through it |
| `Cases.Filter` | app.js:128-135 | the filtered list is no longer than the index |
| `Cases.FilterSound` | app.js:128-135 | each entry of the filtered list is in the index and passes both tests |
| `Cases.FilterIsSubsequence` | app.js:128-135 | the filtered list keeps the index's order |
| `Cases.FilterCounts` | app.js:128-135 | each passing entry appears as often as in the index, and failing entries do not appear |
| `Cases.FilterEmptyIff` | app.js:128-135 | the filtered list is empty exactly when no entry of the index passes |
| `Cases.SearchIgnoresTitleCase` | app.js:126-132 | entries whose titles differ only in letter case pass or fail the filter together |
| `Cases.FilterKeepsAll` | app.js:125-135 | with neither a subspecialty nor a search term the whole index is kept |
| `Cases.CasesToRender` | app.js:142 | the grid shows the filtered list, or the whole index when the filtered list is empty |
| `Cases.NoMatchShowsAll` | app.js:142 | a filter that matches nothing shows every case |
| `Cases.GridMetrics` | app.js:144-146 | the session count is 4 times and the MCQ count 12 times the shown case count |
| `Cases.SubspecialtyOptions` | app.js:111 | the options are sorted, duplicate-free, and are exactly the subspecialties present in the index |
| `Cases.OptionsDependOnlyOnSubspecialties` | app.js:111 | two indexes with the same subspecialties give the same options, whatever their order or repetitions |
| `Cases.ShortenSubspecialty` | app.js:172-186 | a table name gives its short badge, and any other name is returned unchanged |
| `Cases.CardOf` | app.js:148-154 | a card carries the case id as decimal text that reads back to the id, and the shortened badge; its title is the case title with every backslash removed and nothing else changed, so a title without backslashes is kept as it is |
| `Cases.CardsOf` | app.js:148-162 | there is one card per shown case, in order |
| `Explorer.QuestionNumber` | app.js:95 | a question tab selects a number from 1 to 3 whose text is the tab's `data-question` |
| `Explorer.McqKey` | app.js:262 | the key `mcq_<n>` of the selected question; the MCQ column lemmas look items up under it |
| `Explorer.RandomAnswerLine` | app.js:281 | the random-answer line after an item's content; `McqColumnShowsItem` states where it goes |
| `Explorer.BaseLabel` | app.js:217 | a tab's label, `Evaluation` or `MCQ n`; `LockTabs` and `UnlockTabs` state the labels through it |
| `Explorer.IdText` | app.js:206 | the case id as the title prints it, `null` when no case id is set; `CompleteCaseDetail` states the title through it |
| `Explorer.ColumnContent` | app.js:253-288 | a column is empty exactly when no case is loaded or the case is restricted; a missing model gives `No data available` |
| `Explorer.MissingSessionPlaceholder` | app.js:274-285 | a model without session data shows `No evaluation available` in the evaluation view and `No data available` in the MCQ view |
| `Explorer.EvalColumnShowsEvaluation` | app.js:274-276 | with session data, the evaluation view shows the formatted evaluation (a paragraph), or `No evaluation available` when it is empty |
| `Explorer.McqColumnMissingItem` | app.js:277-285 | with session data but no entry for the selected question, the MCQ view shows `No data available` |
| `Explorer.McqColumnShowsItem` | app.js:278-282 | a present item shows its formatted content (a paragraph when non-empty) followed by its random-answer line |
| `Explorer.EvalIgnoresSelectedMcq` | app.js:274-276 | the evaluation view does not depend on the selected question |
| `Explorer.Rendered` | app.js:264-287 | rendering keeps every column's model and count, and gives each column the content `ColumnContent` chooses for its model |
| `Explorer.FilterIndex` | app.js:128-135 | the filtering loop yields exactly `Filter` of the index |
| `Cases.FilterAppend` | app.js:128-135 | an entry appended to the index is appended to the filtered list exactly when it passes |
| `Explorer.ExplorerState.constructor` | app.js:7-12 | initial state: empty index and filtered list, no case, MCQ view, question 1, grid shown |
| `Explorer.ExplorerState.ToggleTheme` | app.js:65-70 | the document theme becomes the other one |
| `Explorer.ExplorerState.LoadCaseIndex` | app.js:44-57 | on success, the index is stored, the options are added and the grid is rendered; on failure, the grid shows the failure and the index stays as it was |
| `Explorer.ExplorerState.InitFilters` | app.js:110-119 | the dropdown gains exactly the sorted distinct subspecialties |
| `Explorer.ExplorerState.AppendOptions` | app.js:113-118 | each value becomes one more option, in order, after the existing ones |
| `Explorer.ExplorerState.RenderCaseGrid` | app.js:141-162 | the grid holds the cards and counters of the shown cases |
| `Explorer.ExplorerState.FilterAndRender` | app.js:121-138 | returns to the grid with no case open, recomputes the filtered list from the unchanged index, and renders the grid |
| `Explorer.ExplorerState.OpenCard` | app.js:164-196 | clicking card k opens the case shown at k, hides the grid and puts the loading message in every column |
| `Explorer.ExplorerState.CompleteCaseDetail` | app.js:198-243 | a failed load marks every column failed and changes nothing else; a loaded detail is stored, gated and rendered |
| `Explorer.ExplorerState.ShowLoadFailure` | app.js:238-242 | every column shows `Failed to load data` |
| `Explorer.ExplorerState.LockTabs` | app.js:212-219 | restricted case: every tab locked, none active, each label with the lock suffix |
| `Explorer.ExplorerState.UnlockTabs` | app.js:220-235 | unrestricted case: no tab locked, only tab "1" active, labels `MCQ n` or `Evaluation` |
| `Explorer.ExplorerState.ShowCaseGrid` | app.js:246-251 | the grid is shown and no case id or detail remains |
| `Explorer.ExplorerState.ClickTab` | app.js:80-105 | a locked tab changes nothing; otherwise the view and question follow the tab, exactly the clicked tab is active, and the columns are re-rendered |
| `Explorer.ExplorerState.RenderModelComparison` | app.js:253-288 | every column gets the content for its model under the current state |
| `Explorer.RestrictedCaseIgnoresTabs` | app.js:84-87 | after a restricted case loads, clicking any tab keeps the selection and every column stays empty |
| `Explorer.FilterClearsColumns` | app.js:121-123 | after filtering, no case is open and a render clears every column |

## Left out

- Network requests and JSON parsing (app.js:44-57, 198-203): a request's outcome is a parameter.
- A response that parses but is not a record of the expected shape is not modelled. For example, JSON `null` or an error object would pass the assignment and then fail later inside the `try`. `None` covers only failures before `currentCaseData` is assigned.
- The citation's link rewriting (app.js:310-314) is not modelled, so `caseCitation` is not part of the state. Its regular expressions rely on optional groups and backtracking. Only the empty rule and the `\[`/`\]` unescaping are modelled.
- `debounce` (app.js:318-328), the pressed-button animation and its timer (app.js:85-86), and the event-listener wiring are left out. They are timing and browser plumbing.
- `localStorage` and the initial theme read (app.js:60-63, 69) are left out. Only the value rule of the toggle is modelled.
- HTML templating of cards and placeholders is abstracted. A card is a record of its id text, badge and title, and a tab is a record of its question, classes and label. The code does no HTML escaping, and the model claims none.
- `isFullAccessMode` (app.js:290-292) is not modelled because nothing calls it.
- `Strings.Lower`: lower-cases the ASCII letters only, whereas `toLowerCase` also folds other Unicode letters.
- `Sorting.Sort`: compares characters by code point, whereas the default `sort` compares UTF-16 code units. The two orders differ only between supplementary-plane characters and BMP characters above U+D7FF.
- `Strings.IntToString`: prints every integer in plain decimal. JavaScript prints numbers of magnitude 10^21 or more in exponent form (`1e+21`), which `parseInt` reads back as 1, so case ids are taken to be below 10^21; numbers above 2^53 are also not exact in JavaScript, and this is not modelled.
- `Strings.ParseInt`: only optionally signed decimal digit strings are parsed. The script only ever parses ids it printed and the tab values "1", "2" and "3".
- `Cases.ShortenSubspecialty`: a JavaScript object lookup would also find inherited names such as `constructor`. The model uses a plain map.
- An absent `evaluation` or MCQ `content` is modelled as the empty string. The script treats both the same way because both are falsy. An absent `random_answer` would print as `undefined`, and this is not modelled.
