# codeX search box and search history, verified in Dafny

codeX is a one-page front end for GitHub code search. The user types free text. The page
turns it into a code-search query and opens `https://github.com/search?q=<query>&type=code`
in a new tab. It also keeps the last fifteen searches in a list persisted in the
browser's `localStorage`, and any entry in that list can be deleted.

This project models the two parts of `src/assets/js/index.js` that carry logic:

- **Query construction** (module `Query`, with the JavaScript string built-ins it relies on
  in module `JsString`). `sanitizeInput` turns every forbidden character
  (`` . , : ; / \ ` ' " = * ! ? # $ & + ^ | ~ < > ( ) { } [ ] @ ``) into a space. It then
  collapses runs of two or more spaces into one and trims the ends. `buildQueryString`
  splits on spaces and joins with `+`. `searchHandler` trims the raw text, sanitizes it,
  gives up if nothing is left, and otherwise builds the query from at most 256 sanitized
  characters. `searchGitHubNewTab` builds the URL. These are pure functions, and lemmas
  prove their properties: no forbidden characters, no doubled spaces, no whitespace at
  the ends, idempotence, `buildQueryString` as a reversible space-to-`+` replacement,
  the 256-character bound and the exact URL.
- **The search history** (module `History`). The module-level `searchHistory` array and
  its copy under the storage key `codex_search_history` are the fields `history` and
  `stored` of the class `HistoryStore`. `Append` pushes a record and shifts off the oldest
  one when the length exceeds 15. `RemoveByTime` keeps only the records whose `time`
  differs from the given one. Both rewrite the stored copy. The methods are specified by
  the functions `Appended` and `Removed`. Lemmas about those functions prove the FIFO
  bound, that the latest fifteen records survive any series of appends, and that
  deletion is precise, keeps order and is idempotent.
- **The search flow** (module `Search`) ties the two together. An empty sanitized text
  leaves history and storage untouched and opens nothing. Any other text appends exactly
  one record and returns the URL to open.

Strings are `seq<char>`. `time` is an unbounded `int`. Persisted storage is
`Option<seq<SearchRecord>>`, where `None` means the key is absent.

Three facts about `index.js` shape the history model:

- Line 8 reads the stored value with `JSON.parse` and no try/catch, so a malformed stored
  value throws. The model does not treat it as an empty history.
- Nothing at line 8 cuts the loaded history down to fifteen records. The bound of fifteen
  is preserved by appends (lines 30-32), not established by loading.
- `addToSearchHistory` (lines 28-36) returns nothing. It renders the record instead.

## Model

| member | source | states |
|---|---|---|
| `JsString.TrimStart` | src/assets/js/index.js:63 | the start of `trim`: the result is no longer than the input and does not start with whitespace |
| `JsString.TrimStartSpec` | src/assets/js/index.js:63 | the start of `trim` drops exactly the longest all-whitespace prefix: the kept part is a suffix that does not start with whitespace |
| `JsString.TrimEnd` | src/assets/js/index.js:63 | the end of `trim`: the result is no longer than the input and does not end with whitespace |
| `JsString.TrimEndSpec` | src/assets/js/index.js:63 | the end of `trim` drops exactly the longest all-whitespace suffix |
| `JsString.Trim` | src/assets/js/index.js:82 | the trimmed text is no longer than the input and neither starts nor ends with whitespace |
| `JsString.TrimSpec` | src/assets/js/index.js:63 | `trim` keeps one slice of the input, and everything before and after that slice is whitespace |
| `JsString.TrimOfTrimmed` | src/assets/js/index.js:63 | a text with no whitespace at either end is unchanged by `trim` |
| `JsString.Join` | src/assets/js/index.js:70 | `join(sep)`: a non-empty array joins to text whose length is the pieces' total plus one separator between each two, and which starts with the first piece |
| `JsString.Split` | src/assets/js/index.js:70 | `split(' ')` gives at least one piece, no piece contains the separator, and joining the pieces with the separator restores the input |
| `JsString.ReplaceChar` | src/assets/js/index.js:70 | reference definition of a character replacement: same length, each `a` becomes `b`, every other character stays in place, and when `a` differs from `b` no `a` is left |
| `JsString.JoinSplitIsReplace` | src/assets/js/index.js:70 | `s.split(a).join(b)` equals replacing each `a` by `b` |
| `JsString.ReplaceCharRoundTrip` | src/assets/js/index.js:70 | replacing `a` by a character `b` not in the text, then `b` back by `a`, restores the text |
| `Query.ReplaceForbidden` | src/assets/js/index.js:63 | first step of `sanitizeInput`: same length, no character of the forbidden set from line 5 is left, each forbidden character becomes a space, all others stay in place |
| `Query.CollapseSpaces` | src/assets/js/index.js:63 | second step of `sanitizeInput`: no two spaces in a row, no new characters, first and last character kept |
| `Query.CollapseSpacesRemovesOnlyDoubles` | src/assets/js/index.js:63 | collapsing keeps all non-space characters in order and removes as many spaces as were followed by a space |
| `Query.CollapseSpacesOfRun` | src/assets/js/index.js:63 | a run of one or more spaces collapses to a single space |
| `Query.CollapseSpacesOfMaximalRun` | src/assets/js/index.js:63 | a maximal run of spaces becomes one space in the same place, and the texts on either side are collapsed on their own |
| `Query.CollapseSpacesOfSingleSpaced` | src/assets/js/index.js:63 | a text without doubled spaces is unchanged by collapsing |
| `Query.CollapseSpacesConcat` | src/assets/js/index.js:63 | collapsing works piecewise across a boundary that is not between two spaces |
| `Query.Sanitize` | src/assets/js/index.js:63 | the output of `sanitizeInput` is clean: no forbidden character, no two consecutive spaces, no whitespace at either end |
| `Query.SanitizeOfClean` | src/assets/js/index.js:63 | a clean text is its own sanitization |
| `Query.SanitizeIdempotent` | src/assets/js/index.js:63 | sanitizing an already sanitized text returns it unchanged |
| `Query.SanitizeFixedPoints` | src/assets/js/index.js:63 | a text is left unchanged by `sanitizeInput` if and only if it is clean |
| `Query.TrimCollapseAround` | src/assets/js/index.js:63 | whitespace around a text disappears under collapse-then-trim, and collapse-then-trim equals trim-then-collapse |
| `Query.SanitizeIgnoresOuterWhitespace` | src/assets/js/index.js:82-84 | trimming the raw text before sanitizing does not change the sanitized text; it changes only the recorded original query |
| `Query.SanitizedHasNoPlus` | src/assets/js/index.js:5 | `+` is forbidden, so a sanitized text contains no `+` |
| `Query.BuildQueryString` | src/assets/js/index.js:70 | `buildQueryString`, written as `split(' ')` then `join('+')`, equals the reference replacement of each space by `+` |
| `Query.BuildQueryStringReplacesSpaces` | src/assets/js/index.js:70 | `buildQueryString` replaces each space by `+` and nothing else: same length, no space left, and on a text without `+` turning `+` back into spaces restores the input |
| `Query.Truncate` | src/assets/js/index.js:89-90 | `slice(0, n)` keeps a prefix of the text: exactly `n` characters of a longer text, and a text of at most `n` characters whole |
| `Query.SearchUrl` | src/assets/js/index.js:45 | the URL starts with `https://github.com/search?q=`, ends with `&type=code`, and has the query between them, so the query can be read back out of it |
| `Query.PlanSearch` | src/assets/js/index.js:82-91 | the decision of `searchHandler`: a planned search records the trimmed input, and its query has 1 to 256 characters and no space |
| `Query.PlanSearchNone` | src/assets/js/index.js:82-97 | no search happens if and only if the trimmed, sanitized input is empty |
| `Query.PlanSearchSome` | src/assets/js/index.js:82-91 | a planned search records the trimmed input. Its query is the first `min(len, 256)` sanitized characters with spaces turned into `+`: 1 to 256 characters, no space, and decodable back to the truncated text. Its URL is `https://github.com/search?q=` + query + `&type=code` |
| `Query.TruncationCanLeaveTrailingPlus` | src/assets/js/index.js:87-91 | when the sanitized text is longer than 256 characters and its 256th character is a space, the query is 256 characters long and ends with `+` |
| `Query.TrailingPlusWitness` | src/assets/js/index.js:87-91 | an input whose query ends with `+` exists (255 letters, a space, one more letter) |
| `Query.ExampleSearch` | src/assets/js/index.js:82-91 | `foo/bar baz!!` is searched as `foo+bar+baz` at `https://github.com/search?q=foo+bar+baz&type=code` |
| `Query.ExampleBlankSearch` | src/assets/js/index.js:82-87 | a blank input leads to no search |
| `History.Appended` | src/assets/js/index.js:29-33 | the history after `addToSearchHistory`: the new record is last, and the history grows by one while below 15 records and keeps its length otherwise |
| `History.AppendedSpec` | src/assets/js/index.js:28-33 | after `addToSearchHistory` the new record is last. A history of at most 15 stays at most 15. An overflowing append removes exactly the oldest record and keeps the rest in order. Any other append removes nothing |
| `History.AppendedLatest` | src/assets/js/index.js:28-33 | one append moves the window of the latest fifteen records on by one |
| `History.AppendAllKeepsLatest` | src/assets/js/index.js:28-33 | from a history of at most 15 records, any series of appends leaves exactly the latest 15 of all records, oldest first |
| `History.AppendAllFromEmpty` | src/assets/js/index.js:28-33 | from an empty history, the appended records are kept while there are at most 15, and only the latest 15 afterwards |
| `History.SixteenthAppendEvictsFirst` | src/assets/js/index.js:28-33 | sixteen appends with distinct timestamps to an empty history keep records 2 to 16 in order, and the first is gone |
| `History.Removed` | src/assets/js/index.js:179 | after `deleteSearchHistoryItem(t)` no record has `time == t`, and every kept record was in the history |
| `History.RemovedDistributes` | src/assets/js/index.js:179 | deletion works record by record, so the kept records keep their relative order |
| `History.RemovedKeepsOthers` | src/assets/js/index.js:179 | every record whose `time` differs from `t` survives the deletion |
| `History.RemovedAbsent` | src/assets/js/index.js:179 | deleting a timestamp that no record carries changes nothing |
| `History.RemovedIdempotent` | src/assets/js/index.js:179 | deleting twice is the same as deleting once |
| `History.RemovedCount` | src/assets/js/index.js:179 | deletion removes exactly as many records as carry the timestamp, and none if and only if no record carries it |
| `History.UniqueTimesOccurOnce` | src/assets/js/index.js:178-183 | when timestamps are unique, the deletion key matches at most one record |
| `History.RemovedUniquePresent` | src/assets/js/index.js:178-183 | when timestamps are unique, deleting a present timestamp removes exactly one record |
| `History.Load` | src/assets/js/index.js:8 | the history read at start-up is the stored array when the key is present, and empty when it is absent |
| `History.HistoryStore.constructor` | src/assets/js/index.js:8 | at start-up the history is the stored array, or empty when the key is absent, and nothing is written |
| `History.HistoryStore.Append` | src/assets/js/index.js:28-34 | the history becomes `Appended(old history, r)` and the stored copy equals the new history. A bounded history stays bounded, and the record is last |
| `History.HistoryStore.RemoveByTime` | src/assets/js/index.js:178-183 | the history becomes `Removed(old history, t)` and the stored copy equals the new history. A bounded history stays bounded |
| `Search.SearchGitHubNewTab` | src/assets/js/index.js:44-54 | returns `https://github.com/search?q=` + query + `&type=code` and appends exactly one record carrying the original query, the timestamp, the query and that URL |
| `Search.SearchHandler` | src/assets/js/index.js:77-97 | when the input sanitizes to nothing, history and storage are unchanged and nothing is opened. Otherwise the planned record is appended, storage mirrors the history, and the planned URL is returned for opening |

## Left out

- DOM rendering (`formatTime`, `svgIcon`, `historyItem`, `renderHistoryItem`, `renderHistory`, `deleteSearchHistoryItemFromDom`, lines 103-203): these only build markup or change the page. This includes the `renderHistoryItem` call at line 35 and the removal of the list element after a deletion.
- Event wiring (`enterKeyListener`, `historyListHandlers`, `handleItemDeletion`, `addListeners`, `main`, lines 189-241): UI plumbing. So are `preventDefault`/`stopPropagation` and the clearing of the input field at line 94.
- `window.open` (line 53): `SearchHandler` returns the URL to open instead.
- `Date.now()` (line 48): the timestamp is a parameter.
- JSON text and `localStorage`: the stored value is modelled as an already-parsed array. `JSON.stringify`/`JSON.parse` and their round trip are not modelled.
- History.HistoryStore.constructor: a stored value that is not valid JSON makes line 8 throw. Stored values that parse to a falsy value such as `null` or `false` become `[]` through `|| []`. Neither case is modelled; the constructor takes an absent key or a parsed array.
- History.HistoryStore.RemoveByTime: the deletion id is taken as an `int`. The `parseInt` of the element's `data-id` string at line 179 is a library call. An id it reads as `NaN` would match no record, which is the absent-timestamp case.
- History.HistoryStore.Append: storage writes are assumed to succeed. `localStorage.setItem` at line 34 can throw, for example when the quota is full. By then lines 29-32 have already changed the in-memory history, so the stored copy would lag behind it. The model always ends with the stored copy equal to the history.
- History.HistoryStore.RemoveByTime: storage writes are assumed to succeed. If `setItem` at line 182 throws, line 181 has already removed the key and line 179 has already filtered the history, so no stored history is left at all. The model always ends with the stored copy equal to the history.
- History.HistoryStore: the storage key `codex_search_history` is assumed to be written only by this page instance, which is what the invariant `Valid` (the stored copy equals the in-memory history) relies on. `localStorage` is shared by every tab of the same origin, and the page reads it only once, at line 8. With several tabs open, the last writer wins: a tab's `setItem` at line 34 or 182 overwrites the records another tab stored, and those records are lost from storage.
- JsString.IsWs: the whitespace set of `String.prototype.trim` is written out from the ECMAScript definition. It is not derived from a Unicode database.
- Query.Truncate: JavaScript string lengths count UTF-16 code units. Here a character is a Unicode scalar value, so for text outside the Basic Multilingual Plane the 256 limit counts differently, and the model cannot split a surrogate pair.
- The regular-expression engine is not modelled. The two patterns of line 63 are restated as the functions `ReplaceForbidden` and `CollapseSpaces`.
- Timestamp uniqueness is not enforced by the source and not assumed by the model. It appears only as the hypothesis of `UniqueTimesOccurOnce` and `RemovedUniquePresent`.
