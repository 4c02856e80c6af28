# Link hub: the link-list pipeline, in Dafny

The link hub is a single-page React app. It reads `links.csv` and turns each line into a
`Link` record (`id`, `title`, `url`, `icon`, optional `description` and `tags`). It then
narrows the records with a search box. On a narrow (mobile) screen it shows them five at
a time, with Kembali (back) and Lanjut (next) buttons; on a wide screen it shows them all
at once. This project models that pipeline, in `App.tsx`, and proves what it does:

- `text.dfy` holds the JavaScript string operations the pipeline uses: `trim`, `split`
  on one character, `replace(/"/g, '')`, `toLowerCase` (ASCII letters) and `includes`.
- `csv_tokens.dfy` holds the row tokenizer `/(".*?"|[^",]+)(?=\s*,|\s*$)/g`.
  - It models the regex match by match: the lazy quoted alternative, the greedy unquoted
    alternative, the look-ahead, and a one-character step where no match starts.
  - It proves what the tokenizer yields on a well-formed line: the fields in order, with
    empty fields yielding no token.
- `int_parsing.dfy` holds `parseInt(s, 10)`, with `NaN` written `None`.
- `links.dfy` builds the records.
  - The `reduce` that builds each record object is a method with a loop.
  - It also covers the icon table, the description and tags rules, and the whole parse.
- `search.dfy` holds the search filter.
- `pagination.dfy` holds `totalPages` and the page slice.
- `navigation.dfy` holds the component state as a class.
  - Its fields are the links, the loading flag, the query, the screen width and the
    current page.
  - Its methods are the state changes, and an invariant that every method keeps.

## Model

| member | source | states |
|---|---|---|
| `Text.TrimIsSlice` | App.tsx:41 | `trim` yields the slice of the text between its leading and its trailing whitespace, and the result neither starts nor ends with whitespace |
| `Text.TrimOfTrimmed` | App.tsx:52 | text without whitespace at either end is its own trim |
| `Text.JoinSplit` | App.tsx:35 | splitting on a character loses nothing: joining the pieces with that character gives the text back |
| `Text.SplitJoin` | App.tsx:52 | splitting a join of pieces that do not contain the separator gives back exactly those pieces |
| `Text.SplitCount` | App.tsx:35 | a split yields one piece more than there are separators |
| `Text.RemoveQuotes` | App.tsx:41 | `replace(/"/g, '')` leaves no `"`, keeps every other character, and shortens the text by its number of quotes |
| `Text.RemoveQuotesAppend` | App.tsx:41 | removing quotes works part by part: the result for a concatenation is the results for its parts, in order |
| `Text.RemoveQuotesOfQuoted` | App.tsx:41 | a body without quotes, written between two quotes, comes back unchanged |
| `Text.Lower` | App.tsx:81-83 | `toLowerCase` maps each capital A-Z to its small letter and keeps every other character, position by position |
| `Text.Includes` | App.tsx:81-83 | `includes` is true exactly when the needle occurs at some position of the text |
| `Text.IncludesEmpty` | App.tsx:81 | the empty string occurs in every text |
| `CsvTokens.FieldEndsIffSomeWay` | App.tsx:39 | skipping all leading whitespace decides the look-ahead (whitespace, then a comma or the end of the line) exactly as the backtracking `\s*` does |
| `CsvTokens.ShortestQuoted` | App.tsx:39 | the lazy `".*?"` ends at the first closing quote followed by a field end, never crossing a line terminator; no earlier end works |
| `CsvTokens.LongestUnquoted` | App.tsx:39 | the greedy `[^",]+` ends at the last position of its run followed by a field end; no later end works |
| `CsvTokens.MatchAt` | App.tsx:39 | a match starts at a position exactly when one of the two alternatives can end there, the quoted one taking priority after a `"`; its length is the first closing quote followed by a field end, or the longest run followed by one |
| `CsvTokens.Tokens` | App.tsx:39 | every token is a quoted span, or a non-empty run without `"` and `,` |
| `CsvTokens.TokensOfFields` | App.tsx:39 | on a line of well-formed fields, the tokens are the fields in order, minus the empty plain ones |
| `CsvTokens.TokensOfPlainLine` | App.tsx:39 | a line of unquoted fields yields its non-empty fields as tokens |
| `CsvTokens.OneEmptyPiece` | App.tsx:39-41 | with exactly one empty field, every later field moves one place to the left |
| `CsvTokens.TokensPastEmptyField` | App.tsx:39 | a line of unquoted fields with exactly one empty field yields every other field, those after the empty one a place further left |
| `IntParsing.LeadingDigits` | App.tsx:47 | the digits `parseInt` reads are the longest run of digits at the start |
| `IntParsing.ParseInt` | App.tsx:47 | `parseInt` yields `NaN` exactly when no digit follows the leading whitespace and an optional sign |
| `IntParsing.ParseIntOfDecimal` | App.tsx:47 | `parseInt` reads back any integer written in decimal, also when text that does not start with a digit follows it |
| `Links.IconFor` | App.tsx:50 | an icon name that is one of the five keys gives its glyph; any other name, or a missing column, gives Globe |
| `Links.IconKeysDistinct` | App.tsx:12-18 | the five keys of the icon table are pairwise different |
| `Links.IconLookupAsWritten` | App.tsx:50 | indexing the object literal yields the inherited `Object.prototype` member of that very name exactly for those member names, and the own-key glyph otherwise |
| `Links.InheritedIconName` | App.tsx:12-18 | the name `constructor` escapes the Globe fallback as written |
| `Links.EntryOfValues` | App.tsx:40-44 | after the first `n` headers, every one of them is a key, and each holds the field at its last position among them |
| `Links.EntryOfKeys` | App.tsx:40-44 | the object has no key beyond the headers processed so far |
| `Links.EntryKeys` | App.tsx:40-44 | the record's keys are exactly the header names |
| `Links.BuildEntry` | App.tsx:40-44 | the `reduce` loop builds exactly the record `Entry` describes |
| `Links.ColumnByIndex` | App.tsx:41-42 | a column reads the token at the header's last position, with quotes removed and trimmed, or `''` when the line has fewer tokens |
| `Links.ColumnMissing` | App.tsx:41-42 | a column the header row lacks reads as `undefined`, as it does in the source for each of the six names the link reads (`id`, `title`, `url`, `icon`, `description`, `tags`) |
| `Links.DescriptionOf` | App.tsx:51 | the description is present exactly when the column is present and non-empty, and then it is the column's value |
| `Links.TrimAll` | App.tsx:36 | every header (or tag) is trimmed, position by position |
| `Links.TagsOf` | App.tsx:52 | tags are present exactly when the column is non-empty; the column is then some pieces without `;` joined by `;`, and tag `i` is piece `i` trimmed; there is one more tag than there are `;`, and each tag is trimmed and holds no `;` |
| `Links.TagPieces` | App.tsx:52 | the trimmed pieces of a split on `;` are one more than the `;`, each trimmed and without `;`, and each the trimmed piece that joins back into the field |
| `Links.TagsOfJoin` | App.tsx:52 | pieces without `;` written with `;` between them are parsed back to the same pieces trimmed, in order |
| `Links.TagsRoundTrip` | App.tsx:52 | trimmed tags written with `;` between them are parsed back to the same tags, in order |
| `Links.Lines` | App.tsx:35 | the trimmed text has one line more than it has line breaks |
| `Links.LinkByPosition` | App.tsx:46-53 | each field of a link is the converted value at its column's last header position: `parseInt` for `id`, the icon table for `icon`, the description and tags rules |
| `Links.LinkMissingColumns` | App.tsx:47-52 | a missing `id`, `icon`, `description` or `tags` column gives no id, Globe, no description and no tags |
| `CsvTokens.RemoveQuotesOfRender` | App.tsx:41 | removing the quotes of a written well-formed field gives back its text, or its body for a quoted field |
| `Links.ColumnsOfFields` | App.tsx:39-44 | on a line of non-empty well-formed fields, each header's column holds its own field's text (the body, for a quoted field), trimmed |
| `Links.ValuesShiftPastEmptyField` | App.tsx:39-41 | with one empty field, the columns before it read their own field, and from it on each column reads the next field, the last one `''` |
| `Links.FullRow` | App.tsx:37-53 | a complete sample row becomes the expected record, with the tags split and trimmed |
| `Links.EmptyFieldShifts` | App.tsx:39-52 | a sample row with an empty icon field puts the description in `icon` (so Globe), the tags in `description` and no tags |
| `Links.BuildLinks` | App.tsx:37 | one link per data line, in order |
| `Links.ParseCsv` | App.tsx:35-53 | the parse yields one link per line after the header row, that is one per line break of the trimmed text, in line order |
| `Search.SomeTagIncludes` | App.tsx:83 | true exactly when some lowercased tag contains the query |
| `Search.FilterMembers` | App.tsx:80-84 | the filter keeps only elements of the list that the callback accepts, and drops no accepted element |
| `Search.FilterLinks` | App.tsx:79-84 | a link is in the result exactly when it is in the list and its lowercased title, description or some tag contains the lowercased query |
| `Search.FilterKeepsOrder` | App.tsx:80-84 | the result is the list at strictly increasing positions, which are exactly the positions of the accepted elements |
| `Search.SearchKeepsOrder` | App.tsx:79-84 | the search result is the list of links at exactly the matching positions, in their original order |
| `Search.EmptyQueryKeepsAll` | App.tsx:79-84 | an empty query keeps every link, in order |
| `Search.FilterIdempotent` | App.tsx:80-84 | filtering the filtered list again changes nothing |
| `Search.SearchIdempotent` | App.tsx:79-84 | searching the result again with the same query changes nothing |
| `Pagination.TotalPages` | App.tsx:90 | on a narrow screen the page count is the least number of pages of five that holds every link, `ceil(n / 5)`; on a wide screen it is 1 |
| `Pagination.SliceBound` | App.tsx:92 | `slice` leaves a position inside the list unchanged, turns a position past the end into the length, and counts a negative position from the end, stopping at 0 |
| `Pagination.PageContents` | App.tsx:91-93 | page `p` is the filtered list from position `(p - 1) * 5` up to `min(p * 5, n)` |
| `Pagination.PageSize` | App.tsx:91-93 | no page holds more than five links, and every page from 1 to the last is non-empty |
| `Pagination.WideScreenShowsAll` | App.tsx:90-93 | on a wide screen there is one page, and it is the whole filtered list |
| `Pagination.PagesOutsideRange` | App.tsx:92 | page 0 and every page past the last are empty |
| `Pagination.PagesFromRest` | App.tsx:92 | the pages from `p` to the last together are the list from page `p`'s first position on |
| `Pagination.PagesCoverList` | App.tsx:92 | pages 1 to `totalPages` together give back the filtered list: every link is on exactly one page, in order |
| `Pagination.TwelveLinks` | App.tsx:90-92 | twelve links make three pages of five, five and two, and page four is empty |
| `Navigation.LinkHub.View` | App.tsx:134-142 | the section shows the loading message exactly while loading, the cards of the current page when that page is non-empty, and the empty-state message exactly when loading is over and the page is empty |
| `Navigation.LinkHub.constructor` | App.tsx:22-27 | the first state: no links, loading, empty query, page 1, and the invariant holds |
| `Navigation.LinkHub.FinishLoading` | App.tsx:55-59 | the loaded links replace the empty list (or stay empty on failure), loading ends, the page is 1 and the invariant holds |
| `Navigation.LinkHub.SetSearchQuery` | App.tsx:86-88 | typing in the search box (the setter at App.tsx:121) followed by the reset effect: a new query sends the page back to 1, the same query keeps it, nothing else changes, and the invariant holds |
| `Navigation.LinkHub.SetIsMobile` | App.tsx:86-88 | a resize (the handler at App.tsx:70) followed by the reset effect: a change of screen width sends the page back to 1, the same width keeps it, nothing else changes, and the invariant holds |
| `Navigation.LinkHub.GoBack` | App.tsx:145-153 | Kembali lowers the page by one only when the pager is shown and the page is not 1, and the invariant holds |
| `Navigation.LinkHub.GoForward` | App.tsx:157-163 | Lanjut raises the page by one only when the pager is shown and the page is not the last, and the invariant holds |
| `Navigation.PageInRange` | App.tsx:145-163 | whenever some link passes the search, the page lies in `1..totalPages`, and Lanjut is disabled exactly on the last page |
| `Navigation.CardsIffMatches` | App.tsx:134-142 | with a valid page, the page shown is non-empty exactly when the filtered list is |
| `Navigation.ViewShowsMatches` | App.tsx:134-142 | once loaded, the section shows cards exactly when some link passes the search |
| `Navigation.ForwardThenBack` | App.tsx:148-158 | Lanjut followed by Kembali returns to the same page and changes nothing else |

## Left out

- The `fetch` of `/links.csv`, `async`/`await` and the catch-and-log path (App.tsx:28-63) are I/O. The parse starts from the CSV text. `FinishLoading` takes the parsed links, or `None` for a failure, which leaves the list empty.
- Links.ParseCsv: requires a `title` and a `url` column, because the model's `Link` holds both as strings and has no `undefined`. The source parses a file without such a column with no error: the record's field is just `undefined`. A missing `url` column stays harmless, since the search never reads `url` and the card only passes it on as the link target. A missing `title` column makes the search throw on `title.toLowerCase()`, but only once there is a data line to filter; a file with only the header row shows no links either way. The parse of such files is not modelled.
- Links.IconFor: the record's `icon` is the glyph, not a React element. The inherited-member case is kept apart in `IconLookupAsWritten` (see Findings).
- The record object is a map. A header named `__proto__` would not become an own key of a JavaScript object, and reading a column the header row lacks gives an inherited `Object.prototype` member when the name is one (`entry.toString`). The link reads only `id`, `title`, `url`, `icon`, `description` and `tags`, none of which is inherited, so the links are the same.
- IntParsing.ParseInt: the result is an unbounded integer. JavaScript numbers lose precision past 2^53, and `-0` is read as 0.
- Text.Lower: only ASCII capitals are lowercased. Unicode and locale case mapping is not modelled.
- Strings are sequences of Unicode characters rather than UTF-16 code units. Text outside the Basic Multilingual Plane is not modelled unit by unit.
- The reset effect runs right after the render that changed the query or the screen width. For that one render the old page is still shown. `SetSearchQuery` and `SetIsMobile` combine the change and the effect into one step.
- The theme, `localStorage`, the resize listener (App.tsx:65-77), `LinkCard`, `ThemeSwitcher`, `DigitalClock` and all styling are presentation. `themes.ts` is not part of this model.

## Findings

| source | as written | input that shows it | evidently intended | confidence | as-written member | corrected member |
|---|---|---|---|---|---|---|
| App.tsx:50 | the icon lookup indexes a plain object literal, so a name such as `constructor` or `toString` finds a member inherited from `Object.prototype`; that member is truthy, so it skips the Globe fallback and becomes the link's icon, a function rather than a glyph (`Links.InheritedIconName` exhibits it) | a row whose `icon` field is `constructor` | only the five own keys name glyphs; every other name falls back to Globe | not executed | `Links.IconLookupAsWritten` | `Links.IconFor` |
