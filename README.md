# Egyptian Exchange stocks — a Dafny model of the scraper, the settings rules and the news manager

The application is an Electron desktop viewer for the Egyptian Exchange. Its main process holds
the settings and the window. It polls a scraper, which downloads the exchange's market page and
pulls one record per listed instrument out of the HTML table with two regular expressions. When
the download or the parse gives nothing, the scraper falls back to two fixed records. A separate
command-line tool keeps the list of news items the application shows.

This project models those parts in Dafny and proves what they promise.

- `wrappers.dfy`, module `Wrappers`. The `Option` type stands for a JavaScript value that may be
  `undefined` or `null`. `Present` keeps the values of a sequence of options in order.
- `js_text.dfy`, module `JsText`. The JavaScript string operations the code relies on:
  - the leftmost search for a literal, as `exec` and `replace` perform it (the code never calls
    `indexOf`);
  - `trim`, with ECMAScript's white-space set;
  - global replacement of a literal pattern;
  - removal of `<…>` tags;
  - replacement of the first occurrence of a string;
  - `toLowerCase`.
- `html_scan.dfy`, module `HtmlScan`. `RegExp.prototype.exec` for the patterns
  `/<tr[^>]*>(.*?)<\/tr>/gs` and `/<td[^>]*>(.*?)<\/td>/gs`. `NextElement` is shown to return the
  leftmost match, with the lazy body. Also the cleaning chain applied to every cell.
- `web_scraper.dfy`, module `WebScraper`. The stock records. The extractor, written twice:
  - as the specification function `ParsedStocks`;
  - as the loop method `ParseHTMLWithRegex`, proved equal to it.

  Also the fallback records, the fetch decision, and the class `EgyptianExchangeScraper` with its
  start/stop/interval state. A timer is a `TimerId` in the set of armed timers. A callback is a
  `CallbackId`. Every call of a callback is logged in `deliveries`.
- `main_process.dfy`, module `MainProcess`:
  - the settings object as a map, and its shallow merge;
  - the window-position restore rule;
  - the `moved` and `resized` handlers on a `SettingsStore` class, which logs every write of
    `settings.json`;
  - the release-tag normalisation;
  - the stand-in `MockScraper`.
- `news_manager.dfy`, module `NewsManager`:
  - the news list;
  - `addNews`, `removeNews` and `markAllRead` as methods of a `NewsStore` class over the file's
    parsed contents;
  - the `list` preview;
  - the dispatch of `main`.

The regular expression `cellRegex` is global and shared by all rows. Each inner loop runs until
`exec` returns `null`, which resets `lastIndex` to 0. So every row is scanned from its start, and
the model scans each row from 0.

## Model

| member | source | states |
|---|---|---|
| JsText.IndexOf | webScraper.js:122 | the reported position is the first occurrence of the pattern at or after the start, and no occurrence exists when none is reported |
| JsText.Trim | webScraper.js:141 | the result has no white space at either end, and a string that has none is left unchanged |
| JsText.TrimKeepsMiddle | webScraper.js:141 | trimming keeps a contiguous middle part of the string exactly, and what it drops before and after it is white space only |
| JsText.TrimEmptyIffAllSpace | webScraper.js:141 | trimming gives the empty string exactly when the string is all white space |
| JsText.NoOccurrenceInTrim | webScraper.js:141 | trimming cannot create an occurrence of a pattern |
| JsText.ReplaceAll | webScraper.js:137-140 | the global replacement of a literal pattern; a text shorter than the pattern is unchanged, and what it yields otherwise is characterised by the `ReplaceAll` lemmas that follow |
| JsText.ReplaceAllLeavesNoPattern | webScraper.js:137-140 | when the replacement text shares no character with the pattern, no occurrence of the pattern remains after one global pass |
| JsText.ReplaceAllWithoutPattern | webScraper.js:137-140 | a global replacement of an absent pattern changes nothing |
| JsText.ReplaceAllFromLeftmost | webScraper.js:137-140 | the text before the leftmost occurrence is kept, that occurrence becomes the replacement, and the replacement goes on after it |
| JsText.ReplaceAllSingleOccurrence | webScraper.js:137-140 | a single occurrence whose first character appears nowhere else is the only thing replaced |
| JsText.ReplaceAllLength | webScraper.js:137-140 | a replacement as long as the pattern keeps the length, and a shorter one never lengthens the text |
| JsText.StripTags | webScraper.js:136 | tag removal never lengthens the text |
| JsText.StripTagsRemovesFirstTag | webScraper.js:136 | the text before the first `<` is kept, the first tag (from that `<` to the first `>` after it) is removed, and removal goes on after it |
| JsText.StripTagsLeavesNoTag | webScraper.js:136 | after tag removal no `<…>` remains |
| JsText.StripTagsKeepsUntagged | webScraper.js:136 | a string without a tag is left as it is |
| JsText.StripTagsIdempotent | webScraper.js:136 | removing tags twice is removing them once |
| JsText.ToLowerCase | news-manager.js:73 | same length, each character lower-cased, no upper-case letter left |
| JsText.ReplaceFirst | main.js:471 | an absent pattern leaves the string unchanged; otherwise exactly one occurrence is replaced, so the length changes by the difference of the two lengths |
| JsText.ReplaceFirstAtLeftmost | main.js:471 | the occurrence replaced is the leftmost one, and the text around it is kept |
| JsText.IndexOfCharFound | main.js:471 | a one-character pattern is found exactly when the character occurs in the string |
| HtmlScan.NextElement | webScraper.js:122 | a match lies at or after the search start, its body lies inside it, and the next search resumes strictly later |
| HtmlScan.NextElementIsLeftmostMatch | webScraper.js:115-122 | the reported span is a match of the pattern; no match starts earlier; the lazy body ends at the first closing tag; no match is reported exactly when none exists |
| HtmlScan.AllMatches | webScraper.js:122 | the global search yields at most one match per character from its start |
| HtmlScan.CleanCell | webScraper.js:136-141 | a cleaned cell has no white space at either end |
| HtmlScan.CleanCellLeavesNoEscapedGreaterThan | webScraper.js:140-141 | no `&gt;` survives cleaning |
| HtmlScan.CleanCellPlainText | webScraper.js:136-141 | a cell with no tag and no `&` is only trimmed |
| HtmlScan.CleanCellDecodesAmpersand | webScraper.js:136-141 | one `&amp;` in otherwise plain text, not followed by `l` or `g`, becomes `&`, and the result is trimmed |
| HtmlScan.CleanCellAmpersandExample | webScraper.js:136-141 | `A &amp; B` cleans to `A & B` |
| HtmlScan.CleanCellDecodesTwice | webScraper.js:136-141 | because `&amp;` is decoded before `&lt;`, the doubly escaped `&amp;lt;` cleans to `<` |
| WebScraper.FieldKeysMatchCells | webScraper.js:146-161 | there is one key per cell a record takes, and the name cell fills the short-name key |
| WebScraper.RowRecord | webScraper.js:146-166 | a record has 13 values and a non-empty name, and a row with fewer than 13 cells yields none |
| WebScraper.RowRecordSpec | webScraper.js:146-166 | a row yields a record exactly when it has at least 13 cells and a non-empty name cell; the record is its first 13 cells by position, and is well formed |
| WebScraper.ParsedStocks | webScraper.js:110-172 | either no record or fewer records than row matches, since the first row is always skipped |
| WebScraper.ParsedStocksSkipFirstRow | webScraper.js:122-126 | the result is the records of every row after the first row found |
| WebScraper.AcceptedRowsGiveRecords | webScraper.js:128-170 | the records of the data rows are those of the accepting rows, one each, in row order, and every accepting row contributes |
| WebScraper.ParsedStocksAreAcceptedDataRows | webScraper.js:110-172 | the extractor keeps, in document order, exactly one record per accepting row after the first, and never more records than data rows |
| WebScraper.AllAcceptedKeepsCount | webScraper.js:146-166 | rows that all yield a record give exactly one record each |
| WebScraper.ParsedStocksCountsDataRows | webScraper.js:122-170 | a header row followed by N rows that all have 13 cells and a name yields exactly N records |
| WebScraper.RowRecordsWellFormed | webScraper.js:146-166 | every record made from rows has 13 trimmed values and a non-empty name |
| WebScraper.ParsedStocksWellFormed | webScraper.js:110-172 | every record the extractor returns is well formed |
| WebScraper.BlankCellCleansToEmpty | webScraper.js:136-141 | a cell of white space only cleans to the empty string |
| WebScraper.BlankNameDropsRow | webScraper.js:164-166 | a row whose name cell is blank yields no record, whatever its other cells |
| WebScraper.SteelMockWellFormed | webScraper.js:183-197 | the first fallback record is well formed |
| WebScraper.PharmaMockWellFormed | webScraper.js:198-212 | the second fallback record is well formed |
| WebScraper.MockData | webScraper.js:180-214 | two well-formed fallback records, for El Ezz Dekheila Steel and for Minapharm, in that order |
| WebScraper.FetchResult | webScraper.js:69-108 | a fetch never yields an empty list, and every record it yields is well formed |
| WebScraper.Notification | webScraper.js:236-245 | one delivery exactly when a callback is registered, to that callback, with a non-empty list |
| WebScraper.EgyptianExchangeScraper.constructor | webScraper.js:61-67 | the market URL, a 30000 ms period, not running, no timer, no callback |
| WebScraper.EgyptianExchangeScraper.FetchStockData | webScraper.js:69-108 | the parsed records when the page yields any; the fallback on an empty parse or any failure; never empty |
| WebScraper.EgyptianExchangeScraper.ParseHTMLWithRegex | webScraper.js:110-178 | the loop over row matches returns exactly `ParsedStocks(html)` |
| WebScraper.EgyptianExchangeScraper.RowStock | webScraper.js:146-167 | the record built from one row is exactly `RowRecord(row)` |
| WebScraper.EgyptianExchangeScraper.CleanCellText | webScraper.js:133-141 | the six cleaning steps compute `CleanCell`: the text has no white space at either end and no `&gt;` left, and a cell with no tag and no `&` is only trimmed |
| WebScraper.EgyptianExchangeScraper.RowCellTexts | webScraper.js:129-144 | the inner loop collects the cleaned text of every cell match of the row, in order |
| WebScraper.EgyptianExchangeScraper.StartAutoUpdate | webScraper.js:216-234 | while running it changes nothing; otherwise it registers the callback, notifies it once, and arms one timer with the current period; keeps the invariant that it is running exactly when one timer is armed and no callback ever got an empty list |
| WebScraper.EgyptianExchangeScraper.FetchAndNotify | webScraper.js:236-245 | appends one non-empty delivery of the fetch result when a callback is registered, and none otherwise |
| WebScraper.EgyptianExchangeScraper.StopAutoUpdate | webScraper.js:247-254 | clears the armed timer and marks the scraper stopped; callback and period are kept; stopping twice is stopping once |
| WebScraper.EgyptianExchangeScraper.SetUpdateInterval | webScraper.js:256-259 | only the period changes; an armed timer keeps its period |
| MainProcess.Merge | main.js:133 | every key of either object is present; a patch key's value replaces the old one whole, `windowBounds` included; other keys keep their value |
| MainProcess.MergeIdempotent | main.js:740 | merging the same patch twice equals merging it once; an empty patch changes nothing |
| MainProcess.InitialPlacement | main.js:209-219 | a placement is chosen exactly when `windowBounds` is a bounds object |
| MainProcess.PlacementUsesOnlyValidPositions | main.js:210-215 | the saved position is used exactly when both coordinates are defined and within 0..3999, and then unchanged; otherwise the window is centred |
| MainProcess.DefaultsCentre | main.js:113-121 | the default settings centre the window |
| MainProcess.SettingsStore.constructor | main.js:113-121 | starts from the defaults with nothing written |
| MainProcess.SettingsStore.LoadSettings | main.js:127-139 | a parsed file is merged over the settings; a missing or unreadable file changes nothing |
| MainProcess.SettingsStore.UpdateSettings | main.js:739-750 | merges the patch, writes and returns the result, and checks for updates exactly when the patch has `autoUpdate` |
| MainProcess.SettingsStore.OnMoved | main.js:245-253 | an on-screen position is stored and written, the size is untouched, and it is the position the next start restores; otherwise nothing changes |
| MainProcess.SettingsStore.OnResized | main.js:255-263 | a size over 400 by 300 is stored and written; otherwise nothing changes; the restored placement never changes |
| MainProcess.LatestVersion | main.js:471 | a tag without `v` is the version itself; otherwise the version is one character shorter |
| MainProcess.UpdateAvailable | main.js:476 | for a tag without `v`, an update is reported exactly when the tag differs from the running version; a tag with `v` not one longer than the running version always reports one |
| MainProcess.LatestVersionDropsFirstV | main.js:471 | the version is the tag with its first `v` deleted, and a tag without `v` is unchanged |
| MainProcess.LeadingVTag | main.js:471-476 | `v` followed by a version names that version, and the running version's own tag reports no update |
| MainProcess.MockScraper.constructor | main.js:71-73 | starts stopped with no delivery |
| MainProcess.MockScraper.FetchStockData | main.js:75-94 | exactly one well-formed record, the first real fallback record |
| MainProcess.MockScraper.StartAutoUpdate | main.js:96-101 | marks running without checking whether it already was, and delivers the one record to a given callback |
| MainProcess.MockScraper.StopAutoUpdate | main.js:103-106 | marks the scraper stopped |
| NewsManager.LoadNews | news-manager.js:38-46 | a file that cannot be read or parsed loads as the empty list |
| NewsManager.Initialized | news-manager.js:22-35 | afterwards the file exists; an existing file is kept; a missing file becomes the example's contents, or holds no news when there is no example |
| NewsManager.NewsStore.InitNewsFile | news-manager.js:22-35 | the file becomes `Initialized(file, example)` |
| NewsManager.NewItem | news-manager.js:66-77 | the new item has the given id, title, content and date, the lower-cased category (default `general`), the team as source, and the `new` mark |
| NewsManager.NewsStore.AddNews | news-manager.js:66-88 | the new item is put in front of the loaded list, which is written back |
| NewsManager.Without | news-manager.js:116 | the filtered list is no longer than the original and holds no item with the id |
| NewsManager.WithoutKeepsOthers | news-manager.js:116 | exactly the items with another id survive the filter |
| NewsManager.WithoutDistributes | news-manager.js:116 | filtering a concatenation filters each part, so order is kept |
| NewsManager.WithoutShrinksIffPresent | news-manager.js:114-118 | the list shrinks exactly when some item has the id; otherwise it is unchanged |
| NewsManager.NewsStore.RemoveNews | news-manager.js:112-125 | reports found exactly when some item has the id; then writes the filtered list, otherwise writes nothing |
| NewsManager.NewsStore.MarkAllRead | news-manager.js:128-138 | writes the loaded list with the same length and order, each item's `new` mark cleared and nothing else changed |
| NewsManager.Preview | news-manager.js:106 | the content when it is at most 100 characters; otherwise its first 100 followed by `...`; 103 characters exactly when the content is longer than 100 |
| NewsManager.ListNews | news-manager.js:91-109 | one entry per item, numbered from 1 in list order, with its id, title, mark, category and preview |
| NewsManager.Dispatch | news-manager.js:174-222 | no arguments shows help; the lower-cased command word alone decides between add, list, remove, read, help and an unknown command; `add` needs three arguments and `remove` two, otherwise a usage message; the category defaults to `general` when absent or empty; unknown words are reported |
| NewsManager.CommandWordIgnoresCase | news-manager.js:185 | argument lists that differ only in the case of the command word do the same thing |
| NewsManager.NewsStore.Run | news-manager.js:174-222 | with no arguments nothing changes; otherwise the file is initialised, then the dispatched operation runs (`add` prepends the new item, `remove` filters out the id, `read` writes the same items in order with the `new` mark cleared); help, usage errors, `list` and unknown commands change nothing further |
| NewsManager.AddThenRemove | news-manager.js:80-116 | removing the id of an item just put in front of the list, when no other item shares it, gives the earlier list back |

## Left out

- The network. The request for the market page (`axios.get`, its headers and its 10-second
  timeout) is the `HttpResponse` parameter. The GitHub release request in main.js is left out
  except for the tag normalisation.
- Loading `axios` and `cheerio` through their fallbacks, and loading webScraper.js from main.js.
  A failed `axios` load rejects every request, which the model covers as `Failed`. Cheerio is
  never used by the extractor.
- Timers and asynchrony. `setInterval` is a timer id supplied by the caller. Each tick is a call
  of `FetchAndNotify` with that tick's response. The first fetch of `startAutoUpdate` is run to
  completion before the timer is armed, so races between overlapping fetches are not modelled.
- WebScraper.EgyptianExchangeScraper.SetUpdateInterval: does not model how `setInterval` coerces
  a non-numeric or tiny period.
- File I/O. `settings.json` and `news.json` are their parsed contents. Writing is assumed to
  succeed, so the "Error saving" paths are not modelled. A parsed `news.json` without a `news`
  array, and a settings file whose JSON is not an object, are not modelled.
- MainProcess.SettingsStore.OnMoved: does not model a `windowBounds` that is not an object. The
  source would then still call `saveSettings`, or throw on `null`. The model changes and writes
  nothing. Numbers are integers, so non-numeric coordinates are not modelled.
- MainProcess.SettingsStore.OnResized: the same restriction as `OnMoved`.
- MainProcess.InitialPlacement: a `windowBounds` that is not a bounds object gives `None`. The
  source reads `undefined` coordinates from a primitive and centres the window, but throws on
  `null`.
- `generateId` and `new Date().toISOString()` depend on the clock and on `Math.random`. The id
  and the date are parameters.
- The date column of `listNews`, formatted by `toLocaleDateString`.
- Console output everywhere, the help text, and the Electron window, menu and IPC plumbing
  around the handlers.
- JsText.ToLowerCase: lower-cases ASCII letters only. JavaScript also maps letters outside ASCII.
- Strings are sequences of code points. JavaScript's `substring` and `length` count UTF-16 code
  units, so the 100-character preview of text outside the Basic Multilingual Plane differs.
- The `try/catch` in `parseHTMLWithRegex` only matters for a page body that is not a string,
  which is not modelled.
- The auto-updater, `checkForUpdatesIfEnabled` and the GitHub token, release and test scripts.
  They are not part of this model.
