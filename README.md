# Table to CSV Downloader, modelled in Dafny

A user script that waits until the page and its network have gone quiet,
marks every table, binds a custom context menu to each table's header cells
(or, failing those, to its first row), and on "Download table as CSV" turns
the clicked table into CSV text and a file name. This project models:

- the CSV serialiser of `exportTableToCSV`: each cell's text with every `"`
  doubled, wrapped in `"`; cells joined by `,`; rows joined by CRLF with no
  trailing line break. That is the quoted-field encoding of section 2 of
  RFC 4180 (rules 1, 2, 6 and 7), with every field quoted and the optional
  final CRLF left out (`CsvExport`);
- the download name `table-<first 19 characters of the ISO timestamp>.csv`
  (`CsvExport.FileName`);
- an RFC 4180 reader used as the independent reference for what the text
  means (`Rfc4180`). The proofs against it are the round trip
  (`CsvRoundTrip`) and the layout of the text outside quoted fields
  (`CsvLayout`);
- the target-cell rule: header cells, else the first row's cells, else none
  (`TableTargets`);
- the menu as a class. Its state is the handlers bound to cells,
  `lastRightClickedTable`, visibility and position. Its methods are the
  annotator's binding loop, right-click, left-click and the menu item's
  click (`ContextMenu.Menu`);
- `waitForNetworkIdle` as a class over a discrete clock. Subscribing arms a
  deadline, each observed event re-arms it, and the gate resolves once
  (`IdleGate.Gate`).

Inputs the script gets from the browser are parameters:

- `innerText` is the cell strings;
- `table.rows` and `row.cells` are sequences;
- element identities are `CellId` and `TableId`;
- the cells a `contextmenu` event bubbles through, innermost first, are a
  sequence `path`;
- `pageX` and `pageY` are modelled as integers;
- `new Date().toISOString()` is a string `iso`;
- times of resource events and of the clock are integers;
- a table's text at the moment of export is a function `current`.

## Model

| member | source | states |
|---|---|---|
| CsvExport.EscapeQuotes | jn-tm-table-csv-downloader.user.js:96 | the escaped text is longer than the cell by exactly its number of `"`: the global regex doubles every quote |
| CsvExport.EncodeField | jn-tm-table-csv-downloader.user.js:96-97 | a field is `\|s\| + count('"', s) + 2` long and starts and ends with `"` |
| CsvExport.NoTrailingSeparator | jn-tm-table-csv-downloader.user.js:99 | when the last row has a cell, the text ends with that cell's closing quote, not with CRLF |
| CsvExport.EmptyTable | jn-tm-table-csv-downloader.user.js:93-99 | a table with no rows exports as the empty text |
| CsvExport.CellLessRowsVanish | jn-tm-table-csv-downloader.user.js:94-99 | a row without cells leaves only its separators: one such row exports like no rows, two export as a lone CRLF |
| CsvExport.TwoByTwoExample | jn-tm-table-csv-downloader.user.js:93-99 | headers A, B with data 1, 2 export as `"A","B"\r\n"1","2"` |
| CsvExport.EscapingExamples | jn-tm-table-csv-downloader.user.js:96-97 | `a"b` becomes `"a""b"` and `x,y` becomes `"x,y"` |
| CsvExport.FileName | jn-tm-table-csv-downloader.user.js:105 | the name starts with `table-`, ends with `.csv`, and its length is the timestamp's cut to at most 19 characters plus 10 |
| CsvExport.FileNameStamp | jn-tm-table-csv-downloader.user.js:105 | the part between `table-` and `.csv` is the timestamp's first 19 characters, or all of it when shorter |
| CsvExport.FileNameOfIsoInstant | jn-tm-table-csv-downloader.user.js:105 | for a `YYYY-MM-DDTHH:mm:ss.sssZ` stamp the name has 29 characters, keeps date, `T` and colons to whole seconds, and its only `.` is the extension's |
| CsvRoundTrip.QuotedBodyOfEscaped | jn-tm-table-csv-downloader.user.js:96-97 | reading an escaped cell up to its closing quote gives back the cell's text and leaves what follows |
| CsvRoundTrip.FieldOfEncoded | jn-tm-table-csv-downloader.user.js:96-97 | an encoded field reads back as one field holding exactly the cell's text |
| CsvRoundTrip.RecordOfEncoded | jn-tm-table-csv-downloader.user.js:95-98 | an encoded row of at least one cell, then the end or CRLF, reads back as one record with the same cells |
| CsvRoundTrip.DecodeEncodeTable | jn-tm-table-csv-downloader.user.js:93-99 | round trip: when every row has a cell, the RFC 4180 reader recovers the rows and cells exactly, even with `,`, `"`, CR or LF in cells |
| CsvRoundTrip.EncodeTableInjective | jn-tm-table-csv-downloader.user.js:93-99 | two tables without cell-less rows that export the same text are equal |
| CsvRoundTrip.RecordShape | jn-tm-table-csv-downloader.user.js:93-99 | the reader finds one record per row and, in each, one field per cell of that row, so ragged rows stay ragged |
| CsvLayout.OutsideEscaped | jn-tm-table-csv-downloader.user.js:96 | inside quotes, an escaped cell leaves nothing outside quotes and ends inside quotes |
| CsvLayout.OutsideField | jn-tm-table-csv-downloader.user.js:96-97 | a quoted field leaves nothing outside quotes and ends outside quotes |
| CsvLayout.OutsideRow | jn-tm-table-csv-downloader.user.js:95-98 | outside quotes a row is exactly one comma between each pair of consecutive cells |
| CsvLayout.OutsideTable | jn-tm-table-csv-downloader.user.js:93-99 | outside quotes the whole text is the skeleton: each row's commas, rows joined by CRLF, nothing at the end |
| CsvLayout.SkeletonCounts | jn-tm-table-csv-downloader.user.js:94-99 | the skeleton has `\|rows\| - 1` CR, `\|rows\| - 1` LF and the rows' separating commas |
| CsvLayout.SeparatorCounts | jn-tm-table-csv-downloader.user.js:93-99 | outside quoted fields the text holds exactly `\|rows\| - 1` CRLF separators and one comma between consecutive cells |
| CsvLayout.RowCommaCount | jn-tm-table-csv-downloader.user.js:95-98 | a row of n >= 1 cells has exactly n - 1 commas outside quotes |
| TableTargets.CellsMembers | jn-tm-table-csv-downloader.user.js:77 | a cell is among the table's cells exactly when it is in one of its rows |
| TableTargets.HeadersMembers | jn-tm-table-csv-downloader.user.js:77 | the header cells are exactly the `th` cells among the table's cells |
| TableTargets.HeaderCellsEmpty | jn-tm-table-csv-downloader.user.js:77-78 | `headerCells.length` is zero exactly when no row holds a `th` cell |
| TableTargets.TargetsWithHeaders | jn-tm-table-csv-downloader.user.js:77-78 | with a `th` cell anywhere, the targets are exactly the table's `th` cells |
| TableTargets.TargetsWithoutHeaders | jn-tm-table-csv-downloader.user.js:78 | without `th` cells the targets are the first row's cells, or none when there is no row |
| TableTargets.TargetsOfTable | jn-tm-table-csv-downloader.user.js:77-78 | every target is a cell of the table; there is one exactly when there is a `th` or a non-empty first row |
| ContextMenu.BindCellsLookup | jn-tm-table-csv-downloader.user.js:80-87 | binding cells to a table adds exactly those cells, each recording the table, and keeps every other handler |
| ContextMenu.AnnotatedKeys | jn-tm-table-csv-downloader.user.js:71-89 | after the scan, a cell has a handler exactly when it is a target of a scanned table or was bound before |
| ContextMenu.AnnotatedOwner | jn-tm-table-csv-downloader.user.js:71-89 | a target cell of a table records that table unless a later table binds it again |
| ContextMenu.Menu.constructor | jn-tm-table-csv-downloader.user.js:40-47 | the menu starts hidden, with no table recorded and no handler bound |
| ContextMenu.Menu.Annotate | jn-tm-table-csv-downloader.user.js:71-89 | the handlers become those of the scan of the tables in order; the selection, visibility and position do not change |
| ContextMenu.Menu.BindTargets | jn-tm-table-csv-downloader.user.js:80-87 | each target cell of one table gets a handler recording that table |
| ContextMenu.LastBoundOf | jn-tm-table-csv-downloader.user.js:82-86 | after the event bubbles along the path, a table is recorded exactly when some cell on the path is bound, and it is the table of the outermost bound cell |
| ContextMenu.NestedTables | jn-tm-table-csv-downloader.user.js:72-86 | in a table nested in a bound cell of another, a right-click on an inner cell, bound or not, leaves the outer table recorded |
| ContextMenu.Menu.RightClick | jn-tm-table-csv-downloader.user.js:82-86 | the native menu is suppressed exactly when a cell on the bubbling path is bound; then the outermost bound cell's table is recorded and the menu shows at (x, y); otherwise nothing changes and the native menu opens |
| ContextMenu.Menu.LeftClick | jn-tm-table-csv-downloader.user.js:58-68 | the menu is hidden and the recorded table, position and handlers are unchanged, so a second left click changes nothing |
| ContextMenu.Menu.Activate | jn-tm-table-csv-downloader.user.js:48-53 | exports the recorded table's current text under the timestamped name only when a table is recorded; always leaves the menu hidden; a visible menu always exports |
| IdleGate.QuietWindow | jn-tm-table-csv-downloader.user.js:113-127 | the deadline is `quietMs` after the subscription or after an event, never before `t0 + quietMs`, and no event falls in the `quietMs` before it |
| IdleGate.Gate.Subscribe | jn-tm-table-csv-downloader.user.js:113-125 | subscribing at t0 arms the timer for `t0 + quietMs`, unresolved |
| IdleGate.Gate.Tick | jn-tm-table-csv-downloader.user.js:120-123 | with no events the gate resolves exactly when the clock reaches the deadline, at that deadline, after a full quiet window, and only once |
| IdleGate.Gate.Observe | jn-tm-table-csv-downloader.user.js:116-124 | an event before the deadline moves it to the event's time plus `quietMs`; an event at or after it finds the gate resolved; after resolution nothing changes |

## Notes on the model

- The script exports a row without cells as an empty line. So when the last
  row of a table has no cells, the text does end with CRLF. That row is lost
  on reading back (`CsvExport.CellLessRowsVanish`). This is why the round
  trip requires every row to have a cell.
- The reference reader turns the empty text into no records. It accepts a
  final CRLF or none. An unquoted field there may hold any character except
  `"`, `,`, CR and LF, and a quoted field any character (a `"` only as
  `""`). So it is more permissive than RFC 4180, whose TEXTDATA is printable
  ASCII, in both kinds of field. The exporter never writes unquoted fields,
  and its quoted fields hold whatever the cells hold.
- The script starts the annotator once. When two input tables share a
  cell id, that cell gets two listeners. They run in the order they were
  attached, so the table bound later is the one recorded. `Annotated`
  models this as a map update.
- The `contextmenu` listener calls `preventDefault` but not
  `stopPropagation`. So in nested tables the event reaches every bound
  ancestor cell, and the outermost one's table is left recorded
  (`LastBound`).
- `IdleGate` treats an event that arrives exactly when the timer is due as
  coming after the timer. The browser does not guarantee an order for the
  two callbacks.
- Clicking the menu item also bubbles up to the document's click listener,
  which hides the menu a second time. `Activate` already hides it, and
  hiding twice changes nothing (`LeftClick`).

## Left out

- Style injection (`GM_addStyle`), the red borders and header colour, and creating or appending the menu elements: presentation only.
- Blob creation, `URL.createObjectURL` and `revokeObjectURL`, and the synthetic anchor click: browser I/O. `Activate` returns the file name and the CSV text it would download.
- The `fetch` and `XMLHttpRequest` wrappers and `perfBump` with its random mark names: they patch foreign APIs, use randomness, and do not feed the idle gate.
- The `PerformanceObserver`, `setTimeout`/`clearTimeout` and the `load` listener: the gate is modelled on an explicit integer clock. Buffered resource entries delivered after subscription count as events at their delivery time.
- How `innerText` renders a cell, the clock behind `toISOString`, and `pageX`/`pageY`: they are taken as given inputs.
- The order of `querySelectorAll('th')` (document order) can differ from `table.rows` order (head, bodies, foot). `th` cells of nested tables also count for the outer table. `TableTargets` collects header cells from the rows in `table.rows` order and does not model nesting.
- The DOM's ancestor chain: `RightClick` is given the cells a right-click bubbles through as `path`, and the model does not check that `path` follows the page's nesting.
- Console logging.
