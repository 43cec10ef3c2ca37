# lazydb: result formatting, paging and focus cycling

lazydb is a terminal browser for a MySQL database written in Go on top of the
gocui toolkit. This project models the three pieces of logic in `main.go`
that do more than call the toolkit or the database driver:

- **The result formatter** (module `ResultTable`). `outputDb`, `selectAll`,
  `nexPage` and `prevPage` all contain the same loop. It turns the scanned
  rows of a query into string rows: a nil value becomes the text `null`, and
  a non-nil `[]byte` value is kept byte for byte. While it converts each row,
  it also appends to the header every column name that its `seen` map has not
  recorded yet. `Format` is that loop, with a `seen` set and nested `while`
  loops. It is proved against pure functions: `RenderRow` for the cells and
  `Dedup` for the header. `Dedup` in turn is proved equal to an independent
  description, `FirstOccurrenceOrder`: every column name once, ordered by
  where it first occurs.
- **Paging** (modules `GoInt` and `Pager`, and `Session.Browser`). The
  "offset" field holds a page number. "Next" adds one to it. "Previous"
  subtracts one, but only when the page is above 1. Either way the new page
  is written back to the field, and the query skips `limit*page - limit`
  rows. On 64-bit targets Go's `int` is 64 bits wide and wraps around; module
  `GoInt` models that arithmetic explicitly, with the width fixed at 64 bits. `Pager.GoOffsetIsOffset` shows that the
  wrapped computation gives the wrapped value of `limit*(page-1)`.
- **Focus cycling** (module `Focus`, and `Session.Browser.NextView`). Tab
  moves the focus to the next of the four panels `db`, `tables`, `output`
  and `where`, wrapping around. The text cursor is shown on every panel
  except `tables`.

The "limit" and "offset" fields are created editable (main.go:533-552), but
nothing ever focuses them: Tab cycles only the four panels of `viewArr`
(main.go:23), the only other focus call selects `db` at start-up (main.go:501),
and the mouse is off. So in the program as written the limit always reads 30
and the page only changes by the paging keys; `Pager.RunFromStartStaysPositive`
shows that the page then stays at 1 or more. `Session.Browser.EditLimit` and
`EditPage` still model typing into those fields, as the fields' editable flag
allows, but they describe input the program as written cannot produce.

`Session.Browser` is a class that holds the state these handlers change: the
package-level focus index, the toolkit's cursor flag, the parsed limit and
page fields, and the output panel. Go strings and `[]byte` values are
modelled as byte sequences (`ResultTable.Text`).

## Model

| member | source | states |
|---|---|---|
| `ResultTable.Format` | main.go:167-205 | one string row per result row, in result order; each row has one cell per column; cell i is `null` for a nil value and the value's bytes otherwise; the header is empty when there are no rows, and otherwise lists every column name once, in first-occurrence order (equal to `Dedup` of the columns) |
| `ResultTable.RenderCell` | main.go:186-189 | a non-nil value renders as its own bytes; a cell renders as `null` exactly when it is nil or its bytes are `null` |
| `ResultTable.RenderRow` | main.go:183-190 | a rendered row has one string per value: `null` where the value is nil and the value's bytes where it is not |
| `ResultTable.Dedup` | main.go:169-195 | the de-duplicated column list is never longer than the column list |
| `ResultTable.HeaderOf` | main.go:169-203 | the header is empty when there are no rows and never longer than the column list |
| `ResultTable.Render` | main.go:167-205 | the rendered table has one row per result row and, for well-formed results, one cell per column in each row; its header is no wider than the column list and is empty when there are no rows |
| `ResultTable.DedupElements` | main.go:192-195 | a name is in the header exactly when some column has that name |
| `ResultTable.DedupDistinct` | main.go:192-195 | no name appears twice in the header |
| `ResultTable.DedupLength` | main.go:183-195 | the header is never longer than the column list, and it is exactly as long precisely when no column name repeats |
| `ResultTable.DedupOfDistinct` | main.go:192-195 | when no column name repeats, the header equals the column list |
| `ResultTable.DedupIdempotent` | main.go:192-195 | de-duplicating the header again changes nothing |
| `ResultTable.DedupFirstOccurrence` | main.go:183-195 | the header holds exactly the column names, in strictly increasing order of their first position among the columns |
| `ResultTable.IncreasingFirstUnique` | main.go:183-195 | at most one sequence holds a given set of column names in first-position order |
| `ResultTable.DedupCharacterized` | main.go:183-195 | a sequence is the header built from the columns if and only if it meets the first-occurrence description |
| `ResultTable.HeaderNarrowerThanRows` | main.go:183-197 | when column names repeat and there is at least one row, the header is shorter than every rendered row |
| `ResultTable.NullIsAmbiguous` | main.go:186-189 | a nil value and a value holding the bytes `null` render the same |
| `ResultTable.RenderBytesInjective` | main.go:186-189 | two non-nil values render the same exactly when their bytes are equal |
| `GoInt.Wrap` | main.go:299 | the result of Go int arithmetic is a 64-bit value congruent to the exact result modulo 2^64, and it equals the exact result when that fits in 64 bits |
| `GoInt.SubOfMul` | main.go:299 | wrapping the product before subtracting gives the same value as wrapping the exact `a*b - c` |
| `Pager.GoOffsetIsOffset` | main.go:299 | the offset the handlers compute, `limit*page - limit` in Go ints, is the wrapped number of rows in front of the page, `limit*(page-1)` |
| `Pager.OffsetExact` | main.go:381 | without overflow the offset is exactly `limit*(page-1)`; page 1 has offset 0 |
| `Pager.PrevFloor` | main.go:376-378 | "previous" never takes a page of 1 or more below 1, never raises the page, and lowers it exactly when it is above 1 |
| `Pager.PrevUndoesNext` | main.go:376-378 | "previous" after "next" returns to the starting page if and only if that page is at least 1 |
| `Pager.NextUndoesPrev` | main.go:376-378 | "next" after "previous" returns to the starting page if and only if that page is above 1 |
| `Pager.NextWrapsAtMax` | main.go:295 | "next" on the largest Go int wraps around to the smallest one |
| `Pager.ForwardCount` | main.go:295-299 | n presses of "next" from page p reach page p+n; from page 1 the offset is then n times the limit |
| `Pager.NextPageOf` | main.go:295 | "next" yields a 64-bit page, and exactly the old page plus one whenever the old page is below the largest Go int |
| `Pager.PrevPageOf` | main.go:376-378 | "previous" yields either the old page or the old page minus one, and never takes a page of 1 or more below 1 |
| `Pager.OffsetOf` | main.go:299 | the offset for a page is a 64-bit value; it is exactly `limit*(page-1)` when that fits, and 0 on page 1 (the same expression is at main.go:381) |
| `Pager.RunFromStartStaysPositive` | main.go:293-381 | starting from page 1, any sequence of fewer than 2^63-1 "next"/"previous" presses leaves the page between 1 and 1 plus the number of presses |
| `Focus.Next` | main.go:36 | the next focus index is one of the four panels and, from any panel, a different one |
| `Focus.CursorShown` | main.go:43-47 | for a panel index, the cursor flag is on exactly when the panel is not `tables` |
| `Focus.TabNeverReachesFields` | main.go:23-36 | any number of Tab presses leaves the focus on one of the four panels, never on the "limit" or "offset" field |
| `Focus.NextMoves` | main.go:36 | one press of Tab moves to a different panel among the four, and wraps from the last panel to the first |
| `Focus.StepsShift` | main.go:36 | n presses of Tab advance the focus index by n modulo 4 |
| `Focus.CycleReturns` | main.go:36 | the focus returns to its starting panel if and only if the number of presses is a multiple of 4 |
| `Focus.EveryViewReached` | main.go:23-36 | every panel can be reached from every panel in fewer than four presses |
| `Focus.CursorHiddenOnlyOnTables` | main.go:43-47 | the cursor is shown on a panel if and only if the panel is not `tables` |
| `Session.Browser.constructor` | main.go:22-25 | at start-up the focus index is 0 and the cursor is on (main.go:568); the limit field reads 30 and the page field reads 1 (main.go:541, 552); the output panel is blank |
| `Session.Browser.NextView` | main.go:35-51 | the focus target is the next panel in cyclic order; if the toolkit fails to focus it, an error is returned and neither the index nor the cursor changes; otherwise the index advances and the cursor is on exactly for indices 0, 2 and 3; the invariant "index in range and cursor matches the index" is kept |
| `Session.Browser.EditLimit` | main.go:533-541 | the limit field holds the parsed value the user typed, and nothing else changes (the field is editable but never focused, so the program as written never takes this path) |
| `Session.Browser.EditPage` | main.go:544-552 | the page field holds the parsed value the user typed, and nothing else changes (never reachable in the program as written, like `EditLimit`) |
| `Session.Browser.NextPage` | main.go:290-299 | the page field becomes the old page plus one (wrapping at the largest Go int) and is written back; the returned query offset is the number of rows in front of the new page |
| `Session.Browser.PrevPage` | main.go:370-381 | the page field goes down by one only from above 1, so a page of 1 or more stays at least 1; the new page is written back; the returned query offset is the number of rows in front of the new page |
| `Session.Browser.Show` | main.go:167-205 | the output panel is overwritten with the rendered table of the query's result set, and the other fields do not change |
| `Session.DefaultPaging` | main.go:293-381 | with limit 30 from page 1, "next" gives offset 30 and then 60; "previous" then gives offset 30; "previous" on a freshly started browser stays on page 1 with offset 0 |
| `Session.FormatExample` | main.go:175-203 | columns `id`, `name` with rows (1, a) and (2, nil) give the header `id`, `name` and the rows (`1`, `a`) and (`2`, `null`) |
| `Session.RepeatedColumnExample` | main.go:183-197 | two columns both named `id` give a one-entry header, while the row keeps both values |

## Left out

- Terminal layout, keybinding registration, `setCurrentViewOnTop`, `quit`, `main` and the event loop (main.go:28-33, 437-580). They are toolkit plumbing. The only effect of `setCurrentViewOnTop` that the model keeps is whether it fails: `NextView` takes that as the parameter `focusFails`.
- Cursor movement: `cursorUp`, `cursorDown`, `cursorLeft` and `cursorRight` (main.go:53-112). What they do depends on whether the toolkit's `SetCursor` and `SetOrigin` calls fail, and those calls are not part of this model.
- All database work: opening the connection, `db.Query`, `rows.Columns`, `rows.Scan` and `refreshDb`'s `SHOW TABLES` listing (main.go:114-138). A result set is passed to `Show` as plain column names and rows. A paging handler returns the offset that its query would use.
- The panic on a failed paging query (main.go:302-304, 384-386). A failed query in `outputDb` or `selectAll` also crashes, because its error is ignored and the result is then used anyway. Neither crash is modelled.
- Scan errors (main.go:180 and its copies). The scan's error is ignored, so a failed scan leaves the previous row's values in the buffer. The model's rows are the values as scanned. Each row has exactly one value per column, because the source's scan buffer has exactly that many slots.
- Building the SQL text with `fmt.Sprintf` (main.go:158, 224, 301, 383). It only interpolates text into a query for the database engine.
- The table writer: go-pretty's `AppendRow`, `AppendSeparator`, `AppendHeader` and `Render`. The model stops at the header and rows that are handed to it, and does not model borders or alignment.
- `strconv.Atoi`. `EditLimit` and `EditPage` take the parsed value. Text that is not a number arrives as 0, as the source's ignored parse error leaves it. Text out of range arrives clamped, so it is still a 64-bit value.
- The focus step: Go's `%` truncates toward zero and Dafny's `%` is Euclidean. The two agree here because the focus index is never negative. The model keeps the index as a `nat`.
- Values other than nil or `[]byte`. The loop's type assertion (main.go:188, and its copies at 253, 333 and 415) panics on any other dynamic type, for example a `time.Time` or an `int64` that a driver setting can produce. The model's `Cell` is nil or bytes, so it assumes every non-nil value arrives as bytes and does not model that panic.
- Integer width: Go's `int` is 32 bits wide on 32-bit targets such as 386 and arm, where the page and offset arithmetic wraps at 2^32. The model fixes `int` at 64 bits.
