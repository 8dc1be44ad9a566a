# bubble-table engine in Dafny

This project models the engine of bubble-table, a Go table component for Bubble Tea terminal programs. It covers three parts:

- **The runtime state machine** (`update.dfy`, `navigation.dfy`, `layout.dfy`). The table keeps a row cursor, a column cursor, a current page, a horizontal scroll offset and the index of the last column that fits the width budget. Key presses move these cursors:
  - rows wrap around at both ends;
  - columns clamp at both ends and scroll the view when the cursor reaches the edge of what is shown.

  Selection toggles a flag on the row under the cursor. A single dispatcher, `Update`, takes one message and routes it. An unfocused table ignores it. While the filter input has focus, the message goes to the filter input. Otherwise a key press runs every binding it matches, in a fixed order. Each dispatch starts a fresh list of user events, which reports what changed: the highlighted row, a selection, the filter gaining or losing focus.

  The state is the class `Update.TableState`, whose methods update its fields in place. Its meaning is given by pure functions over a value copy of its fields (`Snapshot`) and of its configuration (`Config`):
  - `Apply` says what one bound action does, using the cursor arithmetic of `Navigation` and the selection toggle `Toggled`;
  - `RunActions` tries a list of actions in order, running each one the key is bound to;
  - `PressKey` tries every binding in the source's order and reports a cursor move;
  - `FilterInput` is the filter input's share of a message;
  - `Dispatch` is one whole dispatch.

  The visible rows are not stored: they are the configured filter-and-sort applied to the rows and the query (`Visible`), so every change to the rows or the query re-derives them, as the source's invalidated cache does. The filter-and-sort is assumed to settle (`Settles`): on rows it produced, with only a selection flag flipped, it gives them back. A filter on cell data followed by a stable sort does this.

  Each method is proved to leave the object in the state these functions compute, from the single moves up to `Update`. The lemmas about them state the invariant every dispatch keeps, the event discipline and the results of single bindings. The width-budget pass `CalcLastShowColumnIndex` is a loop over the columns. It is proved equal to `Layout.LastShown`, the first column whose rendered width overflows the budget.
- **The sort contract** (`sorting.dfy`, `sort_examples.dfy`). Rows are sorted by a chain of (column key, direction) pairs. The first pair decides, and later pairs only break its ties.
  - A missing cell sorts before a present one, and a styled cell compares as the value it wraps.
  - Integers compare numerically, strings byte-wise.
  - The comparator is proved antisymmetric and transitive, so sorted rows are ordered between any two positions.
  - The sort is an insertion sort, proved to be a sorted permutation and stable (the rows tying with any row keep their order). When only identical rows tie, the descending sort is the ascending one backwards.

  Each case of the library's sort tests is a lemma over concrete rows.
- **The fluent configuration** (`options.dfy`). The table's configuration is a value, and every setter returns an updated copy. `SelectableRows` adds or drops the synthetic select column in front.

`types.dfy` holds the shared values: cells, columns, rows, sort keys, the logical actions with the default key map, user events and messages.

## Model

| member | source | states |
|---|---|---|
| Update.TableState.MoveHighlightUp | table/update.go:9-17 | the cursor moves up one visible row, wrapping from the first row to the last (`RowAbove`); the page is re-derived from the new cursor; the cursor invariants are kept |
| Update.TableState.MoveHighlightDown | table/update.go:19-27 | the cursor moves down one visible row, wrapping from the last row to the first (`RowBelow`); the page is re-derived; the invariants are kept |
| Update.TableState.MoveHighlightTop | table/update.go:29-32 | the cursor is row 0 and the page is the page of row 0 |
| Update.TableState.MoveHighlightBottom | table/update.go:34-37 | the cursor is the last visible row (-1 when none is visible) and the page is the one that row falls on |
| Update.TableState.MoveHighlightLeft | table/update.go:39-52 | the new (cursor, offset) pair is `MoveLeft` of the old one; the cursor stays on a column and the offset stays in range |
| Update.TableState.MoveHighlightRight | table/update.go:54-67 | the new (cursor, offset) pair is `MoveRight` of the old one, given the last shown column and the largest offset |
| Update.TableState.MoveHighlightedRowStart | table/update.go:69-72 | the column cursor and the scroll offset are both 0 |
| Update.TableState.MoveHighlightedRowEnd | table/update.go:74-77 | the column cursor is the last column and the offset is the largest offset |
| Update.TableState.CalcLastShowColumnIndex | table/update.go:79-161 | the recorded index is `Layout.LastShown` of the table's window: the first column that overflows its budget, or the old value when every column fits |
| Update.TableState.ToggleSelect | table/update.go:163-182 | no change when rows are not selectable or none is visible; otherwise the rows become the visible rows with only the cursor row's flag flipped, the cache is invalidated, and one `RowSelectToggled` event carries the cursor and the new flag; the new state is `Toggled` of the old one |
| Update.ToggledRows | table/update.go:168-175 | the copy has the same length; the cursor row keeps its data and has its flag flipped; every other row is unchanged |
| Update.ToggledRowsTwice | table/update.go:171-173 | flipping the same row of a copy twice gives back the copy |
| Update.ToggledRowsCommute | table/update.go:171-173 | flipping two rows of a copy gives the same copy in either order |
| Update.ToggleTwiceRestores | table/update.go:163-182 | two presses of a key bound only to the toggle, on a visible row, leave the rows equal to the visible rows as they were, the visible rows unchanged, the cursor in place, and two events reporting the flag flipped and then flipped back |
| Update.TogglesCommute | table/update.go:163-182 | toggle, row down, toggle: the rows are the visible rows with both rows flipped, in either order of flipping, and they are their own visible rows; with more than one row both flags differ from the start |
| Update.ToggleKeepsOnlyVisibleRows | table/update.go:167-175 | when a filter hides rows, the rows after a toggle are fewer than before and not a permutation of them: the hidden rows are dropped |
| Update.TableState.UpdateFilterTextInput | table/update.go:184-197 | the new state is `FilterInput` of the old one: the blur key unfocuses the filter input and nothing else does, the cursor goes to row 0 on its page, the cache is invalidated, and nothing else changes |
| Update.TableState.RunRowStepBindings | table/update.go:205-211 | the new state is what trying row down, then row up gives (`RunActions`), each running only if the key is bound to it |
| Update.TableState.RunColumnStepBindings | table/update.go:213-219 | the new state is what trying column left, then column right gives |
| Update.TableState.RunColumnJumpBindings | table/update.go:221-227 | the new state is what trying row start, then row end gives |
| Update.TableState.RunRowJumpBindings | table/update.go:229-235 | the new state is what trying top, then bottom gives |
| Update.TableState.RunSelectBinding | table/update.go:241-243 | the new state is what trying the selection toggle gives: `Toggled` when the key is bound to it, the old state otherwise |
| Update.TableState.RunPageStepBindings | table/update.go:245-251 | the new state is what trying page down, then page up gives |
| Update.TableState.RunPageJumpBindings | table/update.go:253-259 | the new state is what trying first page, then last page gives |
| Update.TableState.RunFilterBindings | table/update.go:261-269 | the new state is what trying the filter key (focus, one `FilterInputFocused`), then the corrected clear key (`ClearedFilter`, see "Findings") gives |
| Update.TableState.ClearFilter | table/update.go:266-269 | the corrected clear key of "Findings": the new state is `ClearedFilter` of the old one, with the source's empty query and invalidated cache, plus a clamp of the cursor onto the visible rows that the source does not do; the cursor invariant is kept |
| Update.ClearedFilter | table/update.go:266-269 | the query is empty, the cache invalidated and the rows unchanged; the cursor is on a visible row when there is one, stays put when it already was on one, and the page follows it (corrected clear key, see "Findings") |
| Update.ClearedFilterAsWritten | table/update.go:266-269 | the query is empty and the cache invalidated; the cursor and the page are left where they were |
| Update.ClampRow | table/update.go:266-269 | with rows, the result is a row: the cursor itself when on a row, 0 below, the last row above; with none, the cursor |
| Update.ClearAfterBottomAsWrittenLeavesNoRow | table/update.go:34-37 | when a filter hides every row and the cleared filter would show some, bottom then the clear key as written leaves the cursor at -1 with rows visible, breaking the invariant; the corrected clear key puts it on row 0, page 0 and keeps the invariant |
| Update.ClearAfterBottomExample | table/update.go:266-269 | one row hidden by the query "x": a valid state that the clear key as written turns invalid and the corrected one keeps valid |
| Update.TableState.RunScrollBindings | table/update.go:271-277 | the new state is what trying scroll right, then scroll left gives |
| Update.TableState.RunBindings | table/update.go:205-277 | the new state is what trying every binding in the source's order (`BindingOrder`) gives |
| Update.TableState.HandleKeypress | table/update.go:202-285 | the new state is `PressKey` of the old one: the bindings in order, with the corrected clear key, then a `HighlightedIndexChanged` event when the row cursor moved |
| Update.TableState.Update | table/update.go:288-312 | the new state is `Dispatch` of the old one and the message, with the corrected clear key; the cursor invariant is kept, the visible rows being re-derived after every change |
| Update.TableState.AppendUserEvent | table/update.go:178-181 | the event is added at the end of the list |
| Update.TableState.ClearUserEvents | table/update.go:289 | the list is empty |
| Update.TableState.ScrollLeft | table/update.go:275-277 | the offset moves one column left, stopping at 0 (`Navigation.ScrollLeft`) |
| Update.TableState.ScrollRight | table/update.go:271-273 | the offset moves one column right, stopping at the largest offset (`Navigation.ScrollRight`) |
| Update.TableState.PageDown | table/update.go:245-247 | the cursor is `PageDownCursor` of the old one and the page follows it |
| Update.TableState.PageUp | table/update.go:249-251 | the cursor is `PageUpCursor` of the old one and the page follows it |
| Update.TableState.PageFirst | table/update.go:253-255 | the cursor is row 0 on page 0 |
| Update.TableState.PageLast | table/update.go:257-259 | the cursor is `PageLastCursor` of the old one; with rows visible the page is the last page |
| Update.EventsGrow | table/update.go:202-285 | events appended in two steps, none a cursor move, are a prefix extension with no cursor move |
| Update.ApplyKeepsValid | table/update.go:9-77 | with a settling filter-and-sort, every single bound action keeps the row cursor on a row of the re-derived visible rows, the page equal to the cursor's page, the column cursor on a column and the offset in range; for the clear key this holds of the corrected clear key only (see "Findings") |
| Update.RunActionsKeepsValid | table/update.go:205-277 | with a settling filter-and-sort, trying any list of actions keeps that invariant |
| Update.RunActionsAppend | table/update.go:205-277 | trying two lists of actions one after the other is trying their concatenation |
| Update.RunActionsUnbound | table/update.go:205-277 | actions the key is not bound to change nothing |
| Update.RunActionsOnly | table/update.go:205-277 | when the key is bound to only one action of a list without repeats, trying the list runs that action alone |
| Update.BindingOrderLists | table/update.go:205-277 | a key press tries every action except filter blur, each exactly once |
| Update.ApplyEvents | table/update.go:241-269 | one action adds at most one event at the end, and never a cursor-move report |
| Update.RunActionsEvents | table/update.go:205-277 | trying the bindings keeps the earlier events and adds none that reports a cursor move |
| Update.RunActionsStayOnFirstRow | table/update.go:213-277 | from row 0, page 0, the column, selection, filter, clear and scroll actions stay on row 0, page 0 |
| Update.PressKeyKeepsValid | table/update.go:202-285 | with a settling filter-and-sort, a key press keeps the cursor invariant |
| Update.PressKeyReportsCursorMove | table/update.go:279-284 | the earlier events are kept; `HighlightedIndexChanged(previous, new)` is the last event exactly when the row cursor moved; no other new event reports a cursor move |
| Update.PressKeyUnbound | table/update.go:202-285 | a key bound to nothing changes nothing |
| Update.PressKeyOnlyBinding | table/update.go:202-285 | a key bound to one action gives that action's result (nothing for filter blur), then the cursor-move report if the row moved; this states every single-binding case: row, column, page, selection, filter and scroll |
| Update.PressKeyFirstPageWins | table/update.go:229-259 | a key bound to first page and not to last page ends on row 0, page 0, whatever else it is bound to |
| Update.DefaultTopKeyLandsOnFirstRow | table/update.go:229-259 | with the default bindings "g" (top row and first page) ends on row 0, page 0 |
| Update.DispatchKeepsValid | table/update.go:288-312 | with a settling filter-and-sort, one dispatch keeps the cursor invariant, through the filter input's path too |
| Update.DispatchRoutes | table/update.go:288-312 | events start empty; an unfocused table changes nothing else; while the filter input has focus only the filter path runs, keeping the rows, column cursor, scroll offset, last shown column and query, and `FilterInputUnfocused` is the only event exactly when the blur key was pressed; a non-key message changes nothing else; a key press is `PressKey` on the cleared state |
| Update.DispatchReportsCursorMove | table/update.go:288-312 | for a focused table with the filter input unfocused, the last event of a key press is the cursor-move report exactly when the row cursor moved |
| Navigation.RowAbove | table/update.go:9-14 | from row 0 the result is the last row, otherwise one less; a cursor on a row stays on a row |
| Navigation.RowBelow | table/update.go:19-24 | from the last row the result is 0, otherwise one more; a cursor on a row stays on a row |
| Navigation.RowAboveBelowInverse | table/update.go:9-27 | up and down undo each other on every row |
| Navigation.RowBelowCycles | table/update.go:19-24 | after k presses of down the cursor is (cursor + k) mod the row count |
| Navigation.ColumnLeft | table/update.go:40-45 | the column cursor moves one left and never goes below 0 |
| Navigation.ColumnRight | table/update.go:55-60 | the column cursor moves one right and never goes past the last column |
| Navigation.MoveLeft | table/update.go:39-49 | the offset changes exactly when the offset is positive and the new cursor is past the first column and at or before the offset |
| Navigation.MoveRight | table/update.go:54-64 | the offset changes exactly when it is below the largest offset and the new cursor is at or past the last shown column and is not the last column |
| Navigation.ColumnMovesStayInRange | table/update.go:39-67 | from a valid position, both moves keep the cursor on a column and the offset within its bounds |
| Navigation.MoveRightReachesLastColumn | table/update.go:54-60 | k presses of right advance k columns, stopping at the last column |
| Navigation.ScrollLeft | table/update.go:48 | one step left, never below 0 |
| Navigation.ScrollRight | table/update.go:63 | one step right, never past the largest offset |
| Navigation.GoDiv | table/update.go:16 | Go's integer division, truncating toward zero (the bracketing is `GoDivBrackets`) |
| Navigation.GoDivBrackets | table/update.go:16 | Go's truncating division brackets the dividend from below for non-negative and from above for negative dividends |
| Navigation.ExpectedPage | table/update.go:16 | the page a row is on: 0 when unpaged, otherwise the row over the page size with Go's division (the bracketing is `ExpectedPageBrackets`) |
| Navigation.ExpectedPageBrackets | table/update.go:16 | unpaged, every row is on page 0; paged, row i is on the page p with p·size ≤ i < (p+1)·size |
| Navigation.MaxPages | table/update.go:257-259 | at least one page; with rows and a page size, the page count is the ceiling of rows over page size |
| Navigation.PageDownCursor | table/update.go:245-247 | with rows, the cursor stays on a row; it lands on the first row of the next page, one page further, when that row exists, and on the last row when it does not, when the cursor is on the last page, or when the table is unpaged |
| Navigation.PageUpCursor | table/update.go:249-251 | with rows, the cursor stays on a row; it lands on the first row of the previous page, one page back, when that row exists, and on row 0 when it does not, when the cursor is on the first page, or when the table is unpaged |
| Navigation.PageLastCursor | table/update.go:257-259 | the cursor lands on a row of the last page |
| Layout.LastShown | table/update.go:94-159 | the result is the old value or a column that overflows |
| Layout.LastShownIsFirstOverflow | table/update.go:142-153 | with no overflowing column the old value is kept; otherwise the result is the first overflowing column |
| Layout.NoBudgetKeepsLastShown | table/update.go:126 | with a width budget of 0 the index is left unchanged |
| Layout.RecordedColumnIsShown | table/update.go:111-114 | frozen columns are never skipped, and the recorded index is never a scrolled-away column |
| Layout.SkippedColumnsAddNoWidth | table/update.go:97-114 | the scrolled-away columns add nothing beyond the left indicator |
| Layout.FirstScrolledColumnCountsIndicator | table/update.go:97-109 | the first column in view after scrolling is tested with the left indicator's width already counted |
| Layout.AcceptedColumnsFit | table/update.go:134-155 | a column accepted under the budget keeps the running total within its target, and so within the maximum width |
| Layout.RunningTotalGrows | table/update.go:106-155 | the running total never decreases |
| TableTypes.Matches | table/update.go:205-206 | a key triggers an action when it is among the action's key names |
| TableTypes.DefaultKeyMap | table/keys.go:40-97 | the default key names of every action |
| TableTypes.DefaultKeyMapOverlaps | table/keys.go:60-86 | the default "g" triggers both top row and first page, and "enter" triggers both selection and filter blur |
| TableTypes.Unstyled | table/sort_test.go:37-43 | peeling the style wrappers off a cell leaves a plain value |
| Sorting.Flip | table/sort_test.go:53-55 | reversing an ordering swaps less and greater and keeps equal |
| Sorting.CompareInts | table/sort_test.go:58-92 | less exactly when a < b, equal exactly when a = b |
| Sorting.CompareStrings | table/sort_test.go:51-55 | byte-wise lexicographic order, as Go compares strings (antisymmetry, equality and transitivity are lemmas below) |
| Sorting.CompareStringsFlip | table/sort_test.go:51-55 | swapping the strings reverses the order |
| Sorting.CompareStringsEqual | table/sort_test.go:10-56 | strings compare equal exactly when they are the same |
| Sorting.CompareValues | table/sort_test.go:13-92 | compares cell values by the data they wrap: integers numerically, strings byte-wise, integers before strings |
| Sorting.CompareValuesFlip | table/sort_test.go:51-55 | swapping two cell values reverses their order |
| Sorting.CompareCells | table/sort_test.go:13-19 | a missing cell comes before a present one, and two missing cells tie |
| Sorting.CompareByColumn | table/sort_test.go:51-55 | one link of the chain: the cell comparison, reversed for a descending key |
| Sorting.CompareRows | table/sort_test.go:110-133 | the first link of the chain that tells the rows apart decides; rows tie when none does |
| Sorting.CompareRowsFlip | table/sort_test.go:51-55 | the chain comparator is antisymmetric: swapping the rows reverses the result |
| Sorting.Insert | table/sort_test.go:128-140 | places a row after every row that does not sort after it, so it comes after the rows it ties with (`InsertTies`) |
| Sorting.SortRows | table/sort_test.go:128-140 | the sort of the rows under the chain: a sorted permutation (`SortRowsPermutes`, `SortRowsSorted`) that is stable (`SortRowsStable`) |
| Sorting.Ties | table/sort_test.go:128-140 | the rows of a sequence that tie with a given row, in their order there; each of them ties with it |
| Sorting.TiesAppend | table/sort_test.go:128-140 | the ties of a concatenation are the ties of each part, in order |
| Sorting.CompareRowsTiesTransitive | table/sort_test.go:110-133 | tying under the chain is transitive |
| Sorting.NoTiesAfterLarger | table/sort_test.go:128-140 | in sorted rows that all sort after y, no row ties with a row that ties with y |
| Sorting.InsertTies | table/sort_test.go:128-140 | inserting y keeps the ties of every row x and puts y after them when y ties with x |
| Sorting.SortRowsStable | table/sort_test.go:128-140 | for every row x, the sorted rows that tie with x are the input rows that tie with x, in the same order |
| Sorting.InsertPermutes | table/sort_test.go:50 | inserting adds exactly the one row |
| Sorting.InsertSorted | table/sort_test.go:51 | inserting into sorted rows keeps them sorted |
| Sorting.SortRowsPermutes | table/sort_test.go:50 | the sorted rows are a permutation of the rows, with the same count |
| Sorting.SortRowsSorted | table/sort_test.go:128-133 | every neighbouring pair of the sorted rows is in chain order |
| Sorting.MissingDataOrder | table/sort_test.go:13-19 | under an ascending key a row missing it comes before a row having it; under a descending key, after it |
| Sorting.MissingFirstWhenAscending | table/sort_test.go:51 | in rows sorted by one ascending key, the rows missing it form a prefix |
| Sorting.MissingLastWhenDescending | table/sort_test.go:55 | in rows sorted by one descending key, the rows missing it form a suffix |
| Sorting.StyledComparesByData | table/sort_test.go:13-42 | a styled cell compares exactly as the value it wraps, on either side |
| Sorting.IntsCompareNumerically | table/sort_test.go:58-92 | integer cells, styled or not, compare numerically |
| Sorting.ChainUsesLaterKeysOnlyOnTies | table/sort_test.go:110-133 | the first key decides when it tells the rows apart; otherwise the rest of the chain decides |
| Sorting.CompareStringsTransitive | table/sort_test.go:51-55 | the string order is transitive |
| Sorting.CompareValuesTransitive | table/sort_test.go:13-92 | the value order is transitive |
| Sorting.CompareCellsFlip | table/sort_test.go:13-19 | swapping two cells reverses their order |
| Sorting.CompareCellsTransitive | table/sort_test.go:13-19 | the cell order, missing cells first, is transitive |
| Sorting.CompareByColumnFlip | table/sort_test.go:51-55 | one link of the chain is antisymmetric in either direction |
| Sorting.CompareByColumnTransitive | table/sort_test.go:51-55 | one link of the chain is transitive in either direction |
| Sorting.CompareRowsTransitive | table/sort_test.go:110-133 | the chain comparator is transitive |
| Sorting.CompareRowsReflexive | table/sort_test.go:110-133 | every row ties with itself |
| Sorting.SortedAll | table/sort_test.go:128-133 | in rows sorted pair by pair, every earlier row sorts no later than every later row |
| Sorting.SortedUnique | table/sort_test.go:128-140 | two sorted arrangements of the same rows are equal when only identical rows tie |
| Sorting.Opposite | table/sort_test.go:135 | the chain with every direction turned around keeps the keys and flips each direction |
| Sorting.CompareRowsOpposite | table/sort_test.go:51-55 | the opposite chain compares the rows the other way round |
| Sorting.Reverse | table/sort_test.go:51-55 | the rows read backwards |
| Sorting.ReversePermutes | table/sort_test.go:51-55 | reading backwards keeps every row |
| Sorting.ReverseSortedOpposite | table/sort_test.go:51-55 | rows sorted under a chain, read backwards, are sorted under the opposite chain |
| Sorting.OppositeSortIsReverse | table/sort_test.go:51-55 | when only identical rows tie, sorting under the opposite chain gives the sorted rows backwards |
| Sorting.DescIsReverseOfAsc | table/sort_test.go:51-55 | when only identical rows tie on a key, sorting descending by it gives the ascending result backwards |
| SortExamples.SortIdsAsc | table/sort_test.go:13-51 | sorting b, bold c, a and a missing row ascending gives missing, a, b, c |
| SortExamples.SortIdsDesc | table/sort_test.go:53-55 | sorting them descending gives c, b, a, missing |
| SortExamples.SortSingleColumnAscAndDesc | table/sort_test.go:10-56 | through the table's setters: the count is kept, ascending gives missing, a, b, c and a following descending sort gives c, b, a, missing |
| SortExamples.SortSingleColumnIntsAsc | table/sort_test.go:58-92 | 13, bold 1, 2 sort ascending to 1, 2, 13 |
| SortExamples.NameAscScoreDescComparisons | table/sort_test.go:110-115 | how the four score rows compare under name ascending, then score descending |
| SortExamples.SortScoresNameAscScoreDesc | table/sort_test.go:128-133 | four rows comparing that way sort to (a,100), (a,75), (b,101), (c,50) |
| SortExamples.SortTwoColumnsAscThenDesc | table/sort_test.go:94-133 | through the table's setters, name ascending then score descending gives (a,100), (a,75), (b,101), (c,50) |
| SortExamples.NameDescScoreAscComparisons | table/sort_test.go:135 | how the four score rows compare under name descending, then score ascending |
| SortExamples.SortScoresNameDescScoreAsc | table/sort_test.go:137-140 | four rows comparing that way sort to (c,50), (b,101), (a,75), (a,100) |
| SortExamples.SortTwoColumnsDescThenAsc | table/sort_test.go:135-140 | a fresh descending sort replaces the chain: (c,50), (b,101), (a,75), (a,100) |
| Options.Model.HeaderStyle | table/options.go:6-9 | the header style is set and no other field changes |
| Options.Model.WithRows | table/options.go:12-15 | the rows are set and no other field changes, not even the sorted rows |
| Options.Model.WithKeyMap | table/options.go:18-21 | the key map is set and no other field changes |
| Options.Model.KeyMap | table/options.go:24-26 | returns the key map in use (read back by `KeyMapRoundTrip`) |
| Options.KeyMapRoundTrip | table/options.go:18-26 | the key map read back is the one last set |
| Options.Model.SelectableRows | table/options.go:30-46 | the flag is set; turning it on prepends the select column ("[x]", width 3) unless it is already first; turning it off drops a leading select column; otherwise the columns and all other fields are unchanged |
| Options.SelectableRowsIdempotent | table/options.go:33-35 | setting the same flag twice equals setting it once (see "Left out" for the proviso) |
| Options.SelectableRowsOffTwiceDropsTwo | table/options.go:40-42 | without that proviso, turning selection off twice drops two leading select columns |
| Options.SelectableRowsOnOffRestoresColumns | table/options.go:30-42 | turning selection on and then off restores columns that did not start with the select column |
| Options.Model.HighlightedRow | table/options.go:49-56 | as written: the row at the cursor in the source order of the rows, or the empty row when there are no rows |
| Options.Model.HighlightedVisibleRow | table/options.go:48-56 | corrected (see "Findings"): the row at the cursor in the sorted rows the table shows, or the empty row when there are none |
| SortExamples.HighlightedRowIgnoresSort | table/options.go:50-52 | rows with ids 2 and 1 sorted ascending by id: the first row shown is id 1, the source-order lookup gives id 2, the corrected lookup gives id 1 |
| Options.Model.SelectedRows | table/options.go:59-61 | returns the rows the user has selected (kept by every setter, `SettersKeepSelectedRows`) |
| Options.SettersKeepSelectedRows | table/options.go:59-61 | no setter changes the selected rows that `SelectedRows` returns |
| Options.Model.HighlightStyle | table/options.go:65-68 | the highlight style is set and no other field changes |
| Options.Model.Focused | table/options.go:72-75 | the focus flag is set and no other field changes |
| Options.SettersCommute | table/options.go:6-75 | setters of different fields commute |
| Options.New | table/sort_test.go:21-23 | a table with the given columns, no rows, no sort chain, selection off, unfocused, the default key map and the cursor on row 0 |
| Options.Model.SortByAsc | table/sort_test.go:23 | the chain becomes one ascending key, the sorted rows are the rows sorted by it, and nothing else changes |
| Options.Model.SortByDesc | table/sort_test.go:53 | the chain becomes one descending key and the rows are re-sorted |
| Options.Model.ThenSortByAsc | table/sort_test.go:135 | an ascending key is added behind the chain and the rows are re-sorted |
| Options.Model.ThenSortByDesc | table/sort_test.go:115 | a descending key is added behind the chain and the rows are re-sorted |
| Options.SortByReplacesChain | table/sort_test.go:135-140 | a fresh single-key sort discards the previous chain entirely |
| Options.SortedRowsPermuteRows | table/sort_test.go:128 | the table's sorted rows are a permutation of its rows, with the same count |

## Left out

- Rendering: lipgloss styles, `lipgloss.Width` and header drawing are an abstract `render` function. It gives the width of a header cell for a column or the left overflow indicator, drawn with a left, inner or right border. The unused header strings and the right overflow indicator are not built.
- The visible rows: `GetVisibleRows` (filtering and sorting with a cache) is not part of this model. It is an abstract function `visible` of the rows and the query, given when a `TableState` is built; the model reads it afresh wherever the source calls `GetVisibleRows`, which is what the source's cache gives since every change to the rows or the query invalidates it. `visibleRowCacheUpdated` only records when the source would recompute.
- Update.ApplyKeepsValid: proved given that the filter-and-sort settles (`Settles`). A toggle replaces the rows by the toggled visible rows, and only a settling filter-and-sort is sure to show as many rows again. For the clear key it holds of the corrected clear key only, as "Findings" explains.
- Update.RunActionsKeepsValid: the same proviso, through `ApplyKeepsValid`.
- Update.PressKeyKeepsValid: the same proviso, through `ApplyKeepsValid`.
- Update.DispatchKeepsValid: the same proviso, through `ApplyKeepsValid`.
- Update.TableState.Update: keeps the invariant under the same proviso; the constructor demands a settling filter-and-sort.
- Update.PressKey: runs the corrected clear key of "Findings"; the clamp is not in the source. From a state where a filter hides every row, the bottom key and then the clear key end with the cursor at -1 and no event in the source, and with the cursor at 0 and a `HighlightedIndexChanged(-1, 0)` event here.
- Update.Dispatch: runs the corrected clear key through `PressKey`; the clamp is not in the source. From a state where a filter hides every row, the bottom key and then the clear key end with the cursor at -1 and no event in the source, and with the cursor at 0 and a `HighlightedIndexChanged(-1, 0)` event here.
- Update.TableState.ClearFilter: is the corrected clear key; the clamp is not in the source. From a state where a filter hides every row, the bottom key and then the clear key end with the cursor at -1 and no event in the source, and with the cursor at 0 and a `HighlightedIndexChanged(-1, 0)` event here.
- Update.TableState.RunFilterBindings: runs the corrected clear key; the clamp is not in the source. From a state where a filter hides every row, the bottom key and then the clear key end with the cursor at -1 and no event in the source, and with the cursor at 0 and a `HighlightedIndexChanged(-1, 0)` event here.
- Update.TableState.HandleKeypress: runs the corrected clear key; the clamp is not in the source. From a state where a filter hides every row, the bottom key and then the clear key end with the cursor at -1 and no event in the source, and with the cursor at 0 and a `HighlightedIndexChanged(-1, 0)` event here.
- Update.TableState.Update: runs the corrected clear key; the clamp is not in the source. From a state where a filter hides every row, the bottom key and then the clear key end with the cursor at -1 and no event in the source, and with the cursor at 0 and a `HighlightedIndexChanged(-1, 0)` event here.
- Update.Toggled: a cursor off the visible rows while rows are visible makes the toggle a no-op; the source guards only against no visible rows and then panics indexing row -1 or past the end. Under the cursor invariant, which every dispatch keeps with the corrected clear key, that state does not arise.
- Update.TableState.constructor: the source's constructor (`New` in model.go) is not part of this model. The constructor here builds the start state that a dispatch works from: row 0, column 0, page 0, unscrolled, the filter input unfocused with a given query, and no events. Typing is not modelled, so the query given here is the one the table keeps until the clear key empties it.
- The filter text input: focus, blur and reset are modelled as a flag and a query string. Typing into the query is not modelled, so `FilterInput` and `DispatchRoutes` keep the query unchanged while the input has focus; in the source a key typed there edits it.
- `tea.Cmd` results and `tea.Msg` types are not modelled. A message is either a key press (the key name) or something else.
- Key matching: `key.Matches` is set membership in a map from logical action to key names. Disabled bindings are not modelled.
- Value receivers: Go's `Update` and `updateFilterTextInput` take the model by value and return the updated copy. They are modelled as in-place updates of one `TableState` object, which is equivalent because the caller keeps only the returned copy.
- Configuration fields of `TableState`: the columns, page size, freeze count, largest offset, width budget, selectable flag, focus flag and key map are immutable (`const`). The dispatcher never assigns them.
- Helpers that are called but not part of this model:
  - `expectedPageForRowIndex`: row over page size with Go's truncating division, 0 when unpaged.
  - `scrollLeft` and `scrollRight`: one-step moves, clamped to 0 and to `maxHorizontalColumnIndex`.
  - `pageDown`, `pageUp`, `pageFirst` and `pageLast`: the cursor moves to the first row of the next, previous, first or last page, and otherwise clamps to the last row or to 0.
  - `MaxPages`: the ceiling of rows over page size, and 1 when unpaged. It is also 1 when there are no rows, so the last page index is never negative; a plain ceiling would give 0 pages there.
- Group methods: the source's `handleKeypress` is one method. Here it is split into methods of two bindings each, run in the source's order; each is proved against `RunActions`, and `RunActionsAppend` joins them into `BindingOrder`.
- Options.SelectableRowsIdempotent: proved under a proviso for turning selection off. The column behind a leading select column must not itself be a select column. Without it, the source drops one more column on a second call, as `SelectableRowsOffTwiceDropsTwo` shows.
- Options.Model.SelectableRows: requires at least one column, as the source indexes the first column unguarded.
- Options.Model.HighlightedRow: requires the cursor to be on a row when there are rows. The source indexes its rows with the cursor unguarded and panics otherwise. That case is reachable: when a filter hides every row, moving to the bottom sets the cursor to -1 while rows remain. That it indexes the source rows, not the shown ones, is a finding below.
- Options.Model and Update.TableState: the source has one `Model`. The configuration setters are modelled on a value (`Options.Model`) and the runtime state machine on an object (`Update.TableState`); the two are not connected, and no setter moves the cursor.
- Sorting: values of different kinds (an integer against a string) are ordered integers first, a choice the tests do not fix.
- Sorting.OppositeSortIsReverse: stated for inputs where only identical rows tie. Distinct tied rows keep their input order under both chains (`SortRowsStable`), so there the opposite sort is not the reverse.
- Options.ColumnKeySelect: the literal key of the select column is a stand-in. Only its identity matters.
- Integers are unbounded. The cursor and width arithmetic stays far from Go's `int` limits.

## Findings

| source | as written | input that shows it | evidently intended | confidence | as-written member | corrected member |
|---|---|---|---|---|---|---|
| table/update.go:266-269 | the clear key resets the query and invalidates the visible rows but leaves the row cursor where it was | a filter hides every row; the bottom key (update.go:34-37) puts the cursor at -1; the clear key shows the rows again with the cursor still at -1, and a following toggle indexes row -1 at update.go:171 (`ClearAfterBottomAsWrittenLeavesNoRow`, `ClearAfterBottomExample`) | the cursor is clamped onto the rows the cleared filter shows, so it stays on a visible row | medium, not executed | Update.ClearedFilterAsWritten | Update.ClearedFilter |
| table/options.go:50-52 | the highlighted row is looked up in the rows in source order, while the cursor counts the rows as shown, sorted | rows with ids 2 then 1, sorted ascending by id, cursor on the first row shown: that row is id 1, the lookup returns id 2 (`HighlightedRowIgnoresSort`) | the row under the cursor is looked up in the sorted rows the table shows | medium, not executed | Options.Model.HighlightedRow | Options.Model.HighlightedVisibleRow |
