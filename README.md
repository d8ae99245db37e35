# Splitting table rows across a page break: a model of `Prawn::TableSplittable`

`Prawn::TableSplittable` is the prawn-table subclass that can split the last row on a page.
The part of that row that fits stays on the current page, and the rest shows up at the top of
the next page. This project models the bookkeeping behind that decision, in Dafny:

- which rows may be split at all, and which cells the content splitter is asked about;
- the draw loop's routing state (`row_to_split`, `splitting`, `original_height`,
  `started_new_page_at_row`, `offset`, `split_cells`, `cells_this_page`);
- when a page is flushed early, and how the pending cells are re-split before that;
- which pending cells reappear on the next page;
- how `print_split_cells` reconciles heights per row and appends one entry per split cell to
  the page buffer;
- the final pass that gives every real cell on the last page its row's height.

The model follows the source's own form:

- Pure Ruby code becomes functions and lemmas: `only_plain_text_cells`, `split_cell_content`.
- Code that mutates becomes methods with loops and invariants.
- `print_split_cells` works in place on an `array<Cell>`, as the source changes the cell
  objects it is given. The second print after the loop reuses that array. The source's
  sharing of those objects with the table and the page buffer is not modelled (see
  "Sharing of cell objects" under "## Left out").
- `calculate_split_cells_new_page` is a method with its two nested loops.
- `cells_this_page` is a `PageBuffer` object whose entry list grows by `Append`.
- The locals of `draw` are a `Locals` value that the loop methods take and return, with the
  page buffer beside it.

Every method is proved against a specification function or a plain expression over its
inputs:

- `Draw` against `DrawPages`, `ProcessCell` against `Step`, `PrepareCell` against `Prepare`
  and `Processed`, `SplitModeStep` against `SplitModePrepare`, `SplitModeMark` against
  `SplitModeMarked` and `SplitModeCell`, `FlushEarly` against `EarlyFlush`, `Finish` against
  `FinishPages`;
- `FlushAndReprint`, `PrintPending` and `ReprintCarried` against `FlushPrinted`,
  `FlushedPage` and `CarriedPage`, `ResplitPending` against `Resplit`;
- `PrintSplitCells` and `PrintCopy` against `Reconciled` and `Placed`, `CollectMaxHeights`
  against `Replaced` and `MaxHeights`, `PlaceSplitCells` against `ReconcileAll` and
  `Placed`, their single steps `CollectMaxHeight` and `PlaceSplitCell` against `RecordHeight`,
  `Reconcile` and `Origin`, `SubtractRowHeights` against `SumHeights`;
- `CalculateSplitCellsNewPage` against `Selected`, `PageBuffer.NormaliseHeights` against
  `Normalised`;
- `PageBuffer.Append`, the `PageBuffer` constructor and `CopyToArray` against the sequence
  they append or copy.

The properties the source promises are then proved about those functions as lemmas.

Modules:

| file | module | what it holds |
|---|---|---|
| `cell_model.dfy` | `CellModel` | cells, entries, the environment, `Hash.new(0)` reads, row sums, `uniq` |
| `classification.dfy` | `Classification` | `only_plain_text_cells`, `split_cell_content` |
| `new_page_selection.dfy` | `NewPageSelection` | `calculate_split_cells_new_page` |
| `page_sink.dfy` | `PageSink` | `cells_this_page` and the final height normalisation |
| `split_printing.dfy` | `SplitPrinting` | the height and append logic of `print_split_cells` |
| `draw_loop.dfy` | `DrawLoop` | the loop of `draw`, the early flush, the code after the loop |

The environment (`CellModel.Env`) stands for everything whose code is not part of the model:

- the heights of the rows, and their recalculated heights;
- `calculate_height_ignoring_span` and `filtered_dummy_cells`;
- the content splitter `SplitCell#split`;
- a cell's y position and the bottom of the reference bounds;
- `start_new_page?`;
- what the superclass's page start yields: the header entries and the new offset;
- the value `print_split_cells` returns on the new page;
- the header rows, `initial_row_on_initial_page`, the starting `@pdf.y`, and the
  `split_cells_in_final_row` option.

Each of these is a fixed function or value of the environment, so every question asked twice
gets the same answer.

Two details of the early flush, as the code has them:

- The early-flush test (lines 73-77) runs for every cell of a plain-text row in split mode,
  whether or not a split starts at that cell.
- The room it compares with is measured at line 55, before `split_cell_content`. The cell's
  height is measured at line 73, after it.

## Model

| member | source | states |
|---|---|---|
| CellModel.HasContent | lib/prawn/table_splittable.rb:261 | a cell has content when it is neither nil nor empty, the `unless` of line 261 |
| CellModel.Lookup | lib/prawn/table_splittable.rb:243 | a read of `Hash.new(0)`: a missing key reads as 0 (the reads at lines 261 and 274-276) |
| CellModel.SumHeights | lib/prawn/table_splittable.rb:283-288 | the sum of a height over a list of rows, 0 for an empty list (`inject(:+)`, with nil read as 0); also the subtraction loop at lines 257-259 |
| CellModel.RowsHeight | lib/prawn/table_splittable.rb:94 | `rows(a..b).height`: the sum of the row heights from `a` to `b` inclusive, 0 when the range is empty (also line 311) |
| CellModel.RowDummyRows | lib/prawn/table_splittable.rb:256 | the rows of the row-direction placeholders, each once (`map`, `uniq`, `compact`; also line 281) |
| CellModel.RowCellsConcat | lib/prawn/table_splittable.rb:188 | `row(r)` keeps table order: the row of two tables laid end to end is the row of the first followed by that of the second, and one cell gives itself or nothing |
| CellModel.ApplySplit | lib/prawn/table_splittable.rb:182-183 | the splitter changes a cell's content, continuation and heights only; its row, class, spans and flags are kept |
| CellModel.RowDummyRowList | lib/prawn/table_splittable.rb:256 | a row is listed iff some row-direction placeholder of the cell lies in it |
| CellModel.Uniq | lib/prawn/table_splittable.rb:256 | `uniq` keeps exactly the elements of its input, each once, and never grows the list |
| CellModel.RowDummyRowsMembers | lib/prawn/table_splittable.rb:256 | the rows covered by row placeholders are exactly those named by one, and none is listed twice |
| CellModel.RowCells | lib/prawn/table_splittable.rb:188 | `row(r)` holds exactly the table's cells whose row is `r` |
| Classification.PlainText | lib/prawn/table_splittable.rb:191-195 | a cell is plain text when it is a `Text` cell with none of `rotate`, `rotate_around`, `leading`, `single_line` set |
| Classification.PlainTextRow | lib/prawn/table_splittable.rb:54 | the split-mode test asks `only_plain_text_cells` of the cells of the current cell's row |
| Classification.FirstDummy | lib/prawn/table_splittable.rb:188-190 | the index where the scan stops: no placeholder before it, a placeholder at it unless it is the end |
| Classification.OnlyPlainTextCells | lib/prawn/table_splittable.rb:187-200 | the row is splittable iff every cell before the first span placeholder is a plain text cell |
| Classification.EmptyRowIsPlain | lib/prawn/table_splittable.rb:199 | an empty row is splittable |
| Classification.CellsAfterDummyIgnored | lib/prawn/table_splittable.rb:189-190 | the answer does not depend on any cell after the first placeholder |
| Classification.RefusedRowHasWitness | lib/prawn/table_splittable.rb:188-198 | a row is refused iff some cell before any placeholder is not plain text (both directions) |
| Classification.SplitCellContent | lib/prawn/table_splittable.rb:175-184 | placeholders and cells outside the split row come back unchanged; a real cell of that row gets the splitter's answer; row, class and spans are always kept |
| Classification.SplitterNotConsulted | lib/prawn/table_splittable.rb:177-179 | for a cell that is not dispatched, two different splitters give the same result, the input cell |
| Classification.SplitKeepsPlainTextRow | lib/prawn/table_splittable.rb:54-66 | splitting a cell never changes whether any row of the table counts as plain text |
| Classification.SameShapesKeepPlainTextRow | lib/prawn/table_splittable.rb:187-200 | any rewrite of the table that keeps every cell's row, class and text options (only content and heights change) keeps the answer of the plain-text test for every row |
| NewPageSelection.SpansInto | lib/prawn/table_splittable.rb:224-229 | some placeholder of the cell lies in the given row |
| NewPageSelection.KeepOnNewPage | lib/prawn/table_splittable.rb:218-230 | the two guards: a real cell spanning nothing above the last row of the last page is skipped; a spanning cell is kept only if a placeholder of it lies in that row |
| NewPageSelection.Selected | lib/prawn/table_splittable.rb:214-237 | the pending cells that pass both guards, in their original order |
| NewPageSelection.KeepOnNewPageCases | lib/prawn/table_splittable.rb:218-233 | a cell without spans is kept iff it is a placeholder or lies at or below the last row of the last page; a spanning cell is kept iff a placeholder of it lies in that row |
| NewPageSelection.CalculateSplitCellsNewPage | lib/prawn/table_splittable.rb:204-237 | the two loops return exactly the pending cells that pass the guards, in order |
| NewPageSelection.SelectedIsSubsequence | lib/prawn/table_splittable.rb:214-237 | the cells for the new page are a subsequence of the pending cells: order kept, nothing added |
| NewPageSelection.SelectedCounts | lib/prawn/table_splittable.rb:214-237 | a kept cell occurs exactly as often as among the pending cells, a dropped cell not at all |
| NewPageSelection.SelectedSubMultiset | lib/prawn/table_splittable.rb:214-237 | no duplicates and no new cells: the result is a sub-multiset of the input |
| NewPageSelection.SelectedMembers | lib/prawn/table_splittable.rb:214-237 | a cell is on the new page iff it was pending and passes the guards |
| PageSink.Normalises | lib/prawn/table_splittable.rb:161-162 | the pass skips span placeholders and cells of header rows, and touches every other cell |
| PageSink.NormaliseEntry | lib/prawn/table_splittable.rb:163-164 | a touched entry gets `row(cell.row).height` and keeps its position; any other entry is unchanged |
| PageSink.Normalised | lib/prawn/table_splittable.rb:160-165 | the pass over every entry of the buffer, in order |
| PageSink.NormalisedHeights | lib/prawn/table_splittable.rb:160-165 | after the pass every real non-header cell has its row's height, other entries are untouched, only heights change, length and order are kept |
| PageSink.NormalisedIdempotent | lib/prawn/table_splittable.rb:160-165 | running the normalisation twice equals running it once |
| PageSink.PageBuffer.constructor | lib/prawn/table_splittable.rb:44 | a new page buffer holds exactly the entries it is started with |
| PageSink.PageBuffer.Append | lib/prawn/table_splittable.rb:137 | `<<` adds one entry at the end and keeps every earlier one |
| PageSink.PageBuffer.NormaliseHeights | lib/prawn/table_splittable.rb:155-165 | the loop leaves the buffer equal to the normalised buffer |
| SplitPrinting.ContentOnPage | lib/prawn/table_splittable.rb:247 | on the new page a cell's content becomes its continuation; otherwise it is unchanged |
| SplitPrinting.AdjustedHeight | lib/prawn/table_splittable.rb:250-259 | the height a cell demands: `original_height` if set, else the height ignoring spans (respecting the original height unless on the new page), less the heights of its row-placeholder rows |
| SplitPrinting.RecordHeight | lib/prawn/table_splittable.rb:261 | a cell with content raises its row's entry to its demand when that is larger; other cells leave the table unchanged |
| SplitPrinting.MaxHeights | lib/prawn/table_splittable.rb:243-262 | `max_cell_height` after the first loop: the recording folded over the switched cells in order, from an empty table |
| SplitPrinting.MinKey | lib/prawn/table_splittable.rb:271 | the least key of `max_cell_height`, or 0 when there is none |
| SplitPrinting.BaseHeight | lib/prawn/table_splittable.rb:271-277 | a real cell above the first row on the new page gets that row's maximum, any other real cell its own row's |
| SplitPrinting.ExtraHeight | lib/prawn/table_splittable.rb:281-284 | the recalculated heights of the rows of the cell's filtered row placeholders, summed |
| SplitPrinting.Reconcile | lib/prawn/table_splittable.rb:265-288 | a real cell gets its base height, then every cell, placeholders included, grows by its extra height |
| SplitPrinting.LastRow | lib/prawn/table_splittable.rb:281 | `split_cells.last.row`, the row of the last split cell |
| SplitPrinting.Reconciled | lib/prawn/table_splittable.rb:243-288 | the split cells after both loops: content switched, the maxima built from them, each cell reconciled against the least key and the last split row |
| SplitPrinting.Origin | lib/prawn/table_splittable.rb:304-322 | a real spanning cell above the last split row on the new page is placed against `offset` less the heights of the rows below it up to that row; every other cell against `offset` |
| SplitPrinting.Replaced | lib/prawn/table_splittable.rb:247 | switching to the continuation keeps the number of split cells |
| SplitPrinting.ReplacedAt | lib/prawn/table_splittable.rb:244-247 | on the new page each split cell shows its continuation, elsewhere it is unchanged, position by position |
| SplitPrinting.MinKeyIsLeast | lib/prawn/table_splittable.rb:271 | the first row of the new page is the least key of a non-empty table, and 0 for an empty one |
| SplitPrinting.ReconcileAll | lib/prawn/table_splittable.rb:264-288 | the second loop gives every split cell a height and keeps their number |
| SplitPrinting.ReconcileAllAt | lib/prawn/table_splittable.rb:264-288 | each split cell's height is decided by that cell alone, in place |
| SplitPrinting.Placed | lib/prawn/table_splittable.rb:304-323 | exactly one entry per split cell is appended |
| SplitPrinting.PlacedBelow | lib/prawn/table_splittable.rb:304-323 | exactly one entry per split cell, against a given last split row |
| SplitPrinting.PlacedBelowAt | lib/prawn/table_splittable.rb:304-323 | the k-th appended entry is the k-th split cell at its own origin, moved up only in the special new-page case |
| SplitPrinting.PrintSplitCells | lib/prawn/table_splittable.rb:239-324 | the cells end as the reconciled cells, and the buffer is its old contents followed by one entry per cell, with nothing removed |
| SplitPrinting.CollectMaxHeights | lib/prawn/table_splittable.rb:243-262 | the first loop switches every cell to the page's content and builds the per-row maximum table |
| SplitPrinting.CollectMaxHeight | lib/prawn/table_splittable.rb:245-261 | one iteration changes only cell `i` and raises only that cell's row |
| SplitPrinting.SubtractRowHeights | lib/prawn/table_splittable.rb:257-259 | the inner loop takes off the sum of the heights of the listed rows |
| SplitPrinting.PlaceSplitCells | lib/prawn/table_splittable.rb:264-324 | the second loop gives each cell its reconciled height and appends one entry per cell after the old contents |
| SplitPrinting.AppendedArePlaced | lib/prawn/table_splittable.rb:264-324 | entries appended one per cell, each at its origin, are exactly the placed cells |
| SplitPrinting.PlaceSplitCell | lib/prawn/table_splittable.rb:265-323 | one iteration reconciles cell `i` only and appends exactly its entry |
| SplitPrinting.MaxHeightsBounds | lib/prawn/table_splittable.rb:243-262 | every maximum is at least 0 and at least the demand of every cell with content in that row; every key was set by such a cell, to a positive value |
| SplitPrinting.MaxHeightsIgnoresEmpty | lib/prawn/table_splittable.rb:261 | cells with nil or empty content never affect the table: same keys, same values as without them |
| SplitPrinting.ReconciledKeepsCells | lib/prawn/table_splittable.rb:244-288 | printing changes content and height only; on the new page the content becomes the continuation |
| SplitPrinting.ReconciledCoversContent | lib/prawn/table_splittable.rb:264-288 | each real split cell's height is a non-negative base from the table, covering its demand when it has content, plus its placeholder rows' recalculated heights |
| SplitPrinting.ReconciledRowsAgree | lib/prawn/table_splittable.rb:271-277 | all real split cells of one row get the same base height |
| SplitPrinting.BaseHeightCovers | lib/prawn/table_splittable.rb:261-277 | the base height is never negative, and covers the cell's demand when it has content, in both branches of the row test |
| DrawLoop.Init | lib/prawn/table_splittable.rb:31-51 | the locals before the first cell: `row_to_split` -1, not splitting, `original_height` 0, `started_new_page_at_row` the initial row, `offset` the starting y, no pending cells, an empty page, no page drawn |
| DrawLoop.InSplitMode | lib/prawn/table_splittable.rb:54 | the split-mode branch is taken when `split_cells_in_final_row` is set and the cell's row is plain text |
| DrawLoop.MaxAvailableHeight | lib/prawn/table_splittable.rb:55 | the room left: the cell's y plus the offset, less the bottom of the bounds |
| DrawLoop.StartsSplit | lib/prawn/table_splittable.rb:58 | a split starts when `start_new_page?` answers yes at this cell and some room is left |
| DrawLoop.RowToSplitAfterStart | lib/prawn/table_splittable.rb:58-60 | `row_to_split` becomes the cell's row when a split starts, and is kept otherwise |
| DrawLoop.SplitModeCell | lib/prawn/table_splittable.rb:66 | the cell after `split_cell_content` with that `row_to_split` and the room left |
| DrawLoop.SplitModeMarked | lib/prawn/table_splittable.rb:55-71 | the split bookkeeping: a start sets `row_to_split`, `original_height` and `splitting`; a real cell of a later row then resets `row_to_split` to -1 |
| DrawLoop.NeedsEarlyFlush | lib/prawn/table_splittable.rb:73-77 | the early flush fires for a real cell of a row after `started_new_page_at_row` that is taller than the room left while cells are pending |
| DrawLoop.SplitModePrepare | lib/prawn/table_splittable.rb:55-116 | the split-mode branch: the bookkeeping, then the early flush when its test fires |
| DrawLoop.FlushPrinted | lib/prawn/table_splittable.rb:85-103 | the pending cells re-split against the height of their rows, then printed on the current page |
| DrawLoop.FlushedPage | lib/prawn/table_splittable.rb:103 | the page drawn by the early flush: its entries followed by those of the printed pending cells |
| DrawLoop.CarriedPage | lib/prawn/table_splittable.rb:105-111 | the next page: its header, then the printed cells kept by `calculate_split_cells_new_page`, printed again with their continuation at `offset - original_height` |
| DrawLoop.EarlyFlush | lib/prawn/table_splittable.rb:78-115 | the early flush: the page is drawn, the next page is started and filled, no cells are pending, splitting ends, the offset is the new page's less the reprint shift, and `started_new_page_at_row` is the cell's row |
| DrawLoop.StartNewPage | lib/prawn/table_splittable.rb:117-124 | the plain page break: the page is drawn, a page with the header starts at its offset, and `started_new_page_at_row` is the cell's row |
| DrawLoop.Prepare | lib/prawn/table_splittable.rb:54-125 | the loop body before colouring: the split-mode branch, else the plain page break when `start_new_page?` answers yes, else nothing |
| DrawLoop.Route | lib/prawn/table_splittable.rb:132-138 | while splitting a cell is pended, otherwise it is added to the page with the current offset |
| DrawLoop.Step | lib/prawn/table_splittable.rb:53-140 | one pass of the loop body: the preparation, then the routing of the processed cell |
| DrawLoop.Run | lib/prawn/table_splittable.rb:53-140 | the loop over the cells seen so far, in table order, from the initial locals |
| DrawLoop.FinishPages | lib/prawn/table_splittable.rb:142-168 | after the loop: the pending cells are printed on the page; an open split draws it and prints them again on a new page; the last page is normalised |
| DrawLoop.DrawPages | lib/prawn/table_splittable.rb:12-172 | the pages `draw` hands to the renderer: the loop over the whole table, then the code after it |
| DrawLoop.Processed | lib/prawn/table_splittable.rb:54-66 | the routed cell keeps its row, class and spans |
| DrawLoop.Resplit | lib/prawn/table_splittable.rb:85-99 | the re-split keeps the number of pending cells |
| DrawLoop.ResplitWithin | lib/prawn/table_splittable.rb:90-99 | the re-split against a fixed budget keeps the number of pending cells |
| DrawLoop.ResplitWithinAt | lib/prawn/table_splittable.rb:90-99 | each pending cell is re-split by itself, with its height cleared |
| DrawLoop.ResplitCells | lib/prawn/table_splittable.rb:85-99 | placeholders keep everything but their height; real cells get the splitter's answer for the combined height of the pending rows |
| DrawLoop.RunSplittingNeedsCells | lib/prawn/table_splittable.rb:53-62 | a split can only be open after at least one cell |
| DrawLoop.StepKeepsSplitInvariant | lib/prawn/table_splittable.rb:107-108 | one loop pass keeps "no pending cells unless a split is open" |
| DrawLoop.RunKeepsSplitInvariant | lib/prawn/table_splittable.rb:53-140 | that invariant holds after any prefix of the table |
| DrawLoop.StepRoutesOnce | lib/prawn/table_splittable.rb:132-138 | each processed cell goes to exactly one place: the pending list while splitting, the page buffer at the current offset otherwise |
| DrawLoop.StepRowToSplit | lib/prawn/table_splittable.rb:58-71 | `row_to_split` is set when a split starts, reset to -1 by a real cell of a later row, and otherwise kept |
| DrawLoop.StepLosesNoEntries | lib/prawn/table_splittable.rb:103-137 | no entry is ever dropped: the buffer grows, or it is drawn whole and exactly one page is added |
| DrawLoop.RunDrawnGrows | lib/prawn/table_splittable.rb:53-140 | pages once drawn stay drawn, in order |
| DrawLoop.DrawLastPageNormalised | lib/prawn/table_splittable.rb:142-165 | on the last page every real non-header cell has its row's height |
| DrawLoop.DrawKeepsLoopPages | lib/prawn/table_splittable.rb:142-168 | the pages drawn inside the loop are the first pages of the output |
| DrawLoop.ProcessCell | lib/prawn/table_splittable.rb:53-138 | one pass of the loop body takes the state one `Step` further |
| DrawLoop.PrepareCell | lib/prawn/table_splittable.rb:54-124 | the loop body up to the routing, in both modes, and the cell as it is then routed |
| DrawLoop.SplitModeStep | lib/prawn/table_splittable.rb:54-116 | the split-mode branch, with or without the early flush |
| DrawLoop.SplitModeMark | lib/prawn/table_splittable.rb:55-71 | the split decision, the content split and the reset of `row_to_split`, with the room left measured before the split |
| DrawLoop.FlushEarly | lib/prawn/table_splittable.rb:78-115 | the early flush: the page is drawn with the re-split cells, and a fresh page carries the selected cells |
| DrawLoop.FlushAndReprint | lib/prawn/table_splittable.rb:103-111 | the page drawn and the page started by an early flush |
| DrawLoop.PrintPending | lib/prawn/table_splittable.rb:85-103 | the pending cells are re-split, then printed on the current page |
| DrawLoop.ReprintCarried | lib/prawn/table_splittable.rb:106-111 | the new page holds its header, then the carried-over cells printed again with their continuation |
| DrawLoop.PrintCopy | lib/prawn/table_splittable.rb:111 | `print_split_cells` on a list of its own: the printed cells, and the entries appended after the old ones |
| DrawLoop.ResplitPending | lib/prawn/table_splittable.rb:85-99 | the loop leaves the pending cells re-split |
| DrawLoop.Finish | lib/prawn/table_splittable.rb:142-168 | the code after the loop yields exactly the pages `FinishPages` describes |
| DrawLoop.Draw | lib/prawn/table_splittable.rb:12-172 | `draw` hands the renderer exactly the pages `DrawPages` describes |

## Left out

- Drawing and the renderer: `with_position`, `@pdf.reference_bounds`, `ink_and_draw_cells`,
  the superclass part of `ink_and_draw_cells_and_start_new_page` and `move_cursor_to`. A drawn
  page is the list of its entries. Starting a page is a supplied header and offset.
- The text splitting inside `SplitCell#split` depends on fonts and glyph measurement. It is a
  supplied function that yields new content, continuation and heights.
- The splitter is assumed to write its results into the cell it wraps. That is why the re-split
  at line 96 takes effect although its result is dropped.
- `start_new_page?` is a supplied predicate, including its floating-point tolerance.
  `initial_row_on_initial_page`, `header_rows`, `row()`/`rows()` heights, `recalculate_height`,
  `calculate_height_ignoring_span` and `filtered_dummy_cells` are supplied as well. The call at
  line 73 is read as not respecting the original height.
- Row heights are fixed for the whole `draw`. The source's `reduce_y` calls (lines 296, 318)
  move rows on the canvas. The model has no y coordinates, so those moves, `relative_x`,
  `relative_y`, `y_offset_new_page` and the `compensate_offset_for_height` arithmetic are not
  modelled. An entry records the offset its position was computed from.
- PrintSplitCells: does not produce the return value of `print_split_cells` (lines 326-330),
  which the source's own comments call of unknown purpose. The shift it causes on the new
  page is a supplied value per cell.
- Heights, offsets and `max_available_height` are Floats in the Ruby and are modelled as
  `int`. Only comparison, maximum, assignment and sums are used on them, so no rounding is
  modelled.
- `set_background_color` (line 128), because colouring has no effect on routing or heights.
- The flag `found_some_content_in_the_last_row_on_the_last_page` (lines 208-212), because it is
  computed and never read.
- Sharing of cell objects. Entries hold cell values, while the source stores references.
  The in-place change the source makes to pending cells is modelled on the array that
  `print_split_cells` and the re-split work on, and that array is reused for the second print
  after the loop. A change to a cell after it entered a page buffer is not reflected in that
  entry.
- `draw` on an empty table reads `@cells.last` after the loop, which fails in Ruby. The model
  only needs the last cell when a split is still open, and that requires at least one cell.
