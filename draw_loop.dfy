/** The routing state of `draw`: which cells wait in the pending-split list, which go to
    the page buffer, when a page is flushed, and the final pass over the last page. */
module DrawLoop {
  import opened CellModel
  import opened Classification
  import opened NewPageSelection
  import opened PageSink
  import opened SplitPrinting

  /** The local variables of `draw` that survive from one cell to the next, and the pages
      handed to the renderer so far. */
  datatype DrawState = DrawState(
    rowToSplit: int,
    splitting: bool,
    originalHeight: int,
    startedNewPageAtRow: int,
    offset: int,
    splitCells: seq<Cell>,
    page: seq<Entry>,
    drawn: seq<seq<Entry>>)

  function Init(env: Env): DrawState
  {
    DrawState(-1, false, 0, env.initialRow, env.initialOffset, [], [], [])
  }

  /** Split mode is on for the table and the cell's row consists of plain text. */
  predicate InSplitMode(cell: Cell, table: seq<Cell>, env: Env)
  {
    env.splitCellsInFinalRow && PlainTextRow(table, cell.row)
  }

  function MaxAvailableHeight(cell: Cell, offset: int, env: Env): int
  {
    (env.canvasY(cell) + offset) - env.absoluteBottom
  }

  /** The row does not fit, but part of it does: start splitting at this cell. */
  predicate StartsSplit(st: DrawState, cell: Cell, env: Env)
  {
    env.startNewPage(cell, st.offset, true) && MaxAvailableHeight(cell, st.offset, env) > 0
  }

  function RowToSplitAfterStart(st: DrawState, cell: Cell, env: Env): int
  {
    if StartsSplit(st, cell, env) then cell.row else st.rowToSplit
  }

  /** The cell as it is routed: in split mode, after `split_cell_content`. */
  function Processed(st: DrawState, cell: Cell, table: seq<Cell>, env: Env): (c: Cell)
    ensures c.row == cell.row && c.kind == cell.kind && c.dummyCells == cell.dummyCells
  {
    if InSplitMode(cell, table, env) then SplitModeCell(st, cell, env) else cell
  }

  /** A real cell of a later row that is taller than the room left, while cells wait to be
      split: the pending split must be redone and the page flushed now. The room left is the
      one measured at the cell as it arrived, before `split_cell_content`. */
  predicate NeedsEarlyFlush(st: DrawState, cell: Cell, c: Cell, env: Env)
  {
    env.heightIgnoringSpan(c, false) > MaxAvailableHeight(cell, st.offset, env) &&
    c.row > st.startedNewPageAtRow && st.splitCells != [] && c.kind != SpanDummy
  }

  /** The re-split of the pending cells against the combined height of their rows: each
      cell's height is cleared, and real cells are handed to the splitter again. */
  function Resplit(cs: seq<Cell>, env: Env): (r: seq<Cell>)
    ensures |r| == |cs|
  {
    ResplitWithin(cs, if cs == [] then 0 else RowsHeight(env.rowHeight, cs[0].row, cs[|cs| - 1].row), env)
  }

  /** The re-split against a given budget. */
  function ResplitWithin(cs: seq<Cell>, budget: int, env: Env): (r: seq<Cell>)
    ensures |r| == |cs|
  {
    if cs == [] then []
    else ResplitWithin(cs[..|cs| - 1], budget, env) +
         [SplitCellContent(cs[|cs| - 1].(height := 0), cs[|cs| - 1].row, budget, env.split)]
  }

  /** Each pending cell is re-split by itself, in place. */
  lemma {:induction false} ResplitWithinAt(cs: seq<Cell>, budget: int, env: Env)
    ensures forall k :: 0 <= k < |cs| ==>
              ResplitWithin(cs, budget, env)[k] == SplitCellContent(cs[k].(height := 0), cs[k].row, budget, env.split)
  {
    if cs != [] {
      ResplitWithinAt(cs[..|cs| - 1], budget, env);
    }
  }

  /** The state after the early flush: the page is drawn with the pending cells printed on
      it, a new page starts, and the cells chosen by `calculate_split_cells_new_page` are
      printed again on it with their continuation. */
  function EarlyFlush(st: DrawState, c: Cell, env: Env): DrawState
  {
    var printed := FlushPrinted(st.splitCells, env);
    st.(splitCells := [],
        splitting := false,
        drawn := st.drawn + [FlushedPage(st.page, printed, st.offset, env)],
        page := CarriedPage(c, printed, st.originalHeight, env),
        offset := env.newPage(c).offset - env.reprintShift(c),
        startedNewPageAtRow := c.row)
  }

  /** The pending cells as the early flush prints them: re-split, then printed. */
  function FlushPrinted(cs: seq<Cell>, env: Env): seq<Cell>
  {
    Reconciled(Resplit(cs, env), false, env)
  }

  /** The page drawn by an early flush: its entries, then the printed pending cells. */
  function FlushedPage(page: seq<Entry>, printed: seq<Cell>, offset: int, env: Env): seq<Entry>
  {
    page + Placed(printed, offset, false, env)
  }

  /** The page that follows an early flush: its header, then the printed cells that
      `calculate_split_cells_new_page` keeps, printed again with their continuation. */
  function CarriedPage(c: Cell, printed: seq<Cell>, originalHeight: int, env: Env): seq<Entry>
  {
    var ps := env.newPage(c);
    ps.header + Placed(Reconciled(Selected(printed, c.row - 1), true, env), ps.offset - originalHeight, true, env)
  }

  /** The ordinary page break of a row that is not split. */
  function StartNewPage(st: DrawState, cell: Cell, env: Env): DrawState
  {
    var ps := env.newPage(cell);
    st.(drawn := st.drawn + [st.page], page := ps.header, offset := ps.offset, startedNewPageAtRow := cell.row)
  }

  /** Everything the loop body does before the cell is routed. */
  function Prepare(st: DrawState, cell: Cell, table: seq<Cell>, env: Env): DrawState
  {
    if InSplitMode(cell, table, env) then SplitModePrepare(st, cell, env)
    else if env.startNewPage(cell, st.offset, false) then StartNewPage(st, cell, env)
    else st
  }

  /** The cell after `split_cell_content`, in split mode. */
  function SplitModeCell(st: DrawState, cell: Cell, env: Env): Cell
  {
    SplitCellContent(cell, RowToSplitAfterStart(st, cell, env), MaxAvailableHeight(cell, st.offset, env), env.split)
  }

  /** The split-mode part of the loop body, before the cell is routed. */
  function SplitModePrepare(st: DrawState, cell: Cell, env: Env): DrawState
  {
    var st1 := SplitModeMarked(st, cell, env);
    var c := SplitModeCell(st, cell, env);
    if NeedsEarlyFlush(st, cell, c, env) then EarlyFlush(st1, c, env) else st1
  }

  /** The split bookkeeping of the loop body: a starting split sets `row_to_split`,
      `original_height` and `splitting`; a real cell of a later row resets `row_to_split`. */
  function SplitModeMarked(st: DrawState, cell: Cell, env: Env): DrawState
  {
    var starts := StartsSplit(st, cell, env);
    var c := SplitModeCell(st, cell, env);
    var rts := RowToSplitAfterStart(st, cell, env);
    st.(rowToSplit := if rts > -1 && c.row > rts && c.kind != SpanDummy then -1 else rts,
        splitting := st.splitting || starts,
        originalHeight := if starts then cell.height else st.originalHeight)
  }

  /** The routing at the end of the loop body. */
  function Route(st: DrawState, c: Cell): DrawState
  {
    if st.splitting then st.(splitCells := st.splitCells + [c])
    else st.(page := st.page + [Entry(c, st.offset)])
  }

  function Step(st: DrawState, cell: Cell, table: seq<Cell>, env: Env): DrawState
  {
    Route(Prepare(st, cell, table, env), Processed(st, cell, table, env))
  }

  /** The state after the loop has seen the cells `cs`. */
  function Run(cs: seq<Cell>, table: seq<Cell>, env: Env): DrawState
  {
    if cs == [] then Init(env)
    else Step(Run(cs[..|cs| - 1], table, env), cs[|cs| - 1], table, env)
  }

  /** The code after the loop: the pending cells are printed on the current page; if a split
      is still open the page is drawn and they are printed again, with their continuation,
      on a new page; then the last page is normalised and drawn. */
  function FinishPages(st: DrawState, table: seq<Cell>, env: Env): seq<seq<Entry>>
    requires st.splitting ==> table != []
  {
    var printed := Reconciled(st.splitCells, false, env);
    var page := st.page + Placed(printed, st.offset, false, env);
    if st.splitting then
      var ps := env.newPage(table[|table| - 1]);
      var last := ps.header + Placed(Reconciled(printed, true, env), ps.offset, true, env);
      st.drawn + [page] + [Normalised(last, env.headerRows, env.rowHeight)]
    else
      st.drawn + [Normalised(page, env.headerRows, env.rowHeight)]
  }

  /** The pages `draw` hands to the renderer, in order. */
  function DrawPages(table: seq<Cell>, env: Env): seq<seq<Entry>>
  {
    RunSplittingNeedsCells(table, table, env);
    FinishPages(Run(table, table, env), table, env)
  }

  lemma RunSplittingNeedsCells(cs: seq<Cell>, table: seq<Cell>, env: Env)
    ensures Run(cs, table, env).splitting ==> cs != []
  {
  }

  /** Cells wait in the pending-split list only while a split is open. */
  predicate SplitInvariant(st: DrawState)
  {
    !st.splitting ==> st.splitCells == []
  }

  lemma StepKeepsSplitInvariant(st: DrawState, cell: Cell, table: seq<Cell>, env: Env)
    requires SplitInvariant(st)
    ensures SplitInvariant(Step(st, cell, table, env))
  {
  }

  lemma {:induction false} RunKeepsSplitInvariant(cs: seq<Cell>, table: seq<Cell>, env: Env)
    ensures SplitInvariant(Run(cs, table, env))
  {
    if cs != [] {
      RunKeepsSplitInvariant(cs[..|cs| - 1], table, env);
      StepKeepsSplitInvariant(Run(cs[..|cs| - 1], table, env), cs[|cs| - 1], table, env);
    }
  }

  /** Every processed cell goes to exactly one place: to the pending-split list while a
      split is open, to the page buffer (at the current offset) otherwise. */
  lemma StepRoutesOnce(st: DrawState, cell: Cell, table: seq<Cell>, env: Env)
    requires SplitInvariant(st)
    ensures var pre := Prepare(st, cell, table, env);
            var c := Processed(st, cell, table, env);
            var post := Step(st, cell, table, env);
            if post.splitting
            then post.splitCells == pre.splitCells + [c] && post.page == pre.page
            else post.page == pre.page + [Entry(c, pre.offset)] && post.splitCells == pre.splitCells == []
  {
    assert SplitInvariant(Prepare(st, cell, table, env));
  }

  /** How `row_to_split` moves: it is set to the cell's row when a split starts, reset to -1
      by a real cell of a later row, and left alone outside split mode. */
  lemma StepRowToSplit(st: DrawState, cell: Cell, table: seq<Cell>, env: Env)
    ensures !InSplitMode(cell, table, env) ==> Step(st, cell, table, env).rowToSplit == st.rowToSplit
    ensures InSplitMode(cell, table, env) && StartsSplit(st, cell, env) ==>
              Step(st, cell, table, env).rowToSplit == cell.row
    ensures InSplitMode(cell, table, env) && !StartsSplit(st, cell, env) &&
            st.rowToSplit > -1 && cell.row > st.rowToSplit && cell.kind != SpanDummy ==>
              Step(st, cell, table, env).rowToSplit == -1
    ensures InSplitMode(cell, table, env) && !StartsSplit(st, cell, env) &&
            !(st.rowToSplit > -1 && cell.row > st.rowToSplit && cell.kind != SpanDummy) ==>
              Step(st, cell, table, env).rowToSplit == st.rowToSplit
  {
  }

  predicate IsPrefix<T(==)>(a: seq<T>, b: seq<T>)
  {
    |a| <= |b| && b[..|a|] == a
  }

  /** No entry is ever dropped: the buffer either grows in place, or it is drawn as a whole
      (possibly with the pending cells added) and exactly one page is added to the output. */
  lemma StepLosesNoEntries(st: DrawState, cell: Cell, table: seq<Cell>, env: Env)
    ensures var post := Step(st, cell, table, env);
            IsPrefix(st.drawn, post.drawn) && |post.drawn| <= |st.drawn| + 1 &&
            (|post.drawn| == |st.drawn| ==> IsPrefix(st.page, post.page)) &&
            (|post.drawn| == |st.drawn| + 1 ==> IsPrefix(st.page, post.drawn[|st.drawn|]))
  {
  }

  /** Pages once drawn stay drawn, in order. */
  lemma {:induction false} RunDrawnGrows(cs: seq<Cell>, i: nat, table: seq<Cell>, env: Env)
    requires i <= |cs|
    ensures IsPrefix(Run(cs[..i], table, env).drawn, Run(cs, table, env).drawn)
    decreases |cs| - i
  {
    if i < |cs| {
      RunDrawnGrows(cs, i + 1, table, env);
      assert cs[..i + 1][..i] == cs[..i];
      StepLosesNoEntries(Run(cs[..i], table, env), cs[i], table, env);
    } else {
      assert cs[..i] == cs;
    }
  }

  /** On the last page every real cell outside the header rows has its row's height. */
  lemma DrawLastPageNormalised(table: seq<Cell>, env: Env)
    ensures var pages := DrawPages(table, env);
            pages != [] &&
            var last := pages[|pages| - 1];
            forall k :: 0 <= k < |last| && Normalises(last[k], env.headerRows) ==>
              last[k].cell.height == env.rowHeight(last[k].cell.row)
  {
  }

  /** The pages drawn inside the loop are the first pages of the output. */
  lemma DrawKeepsLoopPages(table: seq<Cell>, env: Env)
    ensures IsPrefix(Run(table, table, env).drawn, DrawPages(table, env))
  {
  }

  /** The re-split clears every pending cell's height; placeholders are otherwise kept, and
      real cells are replaced by what the splitter makes of them given the combined height of
      the pending rows. */
  lemma ResplitCells(cs: seq<Cell>, env: Env)
    ensures forall k :: 0 <= k < |cs| && cs[k].kind == SpanDummy ==> Resplit(cs, env)[k] == cs[k].(height := 0)
    ensures forall k :: 0 <= k < |cs| && cs[k].kind != SpanDummy ==>
              Resplit(cs, env)[k] ==
                ApplySplit(cs[k].(height := 0), env.split(cs[k].(height := 0), RowsHeight(env.rowHeight, cs[0].row, cs[|cs| - 1].row)))
  {
    if cs != [] {
      ResplitWithinAt(cs, RowsHeight(env.rowHeight, cs[0].row, cs[|cs| - 1].row), env);
    }
  }

  /** The local variables of `draw` that live from one cell to the next, apart from the
      page buffer `cells_this_page`, and the pages drawn so far. */
  datatype Locals = Locals(
    rowToSplit: int,
    splitting: bool,
    originalHeight: int,
    startedNewPageAtRow: int,
    offset: int,
    splitCells: seq<Cell>,
    drawn: seq<seq<Entry>>)

  /** The routing state made of the locals and the contents of the page buffer. */
  function StateOf(l: Locals, page: seq<Entry>): DrawState
  {
    DrawState(l.rowToSplit, l.splitting, l.originalHeight, l.startedNewPageAtRow, l.offset, l.splitCells, page, l.drawn)
  }

  /** One pass of the loop body of `draw`. */
  method ProcessCell(l: Locals, page: PageBuffer, cell: Cell, table: seq<Cell>, env: Env)
    returns (l': Locals, page': PageBuffer)
    modifies page
    ensures page' == page || fresh(page')
    ensures StateOf(l', page'.entries) == Step(StateOf(l, old(page.entries)), cell, table, env)
  {
    var c;
    l', page', c := PrepareCell(l, page, cell, table, env);
    if l'.splitting {
      l' := l'.(splitCells := l'.splitCells + [c]);
    } else {
      page'.Append(Entry(c, l'.offset));
    }
  }

  /** The loop body up to the routing of the cell; also returns the cell as it is routed. */
  method PrepareCell(l: Locals, page: PageBuffer, cell: Cell, table: seq<Cell>, env: Env)
    returns (l': Locals, page': PageBuffer, c: Cell)
    modifies page
    ensures page' == page || fresh(page')
    ensures StateOf(l', page'.entries) == Prepare(StateOf(l, old(page.entries)), cell, table, env)
    ensures c == Processed(StateOf(l, old(page.entries)), cell, table, env)
  {
    if env.splitCellsInFinalRow && PlainTextRow(table, cell.row) {
      l', page', c := SplitModeStep(l, page, cell, env);
    } else {
      c := cell;
      l', page' := l, page;
      if env.startNewPage(cell, l.offset, false) {
        var ps := env.newPage(cell);
        page' := new PageBuffer(ps.header);
        l' := l.(drawn := l.drawn + [page.entries], offset := ps.offset, startedNewPageAtRow := cell.row);
      }
    }
  }

  /** The split-mode part of the loop body. */
  method SplitModeStep(l: Locals, page: PageBuffer, cell: Cell, env: Env)
    returns (l': Locals, page': PageBuffer, c: Cell)
    modifies page
    ensures page' == page || fresh(page')
    ensures StateOf(l', page'.entries) == SplitModePrepare(StateOf(l, old(page.entries)), cell, env)
    ensures c == SplitModeCell(StateOf(l, old(page.entries)), cell, env)
  {
    var l1, maxAvailableHeight;
    l1, c, maxAvailableHeight := SplitModeMark(l, cell, env, page.entries);
    var cellHeight := env.heightIgnoringSpan(c, false);
    if cellHeight > maxAvailableHeight && c.row > l.startedNewPageAtRow && l.splitCells != [] && c.kind != SpanDummy {
      l', page' := FlushEarly(l1, page, c, env);
    } else {
      l', page' := l1, page;
    }
  }

  /** The split-mode lines up to the early-flush test: decide whether the row is split,
      split the cell's content, and reset `row_to_split` past the split row. */
  method SplitModeMark(l: Locals, cell: Cell, env: Env, ghost page: seq<Entry>)
    returns (l1: Locals, c: Cell, maxAvailableHeight: int)
    ensures StateOf(l1, page) == SplitModeMarked(StateOf(l, page), cell, env)
    ensures c == SplitModeCell(StateOf(l, page), cell, env)
    ensures maxAvailableHeight == MaxAvailableHeight(cell, l.offset, env)
  {
    var rowToSplit, originalHeight, splitting := l.rowToSplit, l.originalHeight, l.splitting;
    maxAvailableHeight := (env.canvasY(cell) + l.offset) - env.absoluteBottom;
    if env.startNewPage(cell, l.offset, true) && maxAvailableHeight > 0 {
      rowToSplit, originalHeight, splitting := cell.row, cell.height, true;
    }
    c := SplitCellContent(cell, rowToSplit, maxAvailableHeight, env.split);
    if rowToSplit > -1 && c.row > rowToSplit && c.kind != SpanDummy {
      rowToSplit := -1;
    }
    l1 := l.(rowToSplit := rowToSplit, splitting := splitting, originalHeight := originalHeight);
  }

  /** The body of the early-flush branch: re-split, print and draw the page, start a new
      one and print the carried-over cells on it. */
  method FlushEarly(l: Locals, page: PageBuffer, c: Cell, env: Env) returns (l': Locals, next: PageBuffer)
    modifies page
    ensures fresh(next)
    ensures StateOf(l', next.entries) == EarlyFlush(StateOf(l, old(page.entries)), c, env)
    ensures l'.drawn == l.drawn + [page.entries]
  {
    var finished;
    finished, next := FlushAndReprint(l.splitCells, page, l.offset, l.originalHeight, c, env);
    l' := l.(drawn := l.drawn + [finished], splitCells := [], splitting := false,
             offset := env.newPage(c).offset - env.reprintShift(c), startedNewPageAtRow := c.row);
  }

  /** The code after the loop. */
  method Finish(l: Locals, page: PageBuffer, table: seq<Cell>, env: Env) returns (pages: seq<seq<Entry>>)
    requires l.splitting ==> table != []
    modifies page
    ensures pages == FinishPages(StateOf(l, old(page.entries)), table, env)
  {
    var pending := CopyToArray(l.splitCells);
    PrintSplitCells(pending, page, l.offset, false, env);
    var last := page;
    var drawn := l.drawn;
    if l.splitting {
      drawn := drawn + [page.entries];
      var ps := env.newPage(table[|table| - 1]);
      last := new PageBuffer(ps.header);
      PrintSplitCells(pending, last, ps.offset, true, env);
    }
    last.NormaliseHeights(env.headerRows, env.rowHeight);
    pages := drawn + [last.entries];
  }

  /** The early flush on the two pages involved: the page drawn, and the page that
      follows it. */
  method FlushAndReprint(splitCells: seq<Cell>, page: PageBuffer, offset: int, originalHeight: int, c: Cell, env: Env)
    returns (finished: seq<Entry>, next: PageBuffer)
    modifies page
    ensures fresh(next)
    ensures finished == FlushedPage(old(page.entries), FlushPrinted(splitCells, env), offset, env)
    ensures next.entries == CarriedPage(c, FlushPrinted(splitCells, env), originalHeight, env)
    ensures page.entries == finished
  {
    // ink_and_draw_cells_and_start_new_page: print the pending cells and draw the page
    var printed;
    finished, printed := PrintPending(splitCells, page, offset, env);
    // ... then start a page and print the carried-over cells on it
    next := ReprintCarried(c, printed, originalHeight, env);
  }

  /** Re-split the pending cells and print them on the current page; the page as it is
      then drawn, and the pending cells as printing left them. */
  method PrintPending(splitCells: seq<Cell>, page: PageBuffer, offset: int, env: Env)
    returns (finished: seq<Entry>, printed: seq<Cell>)
    modifies page
    ensures printed == FlushPrinted(splitCells, env)
    ensures finished == FlushedPage(old(page.entries), printed, offset, env)
    ensures page.entries == finished
  {
    var pending := CopyToArray(splitCells);
    ResplitPending(pending, env);
    PrintSplitCells(pending, page, offset, false, env);
    printed := pending[..];
    finished := page.entries;
  }

  /** Start the page that follows an early flush, and print on it the cells that
      `calculate_split_cells_new_page` carries over. */
  method ReprintCarried(c: Cell, printed: seq<Cell>, originalHeight: int, env: Env) returns (next: PageBuffer)
    ensures fresh(next)
    ensures next.entries == CarriedPage(c, printed, originalHeight, env)
  {
    var ps := env.newPage(c);
    next := new PageBuffer(ps.header);
    var carried := CalculateSplitCellsNewPage(printed, c.row);
    var _ := PrintCopy(carried, next, ps.offset - originalHeight, true, env);
  }

  /** `print_split_cells` on cells held in a list of their own. */
  method PrintCopy(cs: seq<Cell>, page: PageBuffer, offset: int, newPage: bool, env: Env) returns (printed: seq<Cell>)
    modifies page
    ensures printed == Reconciled(cs, newPage, env)
    ensures page.entries == old(page.entries) + Placed(printed, offset, newPage, env)
  {
    var cells := CopyToArray(cs);
    PrintSplitCells(cells, page, offset, newPage, env);
    printed := cells[..];
  }

  method CopyToArray(s: seq<Cell>) returns (a: array<Cell>)
    ensures fresh(a) && a[..] == s
  {
    a := new Cell[|s|](k requires 0 <= k < |s| => s[k]);
  }

  /** Lines that re-split the pending cells before an early flush. */
  method ResplitPending(cells: array<Cell>, env: Env)
    modifies cells
    ensures cells[..] == Resplit(old(cells[..]), env)
  {
    if cells.Length == 0 {
      return;
    }
    var firstRow := cells[0].row;
    var lastRow := cells[cells.Length - 1].row;
    ghost var original := cells[..];
    ResplitWithinAt(original, RowsHeight(env.rowHeight, firstRow, lastRow), env);
    var i := 0;
    while i < cells.Length
      invariant 0 <= i <= cells.Length
      invariant forall k :: 0 <= k < i ==> cells[k] == Resplit(original, env)[k]
      invariant forall k :: i <= k < cells.Length ==> cells[k] == original[k]
    {
      var splitCell := cells[i].(height := 0);
      var maxAvailableHeight := RowsHeight(env.rowHeight, firstRow, lastRow);
      cells[i] := SplitCellContent(splitCell, splitCell.row, maxAvailableHeight, env.split);
      i := i + 1;
    }
    assert cells[..] == Resplit(original, env);
  }

  /** `draw`, from the first cell to the last page. */
  method Draw(table: seq<Cell>, env: Env) returns (pages: seq<seq<Entry>>)
    ensures pages == DrawPages(table, env)
  {
    var l := Locals(-1, false, 0, env.initialRow, env.initialOffset, [], []);
    var page := new PageBuffer([]);
    var i := 0;
    while i < |table|
      invariant 0 <= i <= |table|
      invariant fresh(page)
      invariant StateOf(l, page.entries) == Run(table[..i], table, env)
    {
      l, page := ProcessCell(l, page, table[i], table, env);
      assert table[..i + 1][..i] == table[..i];
      i := i + 1;
    }
    assert table[..i] == table;
    RunSplittingNeedsCells(table, table, env);
    pages := Finish(l, page, table, env);
  }
}
