/** The values the splitting table works on: cells, page-buffer entries, and the
    environment that stands for everything the table borrows from its superclass,
    from the cell classes and from the PDF renderer. */
module CellModel {

  datatype Option<T> = None | Some(value: T)

  /** The three cell classes the splitting code distinguishes. */
  datatype Kind = Text | SpanDummy | Other

  /** One entry of a cell's `dummy_cells`: the row of the placeholder and whether
      it is a row-direction placeholder (`row_dummy?`). */
  datatype DummyRef = DummyRef(row: int, isRowDummy: bool)

  /** A table cell. `content` and `contentNewPage` are nil-able strings;
      `originalHeight` is nil until the splitter records one. */
  datatype Cell = Cell(
    row: int,
    kind: Kind,
    rotate: bool,
    rotateAround: bool,
    leading: bool,
    singleLine: bool,
    content: Option<string>,
    contentNewPage: Option<string>,
    height: int,
    originalHeight: Option<int>,
    dummyCells: seq<DummyRef>)

  /** An element of `cells_this_page`: the cell and the offset its position was
      computed from (the argument handed to `relative_y`). */
  datatype Entry = Entry(cell: Cell, origin: int)

  /** What starting a new page yields: the buffer of the new page (the header rows
      the superclass stamps onto it) and the new offset. */
  datatype PageStart = PageStart(header: seq<Entry>, offset: int)

  /** What the content splitter writes back into a cell. */
  datatype SplitOutcome = SplitOutcome(
    content: Option<string>,
    contentNewPage: Option<string>,
    height: int,
    originalHeight: Option<int>)

  /** The collaborators whose code is not part of this model. */
  datatype Env = Env(
    rowHeight: int -> int,                           // row(r).height
    recalculatedHeight: int -> int,                  // row(r).recalculate_height
    heightIgnoringSpan: (Cell, bool) -> int,         // Cell#calculate_height_ignoring_span(respect_original_height)
    filteredDummyCells: (Cell, int, bool) -> seq<DummyRef>,  // Cell#filtered_dummy_cells(last_row, new_page)
    split: (Cell, int) -> SplitOutcome,              // SplitCell#split(max_available_height)
    canvasY: Cell -> int,                            // cell.y on the unbounded canvas
    absoluteBottom: int,                             // ref_bounds.absolute_bottom
    startNewPage: (Cell, int, bool) -> bool,         // start_new_page?(cell, offset, ref_bounds, split)
    newPage: Cell -> PageStart,                      // the superclass part of ink_and_draw_cells_and_start_new_page
    reprintShift: Cell -> int,                       // the value print_split_cells returns on the new page
    headerRows: set<int>,                            // rows of header_rows
    initialRow: int,                                 // initial_row_on_initial_page
    initialOffset: int,                              // @pdf.y when drawing starts
    splitCellsInFinalRow: bool)                      // the split_cells_in_final_row option

  /** The splitter writes content, continuation and heights, and nothing else. */
  function ApplySplit(c: Cell, o: SplitOutcome): (r: Cell)
    ensures r.row == c.row && r.kind == c.kind && r.dummyCells == c.dummyCells
    ensures r.rotate == c.rotate && r.rotateAround == c.rotateAround
    ensures r.leading == c.leading && r.singleLine == c.singleLine
  {
    c.(content := o.content, contentNewPage := o.contentNewPage,
       height := o.height, originalHeight := o.originalHeight)
  }

  /** Neither nil nor empty. */
  predicate HasContent(c: Cell)
  {
    c.content.Some? && c.content.value != []
  }

  /** Reading a `Hash.new(0)`: a missing key reads as 0 and is not inserted. */
  function Lookup(m: map<int, int>, k: int): int
  {
    if k in m then m[k] else 0
  }

  /** The sum of `f` over `rows`, 0 for none (`inject(:+) || 0`). */
  function SumHeights(f: int -> int, rows: seq<int>): int
  {
    if rows == [] then 0 else SumHeights(f, rows[..|rows| - 1]) + f(rows[|rows| - 1])
  }

  /** `rows(a..b).height`: the sum of the row heights of the inclusive range, 0 when it is empty. */
  function RowsHeight(f: int -> int, a: int, b: int): int
    decreases if a <= b then b - a + 1 else 0
  {
    if a > b then 0 else RowsHeight(f, a, b - 1) + f(b)
  }

  /** Rows of the row-direction placeholders, in order, repeats kept. */
  function RowDummyRowList(ds: seq<DummyRef>): (r: seq<int>)
    ensures forall x :: x in r <==> exists d :: d in ds && d.isRowDummy && d.row == x
  {
    if ds == [] then []
    else
      var rest := RowDummyRowList(ds[..|ds| - 1]);
      var d := ds[|ds| - 1];
      assert forall e :: e in ds <==> e in ds[..|ds| - 1] || e == d;
      if d.isRowDummy then rest + [d.row] else rest
  }

  /** Ruby's `uniq`: the first occurrence of every element, in order. The contract states
      membership and distinctness only: the result is only ever summed over, where the
      order does not matter. */
  function Uniq(s: seq<int>): (r: seq<int>)
    ensures forall x :: x in r <==> x in s
    ensures forall i, j :: 0 <= i < j < |r| ==> r[i] != r[j]
    ensures |r| <= |s|
  {
    if s == [] then []
    else
      var p := Uniq(s[..|s| - 1]);
      var x := s[|s| - 1];
      assert forall y :: y in s <==> y in s[..|s| - 1] || y == x;
      if x in p then p else p + [x]
  }

  /** `dummy_cells.map { |d| d.row if d.row_dummy? }.uniq.compact`. */
  function RowDummyRows(ds: seq<DummyRef>): seq<int>
  {
    Uniq(RowDummyRowList(ds))
  }

  /** Each row covered by a row placeholder is listed, once. */
  lemma RowDummyRowsMembers(ds: seq<DummyRef>)
    ensures forall x :: x in RowDummyRows(ds) <==> exists d :: d in ds && d.isRowDummy && d.row == x
    ensures forall i, j :: 0 <= i < j < |RowDummyRows(ds)| ==> RowDummyRows(ds)[i] != RowDummyRows(ds)[j]
  {
  }

  /** `row(r)`: the cells of the table that lie in row `r`, in table order (the order is
      stated by `RowCellsConcat`). */
  function RowCells(table: seq<Cell>, r: int): (cs: seq<Cell>)
    ensures forall c :: c in cs <==> c in table && c.row == r
    ensures |cs| <= |table|
  {
    if table == [] then []
    else
      var rest := RowCells(table[..|table| - 1], r);
      var c := table[|table| - 1];
      assert forall e :: e in table <==> e in table[..|table| - 1] || e == c;
      if c.row == r then rest + [c] else rest
  }

  /** `row(r)` keeps table order: the row of two tables laid end to end is the row of the
      first followed by the row of the second, and a single cell contributes itself or
      nothing. */
  lemma {:induction false} RowCellsConcat(a: seq<Cell>, b: seq<Cell>, r: int)
    ensures RowCells(a + b, r) == RowCells(a, r) + RowCells(b, r)
    ensures forall c :: RowCells([c], r) == if c.row == r then [c] else []
  {
    forall c ensures RowCells([c], r) == if c.row == r then [c] else [] {
      assert [c][..0] == [];
    }
    if b == [] {
      assert a + b == a;
    } else {
      var b' := b[..|b| - 1];
      assert (a + b)[..|a + b| - 1] == a + b';
      assert (a + b)[|a + b| - 1] == b[|b| - 1];
      RowCellsConcat(a, b', r);
    }
  }
}
