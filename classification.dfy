/** Which rows may be split, and which cells the content splitter is asked about
    (`only_plain_text_cells` and `split_cell_content`). */
module Classification {
  import opened CellModel

  /** A text cell without rotation, custom leading or single-line layout. */
  predicate PlainText(c: Cell)
  {
    c.kind == Text && !c.rotate && !c.rotateAround && !c.leading && !c.singleLine
  }

  /** Index of the first span placeholder of a row, or its length when it has none. */
  function FirstDummy(row: seq<Cell>): (k: nat)
    ensures k <= |row|
    ensures forall i :: 0 <= i < k ==> row[i].kind != SpanDummy
    ensures k < |row| ==> row[k].kind == SpanDummy
  {
    if row == [] then 0
    else if row[0].kind == SpanDummy then 0
    else 1 + FirstDummy(row[1..])
  }

  /** `only_plain_text_cells` on the cells of one row: the scan stops with `true` at the
      first span placeholder, and with `false` at the first other cell that is not plain
      text. So the answer is whether every cell before the first placeholder is plain. */
  function OnlyPlainTextCells(row: seq<Cell>): (r: bool)
    ensures r <==> forall i :: 0 <= i < FirstDummy(row) ==> PlainText(row[i])
  {
    if row == [] then true
    else if row[0].kind == SpanDummy then true
    else if !PlainText(row[0]) then false
    else OnlyPlainTextCells(row[1..])
  }

  /** The question the draw loop asks: may row `r` of the table be split? */
  function PlainTextRow(table: seq<Cell>, r: int): bool
  {
    OnlyPlainTextCells(RowCells(table, r))
  }

  /** The empty row is splittable. */
  lemma EmptyRowIsPlain()
    ensures OnlyPlainTextCells([])
  {
  }

  /** Nothing after the first span placeholder is looked at. */
  lemma {:induction false} CellsAfterDummyIgnored(row: seq<Cell>, rest: seq<Cell>)
    requires FirstDummy(row) < |row|
    ensures OnlyPlainTextCells(row + rest) == OnlyPlainTextCells(row)
  {
    if row[0].kind != SpanDummy {
      assert (row + rest)[1..] == row[1..] + rest;
      CellsAfterDummyIgnored(row[1..], rest);
    }
  }

  /** The row is refused exactly when some cell before the first placeholder is not
      plain text; a witness of that is the cell the scan stops at. */
  lemma RefusedRowHasWitness(row: seq<Cell>)
    ensures !OnlyPlainTextCells(row) <==>
            exists i :: 0 <= i < |row| && (forall j :: 0 <= j <= i ==> row[j].kind != SpanDummy) && !PlainText(row[i])
  {
    if !OnlyPlainTextCells(row) {
      var i :| 0 <= i < FirstDummy(row) && !PlainText(row[i]);
      assert forall j :: 0 <= j <= i ==> row[j].kind != SpanDummy;
    }
  }

  /** `split_cell_content`: span placeholders and cells outside the row being split are
      returned as they are; only a real cell of that row is handed to the splitter. */
  function SplitCellContent(cell: Cell, rowToSplit: int, maxAvailableHeight: int,
                            split: (Cell, int) -> SplitOutcome): (r: Cell)
    ensures cell.kind == SpanDummy || cell.row != rowToSplit ==> r == cell
    ensures cell.kind != SpanDummy && cell.row == rowToSplit ==>
              r == ApplySplit(cell, split(cell, maxAvailableHeight))
    ensures r.row == cell.row && r.kind == cell.kind && r.dummyCells == cell.dummyCells
  {
    if cell.kind == SpanDummy then cell
    else if rowToSplit != cell.row then cell
    else ApplySplit(cell, split(cell, maxAvailableHeight))
  }

  /** The splitter is consulted only for a real cell of the row being split: for any other
      cell, two different splitters give the same answer. */
  lemma SplitterNotConsulted(cell: Cell, rowToSplit: int, h: int,
                             s1: (Cell, int) -> SplitOutcome, s2: (Cell, int) -> SplitOutcome)
    requires cell.kind == SpanDummy || cell.row != rowToSplit
    ensures SplitCellContent(cell, rowToSplit, h, s1) == SplitCellContent(cell, rowToSplit, h, s2) == cell
  {
  }

  /** Splitting only rewrites content and heights, so it never changes whether a row of
      the table counts as plain text: the table may be read before or after a split. */
  lemma {:induction false} SplitKeepsPlainTextRow(table: seq<Cell>, k: nat, rowToSplit: int, h: int,
                                                  split: (Cell, int) -> SplitOutcome, r: int)
    requires k < |table|
    ensures PlainTextRow(table[k := SplitCellContent(table[k], rowToSplit, h, split)], r) == PlainTextRow(table, r)
  {
    var t := table[k := SplitCellContent(table[k], rowToSplit, h, split)];
    assert SameShapes(table, t);
    SameShapesKeepPlainTextRow(table, t, r);
  }

  /** More generally, no rewrite of contents and heights anywhere in the table changes
      whether a row counts as plain text. */
  lemma {:induction false} SameShapesKeepPlainTextRow(a: seq<Cell>, b: seq<Cell>, r: int)
    requires SameShapes(a, b)
    ensures PlainTextRow(a, r) == PlainTextRow(b, r)
  {
    SameShapeSameRow(a, b, r);
    SameShapeSamePlain(RowCells(a, r), RowCells(b, r));
  }

  /** Two cells that differ at most in content and heights. */
  predicate SameShape(a: Cell, b: Cell)
  {
    a.row == b.row && a.kind == b.kind && a.rotate == b.rotate && a.rotateAround == b.rotateAround &&
    a.leading == b.leading && a.singleLine == b.singleLine
  }

  predicate SameShapes(a: seq<Cell>, b: seq<Cell>)
  {
    |a| == |b| && forall i :: 0 <= i < |a| ==> SameShape(a[i], b[i])
  }

  lemma {:induction false} SameShapeSameRow(a: seq<Cell>, b: seq<Cell>, r: int)
    requires SameShapes(a, b)
    ensures SameShapes(RowCells(a, r), RowCells(b, r))
  {
    if a != [] {
      SameShapeSameRow(a[..|a| - 1], b[..|b| - 1], r);
    }
  }

  lemma {:induction false} SameShapeSamePlain(a: seq<Cell>, b: seq<Cell>)
    requires SameShapes(a, b)
    ensures OnlyPlainTextCells(a) == OnlyPlainTextCells(b)
  {
    if a != [] && a[0].kind != SpanDummy && PlainText(a[0]) {
      SameShapeSamePlain(a[1..], b[1..]);
    }
  }
}
