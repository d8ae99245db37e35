/** The bookkeeping half of `print_split_cells`: a per-row maximum of the split cells'
    heights, the height each split cell is given from it, and the entries appended to
    the page buffer. */
module SplitPrinting {
  import opened CellModel
  import opened PageSink

  /** On the new page a split cell shows its continuation. */
  function ContentOnPage(c: Cell, newPage: bool): Cell
  {
    if newPage then c.(content := c.contentNewPage) else c
  }

  /** The split cells after the first loop has switched them to the page's content. */
  function Replaced(cs: seq<Cell>, newPage: bool): (r: seq<Cell>)
    ensures |r| == |cs|
  {
    if cs == [] then [] else Replaced(cs[..|cs| - 1], newPage) + [ContentOnPage(cs[|cs| - 1], newPage)]
  }

  /** Every cell is switched by itself, in place. */
  lemma {:induction false} ReplacedAt(cs: seq<Cell>, newPage: bool)
    ensures forall k :: 0 <= k < |cs| ==> Replaced(cs, newPage)[k] == ContentOnPage(cs[k], newPage)
  {
    if cs != [] {
      ReplacedAt(cs[..|cs| - 1], newPage);
    }
  }

  /** The height a split cell demands for its own row: its recorded original height if it
      has one, else its measured height, less the heights of the rows its row
      placeholders cover. */
  function AdjustedHeight(c: Cell, newPage: bool, env: Env): int
  {
    (match c.originalHeight
     case Some(h) => h
     case None => env.heightIgnoringSpan(c, !newPage))
    - SumHeights(env.rowHeight, RowDummyRows(c.dummyCells))
  }

  /** `max_cell_height` after the first loop over the (content-replaced) split cells. */
  function MaxHeights(cs: seq<Cell>, newPage: bool, env: Env): map<int, int>
  {
    if cs == [] then map[] else RecordHeight(MaxHeights(cs[..|cs| - 1], newPage, env), cs[|cs| - 1], newPage, env)
  }

  /** One iteration of that loop: a cell with content raises its row's maximum to the
      height it demands. */
  function RecordHeight(m: map<int, int>, c: Cell, newPage: bool, env: Env): map<int, int>
  {
    var h := AdjustedHeight(c, newPage, env);
    if HasContent(c) && Lookup(m, c.row) < h then m[c.row := h] else m
  }

  /** A finite, non-empty set of rows has a least element. */
  lemma {:induction false} SetMinExists(s: set<int>)
    requires exists x :: x in s
    ensures exists k :: k in s && forall j :: j in s ==> k <= j
    decreases |s|
  {
    var x :| x in s;
    var t := s - {x};
    assert forall j :: j in s ==> j == x || j in t;
    if exists y :: y in t {
      SetMinExists(t);
      var k :| k in t && forall j :: j in t ==> k <= j;
      if x < k {
        assert forall j :: j in s ==> x <= j;
      } else {
        assert forall j :: j in s ==> k <= j;
      }
    } else {
      assert forall j :: j in s ==> x <= j;
    }
  }

  /** `max_cell_height.keys.min || 0`. */
  function MinKey(m: map<int, int>): int
  {
    if exists j :: j in m then
      SetMinExists(m.Keys);
      var k :| k in m && forall j :: j in m ==> k <= j;
      k
    else 0
  }

  /** The least key of a non-empty table, and 0 for the empty one. */
  lemma MinKeyIsLeast(m: map<int, int>)
    ensures (exists j :: j in m) ==> MinKey(m) in m && forall j :: j in m ==> MinKey(m) <= j
    ensures (forall j :: j !in m) ==> MinKey(m) == 0
  {
    if exists j :: j in m {
      SetMinExists(m.Keys);
    }
  }

  /** The height a real split cell gets from the table of maxima: that of the first row
      on the new page when the cell lies above it, otherwise that of its own row. */
  function BaseHeight(c: Cell, m: map<int, int>, first: int): int
  {
    if c.row < first then Lookup(m, first) else Lookup(m, c.row)
  }

  /** The recalculated heights of the rows the cell's filtered row placeholders cover. */
  function ExtraHeight(c: Cell, lastRow: int, newPage: bool, env: Env): int
  {
    SumHeights(env.recalculatedHeight, RowDummyRows(env.filteredDummyCells(c, lastRow, newPage)))
  }

  /** One iteration of the second loop, on the height only. */
  function Reconcile(c: Cell, m: map<int, int>, first: int, lastRow: int, newPage: bool, env: Env): Cell
  {
    var c1 := if c.kind == SpanDummy then c else c.(height := BaseHeight(c, m, first));
    c1.(height := c1.height + ExtraHeight(c1, lastRow, newPage, env))
  }

  /** The second loop on all split cells, heights only. */
  function ReconcileAll(rs: seq<Cell>, m: map<int, int>, first: int, lastRow: int, newPage: bool, env: Env): (r: seq<Cell>)
    ensures |r| == |rs|
  {
    if rs == [] then []
    else ReconcileAll(rs[..|rs| - 1], m, first, lastRow, newPage, env) + [Reconcile(rs[|rs| - 1], m, first, lastRow, newPage, env)]
  }

  /** Every cell is given its height by itself, in place. */
  lemma {:induction false} ReconcileAllAt(rs: seq<Cell>, m: map<int, int>, first: int, lastRow: int, newPage: bool, env: Env)
    ensures forall k :: 0 <= k < |rs| ==>
              ReconcileAll(rs, m, first, lastRow, newPage, env)[k] == Reconcile(rs[k], m, first, lastRow, newPage, env)
  {
    if rs != [] {
      ReconcileAllAt(rs[..|rs| - 1], m, first, lastRow, newPage, env);
    }
  }

  function LastRow(cs: seq<Cell>): int
  {
    if cs == [] then 0 else cs[|cs| - 1].row
  }

  /** The split cells as `print_split_cells` leaves them. */
  function Reconciled(cs: seq<Cell>, newPage: bool, env: Env): seq<Cell>
  {
    var rs := Replaced(cs, newPage);
    var m := MaxHeights(rs, newPage, env);
    ReconcileAll(rs, m, MinKey(m), LastRow(cs), newPage, env)
  }

  /** The offset an appended split cell's position is computed from: on the new page a
      real spanning cell above the last split row is moved up past the rows below it
      that were already printed; every other cell uses the offset given. */
  function Origin(c: Cell, lastRow: int, offset: int, newPage: bool, env: Env): int
  {
    if newPage && c.kind != SpanDummy && c.dummyCells != [] && c.row < lastRow
    then offset - RowsHeight(env.rowHeight, c.row + 1, lastRow)
    else offset
  }

  /** The entries `print_split_cells` appends: one per split cell, in order. */
  function Placed(cs: seq<Cell>, offset: int, newPage: bool, env: Env): (r: seq<Entry>)
    ensures |r| == |cs|
  {
    PlacedBelow(cs, LastRow(cs), offset, newPage, env)
  }

  /** The entries for cells placed against a given last split row. */
  function PlacedBelow(cs: seq<Cell>, lastRow: int, offset: int, newPage: bool, env: Env): (r: seq<Entry>)
    ensures |r| == |cs|
  {
    if cs == [] then []
    else PlacedBelow(cs[..|cs| - 1], lastRow, offset, newPage, env) +
         [Entry(cs[|cs| - 1], Origin(cs[|cs| - 1], lastRow, offset, newPage, env))]
  }

  /** Each split cell gets one entry, at its own origin. */
  lemma {:induction false} PlacedBelowAt(cs: seq<Cell>, lastRow: int, offset: int, newPage: bool, env: Env)
    ensures forall k :: 0 <= k < |cs| ==>
              PlacedBelow(cs, lastRow, offset, newPage, env)[k] == Entry(cs[k], Origin(cs[k], lastRow, offset, newPage, env))
  {
    if cs != [] {
      PlacedBelowAt(cs[..|cs| - 1], lastRow, offset, newPage, env);
    }
  }

  /** `print_split_cells`, minus its return value. */
  method PrintSplitCells(cells: array<Cell>, page: PageBuffer, offset: int, newPage: bool, env: Env)
    modifies cells, page
    ensures cells[..] == Reconciled(old(cells[..]), newPage, env)
    ensures page.entries == old(page.entries) + Placed(cells[..], offset, newPage, env)
  {
    ghost var original := cells[..];
    var maxCellHeight := CollectMaxHeights(cells, newPage, env);
    var firstRowNewPage := MinKey(maxCellHeight);
    var lastRow := if cells.Length == 0 then 0 else cells[cells.Length - 1].row;
    assert lastRow == LastRow(original);
    PlaceSplitCells(cells, page, maxCellHeight, firstRowNewPage, lastRow, offset, newPage, env);
    assert LastRow(cells[..]) == lastRow;
  }

  /** The first loop of `print_split_cells`: switch to the continuation on the new page
      and record the largest adjusted height per row among cells with content. */
  method CollectMaxHeights(cells: array<Cell>, newPage: bool, env: Env) returns (maxCellHeight: map<int, int>)
    modifies cells
    ensures cells[..] == Replaced(old(cells[..]), newPage)
    ensures maxCellHeight == MaxHeights(cells[..], newPage, env)
  {
    ghost var original := cells[..];
    ghost var replaced := Replaced(original, newPage);
    ReplacedAt(original, newPage);
    maxCellHeight := map[];
    var i := 0;
    while i < cells.Length
      invariant 0 <= i <= cells.Length
      invariant forall k :: 0 <= k < i ==> cells[k] == replaced[k]
      invariant forall k :: i <= k < cells.Length ==> cells[k] == original[k]
      invariant maxCellHeight == MaxHeights(replaced[..i], newPage, env)
    {
      maxCellHeight := CollectMaxHeight(cells, i, maxCellHeight, newPage, env);
      assert replaced[..i + 1][..i] == replaced[..i];
      i := i + 1;
    }
    assert cells[..] == replaced;
    assert replaced[..i] == replaced;
  }

  /** The body of that loop, for the split cell at index `i`. */
  method CollectMaxHeight(cells: array<Cell>, i: nat, maxCellHeight: map<int, int>, newPage: bool, env: Env)
    returns (m: map<int, int>)
    requires i < cells.Length
    modifies cells
    ensures cells[i] == ContentOnPage(old(cells[i]), newPage)
    ensures forall k :: 0 <= k < cells.Length && k != i ==> cells[k] == old(cells[k])
    ensures m == RecordHeight(maxCellHeight, cells[i], newPage, env)
  {
    if newPage {
      cells[i] := cells[i].(content := cells[i].contentNewPage);
    }
    var c := cells[i];
    var cellHeight := match c.originalHeight
      case Some(h) => h
      case None => env.heightIgnoringSpan(c, !newPage);
    cellHeight := SubtractRowHeights(cellHeight, RowDummyRows(c.dummyCells), env.rowHeight);
    m := maxCellHeight;
    if HasContent(c) && Lookup(m, c.row) < cellHeight {
      m := m[c.row := cellHeight];
    }
  }

  /** The inner loop: take off the height of every row the row placeholders cover. */
  method SubtractRowHeights(height: int, rows: seq<int>, rowHeight: int -> int) returns (r: int)
    ensures r == height - SumHeights(rowHeight, rows)
  {
    r := height;
    var j := 0;
    while j < |rows|
      invariant 0 <= j <= |rows|
      invariant r == height - SumHeights(rowHeight, rows[..j])
    {
      assert rows[..j + 1][..j] == rows[..j];
      r := r - rowHeight(rows[j]);
      j := j + 1;
    }
    assert rows[..j] == rows;
  }

  /** The second loop of `print_split_cells`: give every split cell its height and append
      it to the page buffer. */
  method PlaceSplitCells(cells: array<Cell>, page: PageBuffer, maxCellHeight: map<int, int>, firstRowNewPage: int,
                         lastRow: int, offset: int, newPage: bool, env: Env)
    requires cells.Length > 0 ==> lastRow == cells[cells.Length - 1].row
    modifies cells, page
    ensures cells[..] == ReconcileAll(old(cells[..]), maxCellHeight, firstRowNewPage, lastRow, newPage, env)
    ensures page.entries == old(page.entries) + Placed(cells[..], offset, newPage, env)
  {
    ghost var replaced := cells[..];
    ghost var entries0 := page.entries;
    ghost var final := ReconcileAll(replaced, maxCellHeight, firstRowNewPage, lastRow, newPage, env);
    ReconcileAllAt(replaced, maxCellHeight, firstRowNewPage, lastRow, newPage, env);
    var i := 0;
    while i < cells.Length
      invariant 0 <= i <= cells.Length
      invariant forall k :: 0 <= k < i ==> cells[k] == final[k]
      invariant forall k :: i <= k < cells.Length ==> cells[k] == replaced[k]
      invariant |page.entries| == |entries0| + i
      invariant forall k :: 0 <= k < |entries0| ==> page.entries[k] == entries0[k]
      invariant forall k :: 0 <= k < i ==>
                  page.entries[|entries0| + k] == Entry(final[k], Origin(final[k], lastRow, offset, newPage, env))
    {
      PlaceSplitCell(cells, i, page, maxCellHeight, firstRowNewPage, lastRow, offset, newPage, env);
      i := i + 1;
    }
    assert cells[..] == final;
    AppendedArePlaced(page.entries, entries0, final, lastRow, offset, newPage, env);
  }

  /** Entries appended one per cell, each at its origin, are the placed cells. */
  lemma AppendedArePlaced(es: seq<Entry>, es0: seq<Entry>, cs: seq<Cell>, lastRow: int, offset: int,
                          newPage: bool, env: Env)
    requires cs != [] ==> lastRow == cs[|cs| - 1].row
    requires |es| == |es0| + |cs|
    requires forall k :: 0 <= k < |es0| ==> es[k] == es0[k]
    requires forall k :: 0 <= k < |cs| ==> es[|es0| + k] == Entry(cs[k], Origin(cs[k], lastRow, offset, newPage, env))
    ensures es == es0 + Placed(cs, offset, newPage, env)
  {
    PlacedBelowAt(cs, LastRow(cs), offset, newPage, env);
  }

  /** One iteration of that loop, for the split cell at index `i`. */
  method PlaceSplitCell(cells: array<Cell>, i: nat, page: PageBuffer, maxCellHeight: map<int, int>, firstRowNewPage: int,
                        lastRow: int, offset: int, newPage: bool, env: Env)
    requires i < cells.Length
    modifies cells, page
    ensures cells[i] == Reconcile(old(cells[i]), maxCellHeight, firstRowNewPage, lastRow, newPage, env)
    ensures forall k :: 0 <= k < cells.Length && k != i ==> cells[k] == old(cells[k])
    ensures page.entries == old(page.entries) + [Entry(cells[i], Origin(cells[i], lastRow, offset, newPage, env))]
  {
    var c := cells[i];
    ghost var c0 := c;
    if c.kind != SpanDummy {
      if c.row < firstRowNewPage {
        c := c.(height := Lookup(maxCellHeight, firstRowNewPage));
      } else {
        c := c.(height := Lookup(maxCellHeight, c.row));
      }
    }
    assert c == if c0.kind == SpanDummy then c0 else c0.(height := BaseHeight(c0, maxCellHeight, firstRowNewPage));
    var extra := SumHeights(env.recalculatedHeight, RowDummyRows(env.filteredDummyCells(c, lastRow, newPage)));
    c := c.(height := c.height + extra);
    assert c == Reconcile(c0, maxCellHeight, firstRowNewPage, lastRow, newPage, env);
    var e := Entry(c, Origin(c, lastRow, offset, newPage, env));
    cells[i] := c;
    page.Append(e);
  }

  /** `max_cell_height` is never negative; it is at least the adjusted height of every
      split cell with content in that row; a key is only ever set by such a cell, to a
      positive height that cell demands. */
  lemma {:induction false} MaxHeightsBounds(cs: seq<Cell>, newPage: bool, env: Env)
    ensures forall r :: Lookup(MaxHeights(cs, newPage, env), r) >= 0
    ensures forall i :: 0 <= i < |cs| && HasContent(cs[i]) ==>
              AdjustedHeight(cs[i], newPage, env) <= Lookup(MaxHeights(cs, newPage, env), cs[i].row)
    ensures forall r :: r in MaxHeights(cs, newPage, env) ==>
              MaxHeights(cs, newPage, env)[r] > 0 &&
              exists i :: 0 <= i < |cs| && HasContent(cs[i]) && cs[i].row == r &&
                          AdjustedHeight(cs[i], newPage, env) == MaxHeights(cs, newPage, env)[r]
  {
    if cs != [] {
      var p := cs[..|cs| - 1];
      MaxHeightsBounds(p, newPage, env);
      var m := MaxHeights(p, newPage, env);
      var m' := MaxHeights(cs, newPage, env);
      forall i | 0 <= i < |cs| && HasContent(cs[i])
        ensures AdjustedHeight(cs[i], newPage, env) <= Lookup(m', cs[i].row)
      {
        if i < |cs| - 1 {
          assert cs[i] == p[i];
        }
      }
      forall r | r in m'
        ensures m'[r] > 0 && exists i :: 0 <= i < |cs| && HasContent(cs[i]) && cs[i].row == r &&
                                        AdjustedHeight(cs[i], newPage, env) == m'[r]
      {
        if r == cs[|cs| - 1].row && m' != m {
          assert HasContent(cs[|cs| - 1]);
        } else {
          assert r in m && m'[r] == m[r];
          var i :| 0 <= i < |p| && HasContent(p[i]) && p[i].row == r && AdjustedHeight(p[i], newPage, env) == m[r];
          assert cs[i] == p[i];
        }
      }
    }
  }

  /** Cells with nil or empty content never raise a maximum: the table has the same keys
      and values as the one built from the cells that have content. */
  lemma {:induction false} MaxHeightsIgnoresEmpty(cs: seq<Cell>, newPage: bool, env: Env, r: int)
    ensures r in MaxHeights(cs, newPage, env) <==> r in MaxHeights(WithContent(cs), newPage, env)
    ensures Lookup(MaxHeights(cs, newPage, env), r) == Lookup(MaxHeights(WithContent(cs), newPage, env), r)
  {
    if cs != [] {
      var p := cs[..|cs| - 1];
      var c := cs[|cs| - 1];
      var w := WithContent(cs);
      MaxHeightsIgnoresEmpty(p, newPage, env, r);
      MaxHeightsIgnoresEmpty(p, newPage, env, c.row);
      if HasContent(c) {
        assert w[..|w| - 1] == WithContent(p);
        assert w[|w| - 1] == c;
      } else {
        assert w == WithContent(p);
      }
    }
  }

  function WithContent(cs: seq<Cell>): seq<Cell>
  {
    if cs == [] then []
    else WithContent(cs[..|cs| - 1]) + (if HasContent(cs[|cs| - 1]) then [cs[|cs| - 1]] else [])
  }

  /** `print_split_cells` changes content and height, and nothing else: on the new page the
      content becomes the continuation. */
  lemma ReconciledKeepsCells(cs: seq<Cell>, newPage: bool, env: Env)
    ensures |Reconciled(cs, newPage, env)| == |cs|
    ensures forall k :: 0 <= k < |cs| ==>
              Reconciled(cs, newPage, env)[k] ==
                cs[k].(content := if newPage then cs[k].contentNewPage else cs[k].content,
                       height := Reconciled(cs, newPage, env)[k].height)
  {
    var rs := Replaced(cs, newPage);
    var m := MaxHeights(rs, newPage, env);
    ReplacedAt(cs, newPage);
    ReconcileAllAt(rs, m, MinKey(m), LastRow(cs), newPage, env);
    forall k | 0 <= k < |cs|
      ensures Reconciled(cs, newPage, env)[k] == cs[k].(content := rs[k].content, height := Reconciled(cs, newPage, env)[k].height)
    {
      assert Reconciled(cs, newPage, env)[k] == Reconcile(rs[k], m, MinKey(m), LastRow(cs), newPage, env);
    }
  }

  /** No real split cell with content is given less height than it demands: its height is
      a non-negative base from the table of maxima, covering its demand, plus the heights of
      its placeholder rows. */
  lemma ReconciledCoversContent(cs: seq<Cell>, newPage: bool, env: Env)
    ensures var rs := Replaced(cs, newPage);
            var m := MaxHeights(rs, newPage, env);
            var out := Reconciled(cs, newPage, env);
            forall k :: 0 <= k < |cs| && cs[k].kind != SpanDummy ==>
              var base := BaseHeight(rs[k], m, MinKey(m));
              out[k].height == base + ExtraHeight(rs[k].(height := base), LastRow(cs), newPage, env) &&
              base >= 0 &&
              (HasContent(rs[k]) ==> base >= AdjustedHeight(rs[k], newPage, env))
  {
    var rs := Replaced(cs, newPage);
    var m := MaxHeights(rs, newPage, env);
    ReplacedAt(cs, newPage);
    ReconcileAllAt(rs, m, MinKey(m), LastRow(cs), newPage, env);
    forall k | 0 <= k < |cs| && cs[k].kind != SpanDummy
      ensures BaseHeight(rs[k], m, MinKey(m)) >= 0
      ensures HasContent(rs[k]) ==> BaseHeight(rs[k], m, MinKey(m)) >= AdjustedHeight(rs[k], newPage, env)
    {
      BaseHeightCovers(rs, k, newPage, env);
    }
  }

  /** All real split cells of one row get the same base height. */
  lemma ReconciledRowsAgree(cs: seq<Cell>, newPage: bool, env: Env)
    ensures var rs := Replaced(cs, newPage);
            var m := MaxHeights(rs, newPage, env);
            forall i, j :: 0 <= i < |cs| && 0 <= j < |cs| && cs[i].kind != SpanDummy && cs[j].kind != SpanDummy &&
                           cs[i].row == cs[j].row ==>
              BaseHeight(rs[i], m, MinKey(m)) == BaseHeight(rs[j], m, MinKey(m))
  {
    ReplacedAt(cs, newPage);
  }

  /** The height a split cell is given from the table of maxima is never negative, and
      covers what the cell demands when it has content: a row below the least key
      holds no key, so such a cell demands nothing positive. */
  lemma BaseHeightCovers(rs: seq<Cell>, k: nat, newPage: bool, env: Env)
    requires k < |rs|
    ensures var m := MaxHeights(rs, newPage, env);
            BaseHeight(rs[k], m, MinKey(m)) >= 0 &&
            (HasContent(rs[k]) ==> BaseHeight(rs[k], m, MinKey(m)) >= AdjustedHeight(rs[k], newPage, env))
  {
    var m := MaxHeights(rs, newPage, env);
    MinKeyIsLeast(m);
    MaxHeightsBounds(rs, newPage, env);
    if rs[k].row < MinKey(m) {
      assert rs[k].row !in m;
    }
  }
}
