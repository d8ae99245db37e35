/** `calculate_split_cells_new_page`: which of the pending split cells reappear on the
    page that follows a forced page break. */
module NewPageSelection {
  import opened CellModel

  /** Some placeholder of the cell lies in row `last`. */
  predicate SpansInto(c: Cell, last: int)
  {
    exists j :: 0 <= j < |c.dummyCells| && c.dummyCells[j].row == last
  }

  /** The two guards of the selection loop, in the order the source applies them:
      a real cell spanning nothing and lying above the last row of the last page is
      skipped; a cell that spans something is kept only if it spans into that row. */
  predicate KeepOnNewPage(c: Cell, last: int)
  {
    !(c.row < last && c.dummyCells == [] && c.kind != SpanDummy) &&
    (c.dummyCells != [] ==> SpansInto(c, last))
  }

  /** The same decision read per case. */
  lemma KeepOnNewPageCases(c: Cell, last: int)
    ensures c.dummyCells == [] ==> (KeepOnNewPage(c, last) <==> c.kind == SpanDummy || c.row >= last)
    ensures c.dummyCells != [] ==>
              (KeepOnNewPage(c, last) <==> exists d :: d in c.dummyCells && d.row == last)
  {
    if c.dummyCells != [] && (exists d :: d in c.dummyCells && d.row == last) {
      var d :| d in c.dummyCells && d.row == last;
      var j :| 0 <= j < |c.dummyCells| && c.dummyCells[j] == d;
    }
  }

  /** The cells of `s` that are kept, in their original order. */
  function Selected(s: seq<Cell>, last: int): seq<Cell>
  {
    if s == [] then []
    else Selected(s[..|s| - 1], last) + (if KeepOnNewPage(s[|s| - 1], last) then [s[|s| - 1]] else [])
  }

  /** `r` is obtained from `s` by deleting elements (order kept, nothing added). */
  predicate Subsequence(r: seq<Cell>, s: seq<Cell>)
    decreases |s|
  {
    if r == [] then true
    else if s == [] then false
    else (r[|r| - 1] == s[|s| - 1] && Subsequence(r[..|r| - 1], s[..|s| - 1]))
         || Subsequence(r, s[..|s| - 1])
  }

  method CalculateSplitCellsNewPage(splitCells: seq<Cell>, rowNumber: int) returns (r: seq<Cell>)
    ensures r == Selected(splitCells, rowNumber - 1)
  {
    var last := rowNumber - 1;
    r := [];
    var i := 0;
    while i < |splitCells|
      invariant 0 <= i <= |splitCells|
      invariant r == Selected(splitCells[..i], last)
    {
      var c := splitCells[i];
      var keep := true;
      if c.row < last && c.dummyCells == [] && c.kind != SpanDummy {
        keep := false;
      } else if c.dummyCells != [] {
        var found := false;
        var j := 0;
        while j < |c.dummyCells|
          invariant 0 <= j <= |c.dummyCells|
          invariant found <==> exists k :: 0 <= k < j && c.dummyCells[k].row == last
        {
          if c.dummyCells[j].row == last {
            found := true;
          }
          j := j + 1;
        }
        keep := found;
      }
      if keep {
        r := r + [c];
      }
      assert splitCells[..i + 1][..i] == splitCells[..i];
      i := i + 1;
    }
    assert splitCells[..i] == splitCells;
  }

  /** The selection keeps the original order and introduces nothing. */
  lemma {:induction false} SelectedIsSubsequence(s: seq<Cell>, last: int)
    ensures Subsequence(Selected(s, last), s)
  {
    if s != [] {
      var p := s[..|s| - 1];
      SelectedIsSubsequence(p, last);
      if KeepOnNewPage(s[|s| - 1], last) {
        var r := Selected(s, last);
        assert r[..|r| - 1] == Selected(p, last);
      } else {
        assert Selected(s, last) == Selected(p, last);
        if Selected(p, last) != [] {
          SubsequenceOfLonger(Selected(p, last), p, s[|s| - 1]);
        }
      }
    }
  }

  lemma {:induction false} SubsequenceOfLonger(r: seq<Cell>, s: seq<Cell>, x: Cell)
    requires Subsequence(r, s)
    ensures Subsequence(r, s + [x])
  {
    assert (s + [x])[..|s|] == s;
  }

  /** Every cell occurs on the new page as often as in the input if it is kept,
      and not at all otherwise: no duplicates, no new cells. */
  lemma {:induction false} SelectedCounts(s: seq<Cell>, last: int, c: Cell)
    ensures multiset(Selected(s, last))[c] == if KeepOnNewPage(c, last) then multiset(s)[c] else 0
  {
    if s != [] {
      var p := s[..|s| - 1];
      SelectedCounts(p, last, c);
      assert s == p + [s[|s| - 1]];
    }
  }

  /** Hence the result is a sub-multiset of the input. */
  lemma SelectedSubMultiset(s: seq<Cell>, last: int)
    ensures multiset(Selected(s, last)) <= multiset(s)
  {
    forall c | true
      ensures multiset(Selected(s, last))[c] <= multiset(s)[c]
    {
      SelectedCounts(s, last, c);
    }
  }

  /** Membership: a cell is on the new page iff it was pending and passes the guards. */
  lemma SelectedMembers(s: seq<Cell>, last: int, c: Cell)
    ensures c in Selected(s, last) <==> c in s && KeepOnNewPage(c, last)
  {
    SelectedCounts(s, last, c);
  }
}
