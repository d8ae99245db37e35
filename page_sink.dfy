/** `cells_this_page`: the buffer of (cell, position) pairs collected for the current
    page, and the final pass that gives every real cell its row's height. */
module PageSink {
  import opened CellModel

  /** The normalisation pass touches a cell unless it is a span placeholder or lies in
      a header row. */
  predicate Normalises(e: Entry, headerRows: set<int>)
  {
    e.cell.kind != SpanDummy && e.cell.row !in headerRows
  }

  function NormaliseEntry(e: Entry, headerRows: set<int>, rowHeight: int -> int): Entry
  {
    if Normalises(e, headerRows) then Entry(e.cell.(height := rowHeight(e.cell.row)), e.origin) else e
  }

  function Normalised(es: seq<Entry>, headerRows: set<int>, rowHeight: int -> int): seq<Entry>
  {
    seq(|es|, k requires 0 <= k < |es| => NormaliseEntry(es[k], headerRows, rowHeight))
  }

  /** After the pass, every real non-header cell has its row's height; every other entry is
      untouched; only heights change, and the buffer keeps its length and order. */
  lemma NormalisedHeights(es: seq<Entry>, headerRows: set<int>, rowHeight: int -> int)
    ensures |Normalised(es, headerRows, rowHeight)| == |es|
    ensures forall k :: 0 <= k < |es| && Normalises(es[k], headerRows) ==>
              Normalised(es, headerRows, rowHeight)[k].cell.height == rowHeight(es[k].cell.row)
    ensures forall k :: 0 <= k < |es| && !Normalises(es[k], headerRows) ==>
              Normalised(es, headerRows, rowHeight)[k] == es[k]
    ensures forall k :: 0 <= k < |es| ==>
              Normalised(es, headerRows, rowHeight)[k].cell.(height := es[k].cell.height) == es[k].cell &&
              Normalised(es, headerRows, rowHeight)[k].origin == es[k].origin
  {
  }

  /** Running the pass twice is the same as running it once. */
  lemma NormalisedIdempotent(es: seq<Entry>, headerRows: set<int>, rowHeight: int -> int)
    ensures Normalised(Normalised(es, headerRows, rowHeight), headerRows, rowHeight) == Normalised(es, headerRows, rowHeight)
  {
  }

  class PageBuffer {
    var entries: seq<Entry>

    constructor (header: seq<Entry>)
      ensures entries == header
    {
      entries := header;
    }

    /** `cells_this_page << [cell, position]`. */
    method Append(e: Entry)
      modifies this
      ensures entries == old(entries) + [e]
    {
      entries := entries + [e];
    }

    /** The loop that ends `draw`: `cell.height = row(cell.row).height` for every real
        non-header cell on the last page. */
    method NormaliseHeights(headerRows: set<int>, rowHeight: int -> int)
      modifies this
      ensures entries == Normalised(old(entries), headerRows, rowHeight)
    {
      var k := 0;
      while k < |entries|
        invariant 0 <= k <= |entries| == |old(entries)|
        invariant forall j :: 0 <= j < k ==> entries[j] == NormaliseEntry(old(entries)[j], headerRows, rowHeight)
        invariant forall j :: k <= j < |entries| ==> entries[j] == old(entries)[j]
      {
        var e := entries[k];
        if e.cell.kind != SpanDummy && e.cell.row !in headerRows {
          entries := entries[k := Entry(e.cell.(height := rowHeight(e.cell.row)), e.origin)];
        }
        k := k + 1;
      }
    }
  }
}
