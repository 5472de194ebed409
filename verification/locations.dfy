/** Per-row location exceedance: which location columns of one input row hold
    more reads than the reads threshold (`Num loc` and `Locations`). */
module Locations {
  import opened Seqs

  /** One location column of an input row: the column header and the read count. */
  datatype Cell = Cell(location: string, count: int)

  /** A cell passes when its count is STRICTLY greater than the threshold. */
  function Above(readsThreshold: int): Cell -> bool
  {
    (c: Cell) => c.count > readsThreshold
  }

  /** `Num loc`: the number of the row's location cells above the threshold. */
  function NumAbove(cells: seq<Cell>, readsThreshold: int): nat
  {
    Count(Above(readsThreshold), cells)
  }

  /** `Locations`: the (location, count) pairs above the threshold, in column order. */
  function LocationsAbove(cells: seq<Cell>, readsThreshold: int): (r: seq<Cell>)
    ensures forall i :: 0 <= i < |r| ==> r[i] in cells && r[i].count > readsThreshold
    ensures forall i :: 0 <= i < |cells| && cells[i].count > readsThreshold ==> cells[i] in r
  {
    var r := Filter(Above(readsThreshold), cells);
    assert forall i :: 0 <= i < |r| ==> r[i] in cells by {
      forall i | 0 <= i < |r| {
        FilterElements(Above(readsThreshold), cells, r[i]);
      }
    }
    assert forall i :: 0 <= i < |cells| && cells[i].count > readsThreshold ==> cells[i] in r by {
      forall i | 0 <= i < |cells| && cells[i].count > readsThreshold {
        FilterKeeps(Above(readsThreshold), cells, cells[i]);
      }
    }
    r
  }

  /** The column headers of a row's cells, in order. */
  function Names(cells: seq<Cell>): seq<string>
  {
    Map((c: Cell) => c.location, cells)
  }

  /** The two separately computed columns agree: `Num loc` is the size of `Locations`. */
  lemma LocationCount(cells: seq<Cell>, readsThreshold: int)
    ensures |LocationsAbove(cells, readsThreshold)| == NumAbove(cells, readsThreshold)
    ensures NumAbove(cells, readsThreshold) <= |cells|
  {
    FilterCount(Above(readsThreshold), cells);
  }

  /** A count equal to the threshold does not make a location qualify. */
  lemma ThresholdIsStrict(cells: seq<Cell>, readsThreshold: int, c: Cell)
    requires c in cells && c.count == readsThreshold
    ensures c !in LocationsAbove(cells, readsThreshold)
  {
  }

  /** `Locations` keeps the column order, and when the column headers are
      distinct (as pandas makes them) its keys are distinct, so it is a
      faithful dictionary of `Num loc` entries. */
  lemma LocationsAreColumnOrdered(cells: seq<Cell>, readsThreshold: int)
    ensures IsSubseq(LocationsAbove(cells, readsThreshold), cells)
    ensures NoDup(Names(cells)) ==> NoDup(Names(LocationsAbove(cells, readsThreshold)))
  {
    var kept := LocationsAbove(cells, readsThreshold);
    FilterIsSubseq(Above(readsThreshold), cells);
    MapSubseq((c: Cell) => c.location, kept, cells);
    if NoDup(Names(cells)) {
      SubseqNoDup(Names(kept), Names(cells));
    }
  }

  /** Raising the reads threshold only removes locations. */
  lemma RaisingReadsThreshold(cells: seq<Cell>, readsThreshold: int, higher: int)
    requires readsThreshold <= higher
    ensures IsSubseq(LocationsAbove(cells, higher), LocationsAbove(cells, readsThreshold))
    ensures NumAbove(cells, higher) <= NumAbove(cells, readsThreshold)
  {
    FilterWeaker(Above(readsThreshold), Above(higher), cells);
    SubseqLength(LocationsAbove(cells, higher), LocationsAbove(cells, readsThreshold));
    LocationCount(cells, higher);
    LocationCount(cells, readsThreshold);
  }
}
