/** The halo exchange: every rank sends its first interior row to the rank
    above and its last interior row to the rank below, and receives their
    rows into its two ghost rows. A missing neighbour (`MPI_PROC_NULL`) makes
    the corresponding transfer a no-op. */
module Halo {
  import opened FlatIndex
  import opened Partition
  import opened Boundary

  datatype Option<T> = None | Some(value: T)

  /** s with row i (of width w) replaced by `row`. */
  function SetRow(s: seq<real>, i: nat, w: nat, row: seq<real>): (r: seq<real>)
    requires |row| == w && RowBase(i, w) + w <= |s|
    ensures |r| == |s|
    ensures forall k :: 0 <= k < |s| ==>
      r[k] == if RowBase(i, w) <= k < RowBase(i, w) + w then row[k - RowBase(i, w)] else s[k]
  {
    s[..RowBase(i, w)] + row + s[RowBase(i, w) + w..]
  }

  /** The receiving half of a transfer: the w cells of `data` land in row i
      of `matrix`. */
  method ReceiveRow(matrix: array<real>, i: nat, w: nat, data: seq<real>)
    requires |data| == w && RowBase(i, w) + w <= matrix.Length
    modifies matrix
    ensures matrix[..] == SetRow(old(matrix[..]), i, w, data)
  {
    var row := RowBase(i, w);
    var j := 0;
    while j < w
      invariant j <= w
      invariant forall k :: 0 <= k < matrix.Length ==>
        matrix[k] == if row <= k < row + j then data[k - row] else old(matrix[k])
    {
      matrix[row + j] := data[j];
      j := j + 1;
    }
  }

  /** Replacing row i leaves every other row as it was. */
  lemma SetRowKeepsRow(s: seq<real>, rows: nat, i: nat, j: nat, w: nat, row: seq<real>)
    requires i < rows && j < rows && i != j && |s| == RowBase(rows, w) && |row| == w
    ensures RowBase(i, w) + w <= |s|
    ensures Row(SetRow(s, i, w, row), rows, j, w) == Row(s, rows, j, w)
  {
    RowBaseLe(i + 1, rows, w);
    if j < i {
      RowBaseLe(j + 1, i, w);
    } else {
      RowBaseLe(i + 1, j, w);
    }
    var before, after := Row(s, rows, j, w), Row(SetRow(s, i, w, row), rows, j, w);
    forall x | 0 <= x < w ensures after[x] == before[x] {
    }
    SameSeq(after, before);
  }

  /** The net effect of one exchange on a rank's current buffer: the row
      from the previous rank lands in ghost row 0, the row from the next
      rank in ghost row loc+1; `None` (no neighbour) leaves the ghost row as
      it was. */
  function ApplyHalo(s: seq<real>, loc: nat, dim: nat, fromPrev: Option<seq<real>>, fromNext: Option<seq<real>>): (r: seq<real>)
    requires |s| == RowBase(loc + 2, dim + 2)
    requires fromPrev.Some? ==> |fromPrev.value| == dim + 2
    requires fromNext.Some? ==> |fromNext.value| == dim + 2
    ensures |r| == |s|
  {
    var w, last := dim + 2, RowBase(loc + 1, dim + 2);
    RowBaseLe(1, loc + 1, w);
    seq(|s|, k requires 0 <= k < |s| =>
      if k < w && fromPrev.Some? then fromPrev.value[k]
      else if last <= k && fromNext.Some? then fromNext.value[k - last]
      else s[k])
  }

  /** Receiving ghost row loc+1 and then ghost row 0 has the net effect
      ApplyHalo describes. */
  lemma ReceivesMakeHalo(s: seq<real>, loc: nat, dim: nat, fromPrev: Option<seq<real>>, fromNext: Option<seq<real>>)
    requires |s| == RowBase(loc + 2, dim + 2)
    requires fromPrev.Some? ==> |fromPrev.value| == dim + 2
    requires fromNext.Some? ==> |fromNext.value| == dim + 2
    ensures RowBase(0, dim + 2) + dim + 2 <= |s|
    ensures var mid := if fromNext.Some? then SetRow(s, loc + 1, dim + 2, fromNext.value) else s;
      (if fromPrev.Some? then SetRow(mid, 0, dim + 2, fromPrev.value) else mid)
      == ApplyHalo(s, loc, dim, fromPrev, fromNext)
  {
    var w := dim + 2;
    RowBaseLe(1, loc + 1, w);
    var mid := if fromNext.Some? then SetRow(s, loc + 1, w, fromNext.value) else s;
    var r := if fromPrev.Some? then SetRow(mid, 0, w, fromPrev.value) else mid;
    var h := ApplyHalo(s, loc, dim, fromPrev, fromNext);
    assert forall k :: 0 <= k < |s| ==> r[k] == h[k];
  }

  /** `exchange_borders_blocking` on one rank: two paired send-receives.
      The first sends row 1 to the previous rank and receives ghost row
      loc+1 from the next; the second sends row loc to the next rank and
      receives ghost row 0 from the previous. `fromPrev`/`fromNext` are the
      rows the neighbours send, `None` where the neighbour is
      `MPI_PROC_NULL`; the results are the rows this rank sends, `None`
      where it sends to `MPI_PROC_NULL`. */
  method ExchangeBorders(matrix: array<real>, loc: nat, dim: nat, fromPrev: Option<seq<real>>, fromNext: Option<seq<real>>)
    returns (toPrev: Option<seq<real>>, toNext: Option<seq<real>>)
    requires 1 <= loc && matrix.Length == RowBase(loc + 2, dim + 2)
    requires fromPrev.Some? ==> |fromPrev.value| == dim + 2
    requires fromNext.Some? ==> |fromNext.value| == dim + 2
    modifies matrix
    ensures toPrev == if fromPrev.Some? then Some(Row(old(matrix[..]), loc + 2, 1, dim + 2)) else None
    ensures toNext == if fromNext.Some? then Some(Row(old(matrix[..]), loc + 2, loc, dim + 2)) else None
    ensures matrix[..] == ApplyHalo(old(matrix[..]), loc, dim, fromPrev, fromNext)
  {
    var w := dim + 2;
    RowBaseLe(2, loc + 2, w);
    RowBaseLe(loc + 1, loc + 2, w);
    ghost var s := matrix[..];
    // first MPI_Sendrecv: row 1 up (tag 100), ghost row loc+1 from below
    toPrev := if fromPrev.Some? then Some(Row(matrix[..], loc + 2, 1, w)) else None;
    if fromNext.Some? {
      ReceiveRow(matrix, loc + 1, w, fromNext.value);
    }
    // second MPI_Sendrecv: row loc down (tag 200), ghost row 0 from above
    if fromNext.Some? {
      SetRowKeepsRow(s, loc + 2, loc + 1, loc, w, fromNext.value);
    }
    toNext := if fromNext.Some? then Some(Row(matrix[..], loc + 2, loc, w)) else None;
    if fromPrev.Some? {
      ReceiveRow(matrix, 0, w, fromPrev.value);
    }
    ReceivesMakeHalo(s, loc, dim, fromPrev, fromNext);
  }

  /** On one rank: the ghost rows take the incoming rows (or keep their
      value where there is no neighbour) and no interior row changes. */
  lemma ApplyHaloRows(s: seq<real>, loc: nat, dim: nat, fromPrev: Option<seq<real>>, fromNext: Option<seq<real>>)
    requires |s| == RowBase(loc + 2, dim + 2)
    requires fromPrev.Some? ==> |fromPrev.value| == dim + 2
    requires fromNext.Some? ==> |fromNext.value| == dim + 2
    ensures var r := ApplyHalo(s, loc, dim, fromPrev, fromNext);
      Row(r, loc + 2, 0, dim + 2) == (if fromPrev.Some? then fromPrev.value else Row(s, loc + 2, 0, dim + 2)) &&
      Row(r, loc + 2, loc + 1, dim + 2) == (if fromNext.Some? then fromNext.value else Row(s, loc + 2, loc + 1, dim + 2)) &&
      forall k :: dim + 2 <= k < RowBase(loc + 1, dim + 2) ==> r[k] == s[k]
  {
    var w := dim + 2;
    RowBaseLe(1, loc + 1, w);
    var r := ApplyHalo(s, loc, dim, fromPrev, fromNext);
    assert Row(r, loc + 2, 0, w) == (if fromPrev.Some? then fromPrev.value else Row(s, loc + 2, 0, w));
    assert Row(r, loc + 2, loc + 1, w) == (if fromNext.Some? then fromNext.value else Row(s, loc + 2, loc + 1, w));
  }

  /** The current buffers of all ranks, one per rank, each of its rank's
      size, for a grid with at least one row per rank. */
  predicate SlabsFit(dim: nat, np: nat, slabs: seq<seq<real>>) {
    0 < np <= dim && |slabs| == np &&
    forall r :: 0 <= r < np ==> |slabs[r]| == BufferSize(dim, np, r)
  }

  /** What rank r receives from above: rank r-1's last interior row, or
      nothing on rank 0, whose `prev` is `MPI_PROC_NULL`. */
  function FromPrev(dim: nat, np: nat, slabs: seq<seq<real>>, r: nat): (m: Option<seq<real>>)
    requires SlabsFit(dim, np, slabs) && r < np
    ensures m.Some? ==> |m.value| == dim + 2
  {
    if r == 0 then None
    else
      var loc := LocRows(dim, np, r - 1);
      Some(Row(slabs[r - 1], loc + 2, loc, dim + 2))
  }

  /** What rank r receives from below: rank r+1's first interior row, or
      nothing on the last rank, whose `next` is `MPI_PROC_NULL`. */
  function FromNext(dim: nat, np: nat, slabs: seq<seq<real>>, r: nat): (m: Option<seq<real>>)
    requires SlabsFit(dim, np, slabs) && r < np
    ensures m.Some? ==> |m.value| == dim + 2
  {
    if r == np - 1 then None
    else
      Some(Row(slabs[r + 1], LocRows(dim, np, r + 1) + 2, 1, dim + 2))
  }

  /** Rank r's current buffer after the exchange, which receives from its
      neighbours' buffers as they were before it. */
  function ExchangeRank(dim: nat, np: nat, slabs: seq<seq<real>>, r: nat): (ex: seq<real>)
    requires SlabsFit(dim, np, slabs) && r < np
    ensures |ex| == |slabs[r]|
  {
    ApplyHalo(slabs[r], LocRows(dim, np, r), dim, FromPrev(dim, np, slabs, r), FromNext(dim, np, slabs, r))
  }

  /** The exchange writes only the ghost rows: every cell of rows 1 .. loc
      of rank r keeps its value. */
  lemma ExchangeKeepsInterior(dim: nat, np: nat, slabs: seq<seq<real>>, r: nat)
    requires SlabsFit(dim, np, slabs) && r < np
    ensures forall k :: dim + 2 <= k < RowBase(LocRows(dim, np, r) + 1, dim + 2) ==>
      ExchangeRank(dim, np, slabs, r)[k] == slabs[r][k]
  {
    ApplyHaloRows(slabs[r], LocRows(dim, np, r), dim, FromPrev(dim, np, slabs, r), FromNext(dim, np, slabs, r));
  }

  /** After the exchange, ghost row 0 of rank r is rank r-1's row
      loc(r-1), or unchanged on rank 0. */
  lemma ExchangeTopGhost(dim: nat, np: nat, slabs: seq<seq<real>>, r: nat)
    requires SlabsFit(dim, np, slabs) && r < np
    ensures Row(ExchangeRank(dim, np, slabs, r), LocRows(dim, np, r) + 2, 0, dim + 2) ==
      if r > 0 then Row(slabs[r - 1], LocRows(dim, np, r - 1) + 2, LocRows(dim, np, r - 1), dim + 2)
      else Row(slabs[r], LocRows(dim, np, r) + 2, 0, dim + 2)
  {
    ApplyHaloRows(slabs[r], LocRows(dim, np, r), dim, FromPrev(dim, np, slabs, r), FromNext(dim, np, slabs, r));
  }

  /** After the exchange, ghost row loc+1 of rank r is rank r+1's row 1, or
      unchanged on the last rank. */
  lemma ExchangeBottomGhost(dim: nat, np: nat, slabs: seq<seq<real>>, r: nat)
    requires SlabsFit(dim, np, slabs) && r < np
    ensures Row(ExchangeRank(dim, np, slabs, r), LocRows(dim, np, r) + 2, LocRows(dim, np, r) + 1, dim + 2) ==
      if r < np - 1 then Row(slabs[r + 1], LocRows(dim, np, r + 1) + 2, 1, dim + 2)
      else Row(slabs[r], LocRows(dim, np, r) + 2, LocRows(dim, np, r) + 1, dim + 2)
  {
    ApplyHaloRows(slabs[r], LocRows(dim, np, r), dim, FromPrev(dim, np, slabs, r), FromNext(dim, np, slabs, r));
  }

  /** The exchange keeps the boundary invariant: the column-0 and
      column-(D+1) cells a ghost row receives from a neighbour hold exactly
      the fixed values this rank's own formula gives them, because the
      neighbours' row ranges are contiguous. */
  lemma ExchangeKeepsBoundary(dim: nat, np: nat, slabs: seq<seq<real>>, r: nat)
    requires SlabsFit(dim, np, slabs) && r < np
    requires forall q :: 0 <= q < np ==> BoundaryHolds(dim, np, q, slabs[q])
    ensures BoundaryHolds(dim, np, r, ExchangeRank(dim, np, slabs, r))
  {
    var ex := ExchangeRank(dim, np, slabs, r);
    forall k | 0 <= k < |ex| ensures CellKept(dim, np, r, ex, k) {
      ExchangedCellKept(dim, np, slabs, r, k);
    }
  }

  /** One cell of the exchanged buffer: a kept cell keeps its fixed value,
      a received cell gets the same value from the neighbour. */
  lemma ExchangedCellKept(dim: nat, np: nat, slabs: seq<seq<real>>, r: nat, k: nat)
    requires SlabsFit(dim, np, slabs) && r < np && k < |slabs[r]|
    requires forall q :: 0 <= q < np ==> BoundaryHolds(dim, np, q, slabs[q])
    ensures CellKept(dim, np, r, ExchangeRank(dim, np, slabs, r), k)
  {
    var w, loc := dim + 2, LocRows(dim, np, r);
    var prev, next := FromPrev(dim, np, slabs, r), FromNext(dim, np, slabs, r);
    var ex := ExchangeRank(dim, np, slabs, r);
    assert ex == ApplyHalo(slabs[r], loc, dim, prev, next);
    RowBaseLe(1, loc + 1, w);
    assert CellKept(dim, np, r, slabs[r], k);
    if FixedCell(dim, np, r, RowOf(k, w), ColOf(k, w)) {
      if k < w && prev.Some? {
        Decode(0, k, w);
        TopGhostReceivesFixed(dim, np, slabs, r, k);
      } else if RowBase(loc + 1, w) <= k && next.Some? {
        var j := k - RowBase(loc + 1, w);
        Decode(loc + 1, j, w);
        BottomGhostReceivesFixed(dim, np, slabs, r, j);
      }
    }
  }

  /** Column j in {0, D+1} of the row rank r-1 sends down holds the fixed
      value of column j of rank r's ghost row 0. */
  lemma TopGhostReceivesFixed(dim: nat, np: nat, slabs: seq<seq<real>>, r: nat, j: nat)
    requires SlabsFit(dim, np, slabs) && 0 < r < np && (j == 0 || j == dim + 1)
    requires BoundaryHolds(dim, np, r - 1, slabs[r - 1])
    ensures FromPrev(dim, np, slabs, r).value[j] == FixedValue(dim, np, r, 0, j)
  {
    var w, lp := dim + 2, LocRows(dim, np, r - 1);
    Decode(lp, j, w);
    RowBaseLe(lp + 1, lp + 2, w);
    Contiguous(dim, np, r - 1);
    assert CellKept(dim, np, r - 1, slabs[r - 1], RowBase(lp, w) + j);
    assert FromPrev(dim, np, slabs, r).value[j] == slabs[r - 1][RowBase(lp, w) + j];
  }

  /** Column j in {0, D+1} of the row rank r+1 sends up holds the fixed
      value of column j of rank r's ghost row loc+1. */
  lemma BottomGhostReceivesFixed(dim: nat, np: nat, slabs: seq<seq<real>>, r: nat, j: nat)
    requires SlabsFit(dim, np, slabs) && r + 1 < np && (j == 0 || j == dim + 1)
    requires BoundaryHolds(dim, np, r + 1, slabs[r + 1])
    ensures FromNext(dim, np, slabs, r).value[j] == FixedValue(dim, np, r, LocRows(dim, np, r) + 1, j)
  {
    var w := dim + 2;
    Decode(1, j, w);
    LocRowsPositive(dim, np, r + 1);
    RowBaseLe(2, LocRows(dim, np, r + 1) + 2, w);
    Contiguous(dim, np, r);
    assert CellKept(dim, np, r + 1, slabs[r + 1], RowBase(1, w) + j);
    assert FromNext(dim, np, slabs, r).value[j] == slabs[r + 1][RowBase(1, w) + j];
  }
}
