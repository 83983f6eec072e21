/** The final gather: every rank but 0 sends its interior rows (the last
    rank also its bottom boundary row) to rank 0, which receives them one
    rank at a time into rows 1 .. count of its own buffer and appends each
    block to the dump with `save_gnuplot`. */
module Gather {
  import opened FlatIndex
  import opened Partition
  import opened Boundary
  import opened Halo
  import opened Grid

  /** One row of the dump: `save_gnuplot` writes, for every column j, the
      line (h*j, -h*y, cells[j]); the model keeps the row label y and the
      cells. */
  datatype DumpRow = DumpRow(y: nat, cells: seq<real>)

  /** Number of rows rank r >= 1 sends to rank 0: its loc interior rows,
      plus its bottom boundary row when it is the last rank. */
  function SendCount(dim: nat, np: nat, r: nat): (c: nat)
    requires np > 0 && r < np
    ensures GlobStart(dim, np, r) + c <= dim + 2
  {
    Coverage(dim, np);
    if r == np - 1 then LocRows(dim, np, r) + 1
    else
      Contiguous(dim, np, r);
      StartBelowEnd(dim, np, r + 1);
      LocRows(dim, np, r)
  }

  /** Every block fits in rows 1 .. count of rank 0's buffer of loc(0) + 2
      rows, because no rank holds more rows than rank 0. */
  lemma ReceiveFits(dim: nat, np: nat, r: nat)
    requires 0 < r < np
    ensures 1 + SendCount(dim, np, r) <= LocRows(dim, np, 0) + 2
  {
    PartitionBalance(dim, np, 0, r);
  }

  /** Rank 0's rows 0 .. loc(0) and the blocks of ranks 1 .. np-1 together
      are D + 2 rows: every row of the global grid once. */
  lemma DumpRowCount(dim: nat, np: nat)
    requires 2 <= np
    ensures LocRows(dim, np, 0) + 1 + SumCounts(dim, np, np) == dim + 2
  {
    CountsAreStarts(dim, np, np - 1);
    Coverage(dim, np);
  }

  /** The rows sent by ranks 1 .. k-1. */
  function SumCounts(dim: nat, np: nat, k: nat): nat
    requires np > 0 && k <= np
  {
    if k <= 1 then 0 else SumCounts(dim, np, k - 1) + SendCount(dim, np, k - 1)
  }

  /** Before rank k >= 1's block, the dump holds rows 0 .. GlobStart(k) - 1. */
  lemma {:induction false} CountsAreStarts(dim: nat, np: nat, k: nat)
    requires 1 <= k < np
    ensures LocRows(dim, np, 0) + 1 + SumCounts(dim, np, k) == GlobStart(dim, np, k)
  {
    if k == 1 {
      Contiguous(dim, np, 0);
    } else {
      CountsAreStarts(dim, np, k - 1);
      Contiguous(dim, np, k - 1);
    }
  }

  /** How many rows of the global grid the dump holds before rank k's
      block: all rows above GlobStart(k), or all D + 2 once every rank has
      been received. */
  function DumpedBefore(dim: nat, np: nat, k: nat): (n: nat)
    requires 0 < np && 1 <= k <= np
    ensures n <= dim + 2
    ensures k < np ==> n == GlobStart(dim, np, k)
  {
    Coverage(dim, np);
    if k == np then dim + 2
    else
      StartBelowEnd(dim, np, k);
      GlobStart(dim, np, k)
  }

  /** No rank starts below the bottom boundary row. */
  lemma StartBelowEnd(dim: nat, np: nat, k: nat)
    requires 0 < np && k < np
    ensures GlobStart(dim, np, k) <= dim + 1
  {
    Coverage(dim, np);
    if k < np - 1 { StartsOrdered(dim, np, k, np - 1); }
  }

  /** Each block advances the dump by exactly what its rank sends. */
  lemma DumpAdvances(dim: nat, np: nat, i: nat)
    requires 0 < i < np
    ensures DumpedBefore(dim, np, i + 1) == DumpedBefore(dim, np, i) + SendCount(dim, np, i)
  {
    Coverage(dim, np);
    if i < np - 1 { Contiguous(dim, np, i); }
  }

  /** The first n rows of the global grid, each labelled with its global
      row number. */
  function Listing(dim: nat, np: nat, slabs: seq<seq<real>>, n: nat): (d: seq<DumpRow>)
    requires SlabsFit(dim, np, slabs) && n <= dim + 2
    ensures |d| == n
  {
    seq(n, g requires 0 <= g < n => DumpRow(g, GlobalRow(dim, np, slabs, g)))
  }

  /** `save_gnuplot(M, D, rowStart, rowEnd)` with the row label of local
      row 0 given by `shift`: rows rowStart .. rowEnd of m, each labelled
      shift + its local row. */
  function SaveGnuplotAt(m: seq<real>, rows: nat, dim: nat, rowStart: nat, rowEnd: nat, shift: nat): (d: seq<DumpRow>)
    requires rowStart <= rowEnd + 1 && rowEnd < rows && |m| == RowBase(rows, dim + 2)
    ensures |d| == rowEnd + 1 - rowStart
  {
    seq(rowEnd + 1 - rowStart, t requires 0 <= t < rowEnd + 1 - rowStart =>
      DumpRow(shift + rowStart + t, Row(m, rows, rowStart + t, dim + 2)))
  }

  /** `save_gnuplot` as written: the row label is the local row i of the
      buffer being dumped. */
  function SaveGnuplot(m: seq<real>, rows: nat, dim: nat, rowStart: nat, rowEnd: nat): (d: seq<DumpRow>)
    requires rowStart <= rowEnd + 1 && rowEnd < rows && |m| == RowBase(rows, dim + 2)
    ensures |d| == rowEnd + 1 - rowStart
    ensures forall t :: 0 <= t < |d| ==> d[t].y == rowStart + t
  {
    SaveGnuplotAt(m, rows, dim, rowStart, rowEnd, 0)
  }

  /** As written, rank 0's local row 1 (global row 1) and the first row of
      rank 1's block (global row GlobStart(1) >= 2) are both labelled 1, so
      the blocks of different ranks overlap in y. */
  lemma AsWrittenLabelsRepeat(dim: nat, np: nat, slabs: seq<seq<real>>, m: seq<real>)
    requires SlabsFit(dim, np, slabs) && 2 <= np && |m| == BufferSize(dim, np, 0)
    ensures LocRows(dim, np, 0) + 2 <= GlobStart(dim, np, 1) + 1
    ensures SaveGnuplot(slabs[0], LocRows(dim, np, 0) + 2, dim, 0, LocRows(dim, np, 0))[1].y
         == SaveGnuplot(m, LocRows(dim, np, 0) + 2, dim, 1, SendCount(dim, np, 1))[0].y
    ensures 1 < GlobStart(dim, np, 1)
  {
    LocRowsPositive(dim, np, 0);
    LocRowsPositive(dim, np, 1);
    ReceiveFits(dim, np, 1);
    Contiguous(dim, np, 0);
  }

  /** The rows rank r >= 1 sends (`matrix + (D+2)`, count rows): rows 1 ..
      SendCount(r) of its current buffer. */
  function Sent(dim: nat, np: nat, slabs: seq<seq<real>>, r: nat): (msg: seq<real>)
    requires SlabsFit(dim, np, slabs) && 0 < r < np
    ensures |msg| == RowBase(SendCount(dim, np, r), dim + 2)
  {
    RowBaseLe(SendCount(dim, np, r) + 1, LocRows(dim, np, r) + 2, dim + 2);
    slabs[r][dim + 2 .. RowBase(SendCount(dim, np, r) + 1, dim + 2)]
  }

  /** Row j of the message is row j + 1 of the sender's buffer. */
  lemma SentRow(dim: nat, np: nat, slabs: seq<seq<real>>, r: nat, j: nat)
    requires SlabsFit(dim, np, slabs) && 0 < r < np && j < SendCount(dim, np, r)
    ensures RowBase(j, dim + 2) + (dim + 2) <= |Sent(dim, np, slabs, r)|
    ensures Sent(dim, np, slabs, r)[RowBase(j, dim + 2) .. RowBase(j, dim + 2) + (dim + 2)]
         == Row(slabs[r], LocRows(dim, np, r) + 2, j + 1, dim + 2)
  {
    var w := dim + 2;
    RowBaseLe(j + 1, SendCount(dim, np, r), w);
    var part, row := Sent(dim, np, slabs, r)[RowBase(j, w) .. RowBase(j, w) + w], Row(slabs[r], LocRows(dim, np, r) + 2, j + 1, w);
    assert RowBase(j + 1, w) == RowBase(j, w) + w;
    forall x | 0 <= x < w ensures part[x] == row[x] {
      assert part[x] == slabs[r][RowBase(j + 1, w) + x];
    }
    SameSeq(part, row);
  }

  /** Rank 0's buffer after a receive of `count` rows into rows 1 .. count:
      the message replaces those rows, every other cell is kept. */
  function Receive(m: seq<real>, rows: nat, count: nat, w: nat, msg: seq<real>): (m': seq<real>)
    requires count < rows && |m| == RowBase(rows, w) && |msg| == RowBase(count, w)
    ensures |m'| == |m|
  {
    RowBaseLe(count + 1, rows, w);
    seq(|m|, k requires 0 <= k < |m| => if w <= k < w + |msg| then msg[k - w] else m[k])
  }

  /** After the receive, row j + 1 of the buffer is row j of the message,
      and rows past the message are untouched. */
  lemma ReceivedRow(m: seq<real>, rows: nat, count: nat, w: nat, msg: seq<real>, j: nat)
    requires |msg| == RowBase(count, w) && count < rows && |m| == RowBase(rows, w)
    requires j < count
    ensures RowBase(j, w) + w <= |msg|
    ensures Row(Receive(m, rows, count, w, msg), rows, j + 1, w) == msg[RowBase(j, w) .. RowBase(j, w) + w]
  {
    RowBaseLe(count + 1, rows, w);
    RowBaseLe(j + 1, count, w);
    var row, part := Row(Receive(m, rows, count, w, msg), rows, j + 1, w), msg[RowBase(j, w) .. RowBase(j, w) + w];
    forall x | 0 <= x < w ensures row[x] == part[x] {
    }
    SameSeq(row, part);
  }

  /** The receive `MPI_Recv(matrix + (D+2), count, ...)`. */
  method ReceiveRows(matrix: array<real>, rows: nat, count: nat, w: nat, msg: seq<real>)
    requires count < rows && matrix.Length == RowBase(rows, w) && |msg| == RowBase(count, w)
    modifies matrix
    ensures matrix[..] == Receive(old(matrix[..]), rows, count, w, msg)
  {
    RowBaseLe(count + 1, rows, w);
    var k := 0;
    while k < |msg|
      invariant k <= |msg|
      invariant forall k' :: 0 <= k' < matrix.Length ==>
        matrix[k'] == if w <= k' < w + k then msg[k' - w] else old(matrix[k'])
    {
      matrix[w + k] := msg[k];
      k := k + 1;
    }
  }

  /** Rank 0's buffer m after it receives the rows rank i sends. */
  function ReceivedBuffer(dim: nat, np: nat, slabs: seq<seq<real>>, i: nat, m: seq<real>): (m': seq<real>)
    requires SlabsFit(dim, np, slabs) && 0 < i < np && |m| == BufferSize(dim, np, 0)
    ensures |m'| == |m|
  {
    ReceiveFits(dim, np, i);
    Receive(m, LocRows(dim, np, 0) + 2, SendCount(dim, np, i), dim + 2, Sent(dim, np, slabs, i))
  }

  /** What rank 0 dumps after receiving from rank i: rows 1 .. count of
      its buffer, labelled from global row GlobStart(i). */
  function ReceivedBlock(dim: nat, np: nat, slabs: seq<seq<real>>, i: nat, m: seq<real>): (block: seq<DumpRow>)
    requires SlabsFit(dim, np, slabs) && 0 < i < np && |m| == BufferSize(dim, np, 0)
    ensures |block| == SendCount(dim, np, i)
  {
    ReceiveFits(dim, np, i);
    SaveGnuplotAt(ReceivedBuffer(dim, np, slabs, i, m), LocRows(dim, np, 0) + 2, dim, 1, SendCount(dim, np, i), GlobStart(dim, np, i) - 1)
  }

  /** Rank 0's part of the dump: rows 0 .. loc(0) of its buffer, then for
      each rank i = 1 .. np-1 the count the running counter
      `loc_dimension` reaches at step i, the receive of that many rows, and
      their dump. The counter equals what rank i sends at every step, and
      with every block labelled by global row the dump lists the whole
      global grid in row order. */
  method GatherDump(matrix: array<real>, dim: nat, np: nat, slabs: seq<seq<real>>)
    returns (dump: seq<DumpRow>, counts: seq<nat>)
    requires SlabsFit(dim, np, slabs) && 2 <= np
    requires matrix[..] == slabs[0]
    modifies matrix
    ensures |counts| == np - 1
    ensures forall i :: 1 <= i < np ==> counts[i - 1] == SendCount(dim, np, i)
    ensures dump == Listing(dim, np, slabs, dim + 2)
  {
    var loc := dim / np;
    var res := dim % np;
    QuotaRes(dim, np);
    if 0 < res { loc := loc + 1; }
    var rows := loc + 2;
    FirstBlock(dim, np, slabs);
    dump := SaveGnuplotAt(matrix[..], rows, dim, 0, loc, 0);
    counts := [];
    var i := 1;
    while i < np
      invariant 1 <= i <= np && rows == LocRows(dim, np, 0) + 2
      invariant matrix.Length == BufferSize(dim, np, 0)
      invariant i < np ==> loc == LocRows(dim, np, i - 1)
      invariant |counts| == i - 1
      invariant forall t :: 1 <= t < i ==> counts[t - 1] == SendCount(dim, np, t)
      invariant dump == Listing(dim, np, slabs, DumpedBefore(dim, np, i))
    {
      CounterStep(dim, np, i);
      if i == res { loc := loc - 1; }
      if i == np - 1 { loc := loc + 1; }
      ghost var m0 := matrix[..];
      var block := ReceiveBlock(matrix, dim, np, slabs, i, loc, rows);
      GatherStep(dim, np, slabs, i, m0);
      dump := dump + block;
      counts := counts + [loc];
      i := i + 1;
    }
  }

  /** One step of the gather loop after the counter update: the receive
      of rank i's `count` rows into rows 1 .. count of rank 0's buffer and
      their dump, labelled from global row GlobStart(i). */
  method ReceiveBlock(matrix: array<real>, dim: nat, np: nat, slabs: seq<seq<real>>, i: nat, count: nat, rows: nat)
    returns (block: seq<DumpRow>)
    requires SlabsFit(dim, np, slabs) && 0 < i < np
    requires rows == LocRows(dim, np, 0) + 2 && count == SendCount(dim, np, i)
    requires matrix.Length == BufferSize(dim, np, 0)
    modifies matrix
    ensures matrix[..] == ReceivedBuffer(dim, np, slabs, i, old(matrix[..]))
    ensures block == ReceivedBlock(dim, np, slabs, i, old(matrix[..]))
  {
    ReceiveFits(dim, np, i);
    ReceiveRows(matrix, rows, count, dim + 2, Sent(dim, np, slabs, i));
    block := SaveGnuplotAt(matrix[..], rows, dim, 1, count, GlobStart(dim, np, i) - 1);
  }

  /** The counter update at step i (decrement when i reaches `res`,
      increment at the last rank) turns loc(i-1) into what rank i sends. */
  lemma CounterStep(dim: nat, np: nat, i: nat)
    requires 0 < i < np
    ensures i == Res(dim, np) ==> LocRows(dim, np, i - 1) >= 1
    ensures (if i == Res(dim, np) then LocRows(dim, np, i - 1) - 1 else LocRows(dim, np, i - 1))
          + (if i == np - 1 then 1 else 0) == SendCount(dim, np, i)
  {
  }

  /** Rank 0's own rows 0 .. loc(0) are the first GlobStart(1) rows of the
      global grid. */
  lemma FirstBlock(dim: nat, np: nat, slabs: seq<seq<real>>)
    requires SlabsFit(dim, np, slabs) && 2 <= np
    ensures GlobStart(dim, np, 1) == LocRows(dim, np, 0) + 1
    ensures SaveGnuplotAt(slabs[0], LocRows(dim, np, 0) + 2, dim, 0, LocRows(dim, np, 0), 0)
         == Listing(dim, np, slabs, DumpedBefore(dim, np, 1))
  {
    var loc := LocRows(dim, np, 0);
    Contiguous(dim, np, 0);
    StartBelowEnd(dim, np, 1);
    var a := SaveGnuplotAt(slabs[0], loc + 2, dim, 0, loc, 0);
    var b := Listing(dim, np, slabs, loc + 1);
    forall g | 0 <= g < loc + 1 ensures a[g] == b[g] {
      FirstBlockLine(dim, np, slabs, g);
    }
    SameSeq(a, b);
  }

  /** Line g of rank 0's own dump is global row g under its own label. */
  lemma FirstBlockLine(dim: nat, np: nat, slabs: seq<seq<real>>, g: nat)
    requires SlabsFit(dim, np, slabs) && 2 <= np && g <= LocRows(dim, np, 0)
    ensures g <= dim + 1
    ensures SaveGnuplotAt(slabs[0], LocRows(dim, np, 0) + 2, dim, 0, LocRows(dim, np, 0), 0)[g]
         == DumpRow(g, GlobalRow(dim, np, slabs, g))
  {
    Contiguous(dim, np, 0);
    StartBelowEnd(dim, np, 1);
    if g > 0 {
      OwnershipUnique(dim, np, g, 0);
      assert Owner(dim, np, g) == 0;
    }
  }

  /** One step of the gather loop: appending the block of rank i to a dump
      of the rows above GlobStart(i) gives the dump of the rows above the
      next rank's start. */
  lemma GatherStep(dim: nat, np: nat, slabs: seq<seq<real>>, i: nat, m: seq<real>)
    requires SlabsFit(dim, np, slabs) && 0 < i < np && |m| == BufferSize(dim, np, 0)
    ensures Listing(dim, np, slabs, DumpedBefore(dim, np, i)) + ReceivedBlock(dim, np, slabs, i, m)
         == Listing(dim, np, slabs, DumpedBefore(dim, np, i + 1))
  {
    BlockIsGlobal(dim, np, slabs, i, m);
    DumpAdvances(dim, np, i);
    ListingExtends(dim, np, slabs, GlobStart(dim, np, i), ReceivedBlock(dim, np, slabs, i, m));
  }

  /** After receiving rank i's rows, the block rank 0 dumps holds global
      rows GlobStart(i) .. GlobStart(i) + count - 1 in order, each with its
      own label. */
  lemma BlockIsGlobal(dim: nat, np: nat, slabs: seq<seq<real>>, i: nat, m: seq<real>)
    requires SlabsFit(dim, np, slabs) && 0 < i < np && |m| == BufferSize(dim, np, 0)
    ensures forall t :: 0 <= t < SendCount(dim, np, i) ==>
      ReceivedBlock(dim, np, slabs, i, m)[t] == DumpRow(GlobStart(dim, np, i) + t, GlobalRow(dim, np, slabs, GlobStart(dim, np, i) + t))
  {
    forall t | 0 <= t < SendCount(dim, np, i)
      ensures ReceivedBlock(dim, np, slabs, i, m)[t] == DumpRow(GlobStart(dim, np, i) + t, GlobalRow(dim, np, slabs, GlobStart(dim, np, i) + t))
    {
      BlockLine(dim, np, slabs, i, m, t);
    }
  }

  /** Line t of the block is global row GlobStart(i) + t under its own
      label. */
  lemma BlockLine(dim: nat, np: nat, slabs: seq<seq<real>>, i: nat, m: seq<real>, t: nat)
    requires SlabsFit(dim, np, slabs) && 0 < i < np && |m| == BufferSize(dim, np, 0)
    requires t < SendCount(dim, np, i)
    ensures ReceivedBlock(dim, np, slabs, i, m)[t] == DumpRow(GlobStart(dim, np, i) + t, GlobalRow(dim, np, slabs, GlobStart(dim, np, i) + t))
  {
    ReceiveFits(dim, np, i);
    BlockLineIsBufferRow(dim, np, slabs, i, m, t);
    BlockRow(dim, np, slabs, i, m, t);
  }

  /** Line t of the block is row t + 1 of the buffer after the receive,
      labelled GlobStart(i) + t. */
  lemma BlockLineIsBufferRow(dim: nat, np: nat, slabs: seq<seq<real>>, i: nat, m: seq<real>, t: nat)
    requires SlabsFit(dim, np, slabs) && 0 < i < np && |m| == BufferSize(dim, np, 0)
    requires t < SendCount(dim, np, i) < LocRows(dim, np, 0) + 2
    ensures ReceivedBlock(dim, np, slabs, i, m)[t]
         == DumpRow(GlobStart(dim, np, i) + t, Row(ReceivedBuffer(dim, np, slabs, i, m), LocRows(dim, np, 0) + 2, t + 1, dim + 2))
  {
    var s, rows := GlobStart(dim, np, i), LocRows(dim, np, 0) + 2;
    var block := SaveGnuplotAt(ReceivedBuffer(dim, np, slabs, i, m), rows, dim, 1, SendCount(dim, np, i), s - 1);
    assert ReceivedBlock(dim, np, slabs, i, m) == block;
  }

  /** A block that continues the global rows from row n extends the
      listing of the first n rows. */
  lemma ListingExtends(dim: nat, np: nat, slabs: seq<seq<real>>, n: nat, block: seq<DumpRow>)
    requires SlabsFit(dim, np, slabs) && n + |block| <= dim + 2
    requires forall t :: 0 <= t < |block| ==> block[t] == DumpRow(n + t, GlobalRow(dim, np, slabs, n + t))
    ensures Listing(dim, np, slabs, n) + block == Listing(dim, np, slabs, n + |block|)
  {
    var after := Listing(dim, np, slabs, n + |block|);
    forall g | n <= g < n + |block| ensures block[g - n] == after[g] {
      assert block[g - n] == DumpRow(n + (g - n), GlobalRow(dim, np, slabs, n + (g - n)));
    }
  }

  /** Row t + 1 of rank 0's buffer after receiving rank i's rows is global
      row GlobStart(i) + t. */
  lemma BlockRow(dim: nat, np: nat, slabs: seq<seq<real>>, i: nat, m: seq<real>, t: nat)
    requires SlabsFit(dim, np, slabs) && 0 < i < np && |m| == BufferSize(dim, np, 0)
    requires t < SendCount(dim, np, i)
    ensures GlobStart(dim, np, i) + t <= dim + 1
    ensures Row(ReceivedBuffer(dim, np, slabs, i, m), LocRows(dim, np, 0) + 2, t + 1, dim + 2)
         == GlobalRow(dim, np, slabs, GlobStart(dim, np, i) + t)
  {
    ReceiveFits(dim, np, i);
    ReceivedRow(m, LocRows(dim, np, 0) + 2, SendCount(dim, np, i), dim + 2, Sent(dim, np, slabs, i), t);
    SentRow(dim, np, slabs, i, t);
    SentRowIsGlobal(dim, np, slabs, i, t);
  }

  /** Row t of what rank i sends is global row GlobStart(i) + t: an
      interior row it owns, or, on the last rank, the bottom boundary. */
  lemma SentRowIsGlobal(dim: nat, np: nat, slabs: seq<seq<real>>, i: nat, t: nat)
    requires SlabsFit(dim, np, slabs) && 0 < i < np && t < SendCount(dim, np, i)
    ensures GlobStart(dim, np, i) + t <= dim + 1
    ensures GlobalRow(dim, np, slabs, GlobStart(dim, np, i) + t) == Row(slabs[i], LocRows(dim, np, i) + 2, t + 1, dim + 2)
  {
    var g := GlobStart(dim, np, i) + t;
    Coverage(dim, np);
    if i < np - 1 { StartsOrdered(dim, np, i, np - 1); }
    if g <= dim {
      OwnershipUnique(dim, np, g, i);
      assert Owner(dim, np, g) == i;
    }
  }
}
