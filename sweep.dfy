/** The iteration of all ranks seen on the global grid: after the exchange
    each rank's buffer is a window of D+2 consecutive global rows, so one
    iteration of all ranks is one Jacobi sweep over the interior of the
    (D+2) x (D+2) grid. */
module Sweep {
  import opened FlatIndex
  import opened Partition
  import opened Boundary
  import opened Stencil
  import opened Halo
  import opened Iteration
  import opened Grid

  /** A rank's last global row is at most D. */
  lemma EndInGrid(dim: nat, np: nat, r: nat)
    requires 0 < np <= dim && r < np
    ensures GlobStart(dim, np, r) <= GlobEnd(dim, np, r) <= dim
  {
    Coverage(dim, np);
    LocRowsPositive(dim, np, r);
    LocRowsPositive(dim, np, np - 1);
    if r < np - 1 {
      StartsOrdered(dim, np, r, np - 1);
    }
  }

  /** Interior row i of rank r is global row g = GlobStart(r) - 1 + i. */
  lemma InteriorRowIsGlobal(dim: nat, np: nat, slabs: seq<seq<real>>, r: nat, i: nat, g: nat)
    requires SlabsFit(dim, np, slabs) && r < np && 1 <= i <= LocRows(dim, np, r)
    requires g == GlobStart(dim, np, r) - 1 + i
    ensures 1 <= g <= dim
    ensures Row(slabs[r], LocRows(dim, np, r) + 2, i, dim + 2) == GlobalRow(dim, np, slabs, g)
  {
    EndInGrid(dim, np, r);
    OwnershipUnique(dim, np, g, r);
  }

  /** The exchange leaves interior row i of rank r as it was. */
  lemma ExchangeKeepsInteriorRow(dim: nat, np: nat, slabs: seq<seq<real>>, r: nat, i: nat)
    requires SlabsFit(dim, np, slabs) && r < np && 1 <= i <= LocRows(dim, np, r)
    ensures Row(ExchangeRank(dim, np, slabs, r), LocRows(dim, np, r) + 2, i, dim + 2) ==
      Row(slabs[r], LocRows(dim, np, r) + 2, i, dim + 2)
  {
    var loc, w := LocRows(dim, np, r), dim + 2;
    var ex, own := ExchangeRank(dim, np, slabs, r), slabs[r];
    ExchangeKeepsInterior(dim, np, slabs, r);
    RowBaseLe(1, i, w);
    RowBaseMono(i, loc + 1, w);
    var a, b := Row(ex, loc + 2, i, w), Row(own, loc + 2, i, w);
    forall c | 0 <= c < w ensures a[c] == b[c] {
      assert a[c] == ex[RowBase(i, w) + c];
    }
    SameSeq(a, b);
  }

  /** The row rank r receives from above is global row g = GlobStart(r) - 1:
      the previous rank's last interior row; on rank 0, which receives
      nothing, its own row 0 is global row 0. */
  lemma PrevRowIsGlobal(dim: nat, np: nat, slabs: seq<seq<real>>, r: nat, g: nat)
    requires SlabsFit(dim, np, slabs) && r < np && g == GlobStart(dim, np, r) - 1
    ensures g <= dim
    ensures GlobalRow(dim, np, slabs, g) ==
      if r > 0 then Row(slabs[r - 1], LocRows(dim, np, r - 1) + 2, LocRows(dim, np, r - 1), dim + 2)
      else Row(slabs[r], LocRows(dim, np, r) + 2, 0, dim + 2)
  {
    EndInGrid(dim, np, r);
    if r > 0 {
      RowAbove(dim, np, slabs, r - 1, r, g);
    } else {
      TopRow(dim, np, slabs, r, g);
    }
  }

  /** On rank 0 the row above the band is global row 0, its own row 0. */
  lemma TopRow(dim: nat, np: nat, slabs: seq<seq<real>>, r: nat, g: nat)
    requires SlabsFit(dim, np, slabs) && r == 0 && g == GlobStart(dim, np, r) - 1
    ensures g == 0
    ensures GlobalRow(dim, np, slabs, g) == Row(slabs[r], LocRows(dim, np, r) + 2, 0, dim + 2)
  {
    Coverage(dim, np);
  }

  /** The row just above rank r's band is rank p's last interior row. */
  lemma RowAbove(dim: nat, np: nat, slabs: seq<seq<real>>, p: nat, r: nat, g: nat)
    requires SlabsFit(dim, np, slabs) && r < np && r == p + 1 && g == GlobStart(dim, np, r) - 1
    ensures 1 <= g <= dim
    ensures GlobalRow(dim, np, slabs, g) == Row(slabs[p], LocRows(dim, np, p) + 2, LocRows(dim, np, p), dim + 2)
  {
    Contiguous(dim, np, p);
    LocRowsPositive(dim, np, p);
    InteriorRowIsGlobal(dim, np, slabs, p, LocRows(dim, np, p), g);
  }

  /** The row rank r receives from below is global row
      g = GlobStart(r) + loc: the next rank's first interior row; on the
      last rank, which receives nothing, its own row loc+1 is global row
      D + 1. */
  lemma NextRowIsGlobal(dim: nat, np: nat, slabs: seq<seq<real>>, r: nat, g: nat)
    requires SlabsFit(dim, np, slabs) && r < np && g == GlobStart(dim, np, r) + LocRows(dim, np, r)
    ensures g <= dim + 1
    ensures GlobalRow(dim, np, slabs, g) ==
      if r < np - 1 then Row(slabs[r + 1], LocRows(dim, np, r + 1) + 2, 1, dim + 2)
      else Row(slabs[r], LocRows(dim, np, r) + 2, LocRows(dim, np, r) + 1, dim + 2)
  {
    EndInGrid(dim, np, r);
    if r < np - 1 {
      RowBelow(dim, np, slabs, r, r + 1, g);
    } else {
      BottomRow(dim, np, slabs, r, g);
    }
  }

  /** On the last rank the row below the band is global row D + 1, its own
      row loc + 1. */
  lemma BottomRow(dim: nat, np: nat, slabs: seq<seq<real>>, r: nat, g: nat)
    requires SlabsFit(dim, np, slabs) && r + 1 == np && g == GlobStart(dim, np, r) + LocRows(dim, np, r)
    ensures g == dim + 1
    ensures GlobalRow(dim, np, slabs, g) == Row(slabs[r], LocRows(dim, np, r) + 2, LocRows(dim, np, r) + 1, dim + 2)
  {
    Coverage(dim, np);
  }

  /** The row just below rank r's band is rank q's first interior row. */
  lemma RowBelow(dim: nat, np: nat, slabs: seq<seq<real>>, r: nat, q: nat, g: nat)
    requires SlabsFit(dim, np, slabs) && q < np && q == r + 1 && g == GlobStart(dim, np, r) + LocRows(dim, np, r)
    ensures 1 <= g <= dim
    ensures GlobalRow(dim, np, slabs, g) == Row(slabs[q], LocRows(dim, np, q) + 2, 1, dim + 2)
  {
    Contiguous(dim, np, r);
    LocRowsPositive(dim, np, q);
    InteriorRowIsGlobal(dim, np, slabs, q, 1, g);
  }

  /** After the exchange, ghost row 0 of rank r is global row
      g = GlobStart(r) - 1. */
  lemma TopGhostIsGlobal(dim: nat, np: nat, slabs: seq<seq<real>>, r: nat, g: nat)
    requires SlabsFit(dim, np, slabs) && r < np && g == GlobStart(dim, np, r) - 1
    ensures g <= dim
    ensures Row(ExchangeRank(dim, np, slabs, r), LocRows(dim, np, r) + 2, 0, dim + 2) == GlobalRow(dim, np, slabs, g)
  {
    ExchangeTopGhost(dim, np, slabs, r);
    PrevRowIsGlobal(dim, np, slabs, r, g);
  }

  /** After the exchange, ghost row loc+1 of rank r is global row
      g = GlobStart(r) + loc. */
  lemma BottomGhostIsGlobal(dim: nat, np: nat, slabs: seq<seq<real>>, r: nat, g: nat)
    requires SlabsFit(dim, np, slabs) && r < np && g == GlobStart(dim, np, r) + LocRows(dim, np, r)
    ensures g <= dim + 1
    ensures Row(ExchangeRank(dim, np, slabs, r), LocRows(dim, np, r) + 2, LocRows(dim, np, r) + 1, dim + 2) ==
      GlobalRow(dim, np, slabs, g)
  {
    ExchangeBottomGhost(dim, np, slabs, r);
    NextRowIsGlobal(dim, np, slabs, r, g);
  }

  /** After the exchange, every row i of rank r's buffer, ghost rows
      included, is global row g = GlobStart(r) - 1 + i. */
  lemma ExchangedRowIsGlobal(dim: nat, np: nat, slabs: seq<seq<real>>, r: nat, i: nat, g: nat)
    requires SlabsFit(dim, np, slabs) && r < np && i <= LocRows(dim, np, r) + 1
    requires g == GlobStart(dim, np, r) - 1 + i
    ensures g <= dim + 1
    ensures Row(ExchangeRank(dim, np, slabs, r), LocRows(dim, np, r) + 2, i, dim + 2) == GlobalRow(dim, np, slabs, g)
  {
    if i == 0 {
      TopGhostIsGlobal(dim, np, slabs, r, g);
    } else if i == LocRows(dim, np, r) + 1 {
      BottomGhostIsGlobal(dim, np, slabs, r, g);
    } else {
      ExchangeKeepsInteriorRow(dim, np, slabs, r, i);
      InteriorRowIsGlobal(dim, np, slabs, r, i, g);
    }
  }

  /** Rank r's current buffer after one iteration of all ranks is the
      stencil applied to its exchanged buffer. */
  lemma NewCurrent(dim: nat, np: nat, st: seq<Slab>, r: nat)
    requires SystemFits(dim, np, st) && r < np
    ensures Currents(dim, np, SystemStep(dim, np, st))[r] ==
      EvolveSpec(ExchangeRank(dim, np, Currents(dim, np, st), r), st[r].nxt, 1, LocRows(dim, np, r) + 1, dim)
  {
    StepAt(dim, np, st, r);
  }

  /** In the exchanged buffer, `evolve(1, loc+1)` writes the average of the four
      neighbours into cell (i, j). */
  lemma EvolvedAt(ex: seq<real>, nxt: seq<real>, loc: nat, dim: nat, i: nat, j: nat)
    requires |ex| == RowBase(loc + 2, dim + 2) && |nxt| == |ex|
    requires 1 <= i <= loc && 1 <= j <= dim
    ensures dim + 2 <= RowBase(i, dim + 2) + j && RowBase(i, dim + 2) + j + dim + 2 < |ex|
    ensures EvolveSpec(ex, nxt, 1, loc + 1, dim)[RowBase(i, dim + 2) + j] ==
      Average(ex, RowBase(i, dim + 2) + j, dim + 2)
  {
    var w := dim + 2;
    var k := RowBase(i, w) + j;
    RowBaseLe(i + 2, loc + 2, w);
    Decode(i, j, w);
    assert InRange(k, 1, loc + 1, dim);
  }

  /** Cell (i, j) of the stencil's result, for an interior row and column,
      is the average of the cells above, right, below and left of it. */
  lemma EvolvedCell(ex: seq<real>, nxt: seq<real>, loc: nat, dim: nat, ip: nat, i: nat, iq: nat, j: nat)
    requires |ex| == RowBase(loc + 2, dim + 2) && |nxt| == |ex|
    requires 1 <= i <= loc && ip + 1 == i && iq == i + 1 && 1 <= j <= dim
    ensures Row(EvolveSpec(ex, nxt, 1, loc + 1, dim), loc + 2, i, dim + 2)[j] == 0.25 *
      (Row(ex, loc + 2, ip, dim + 2)[j] + Row(ex, loc + 2, i, dim + 2)[j + 1] +
       Row(ex, loc + 2, iq, dim + 2)[j] + Row(ex, loc + 2, i, dim + 2)[j - 1])
  {
    var w := dim + 2;
    var e := EvolveSpec(ex, nxt, 1, loc + 1, dim);
    assert RowBase(i, w) == RowBase(ip, w) + w && RowBase(iq, w) == RowBase(i, w) + w;
    EvolvedAt(ex, nxt, loc, dim, i, j);
    RowCell(e, loc + 2, i, w, j);
    RowCell(ex, loc + 2, ip, w, j);
    RowCell(ex, loc + 2, iq, w, j);
    RowCell(ex, loc + 2, i, w, j + 1);
    RowCell(ex, loc + 2, i, w, j - 1);
  }

  /** Row i of ex, a buffer of rank r, is global row GlobStart(r) - 1 + i. */
  predicate RowIsGlobal(dim: nat, np: nat, slabs: seq<seq<real>>, r: nat, ex: seq<real>, i: nat)
    requires SlabsFit(dim, np, slabs) && r < np
    requires |ex| == BufferSize(dim, np, r) && i <= LocRows(dim, np, r) + 1
  {
    EndInGrid(dim, np, r);
    Row(ex, LocRows(dim, np, r) + 2, i, dim + 2) == GlobalRow(dim, np, slabs, GlobStart(dim, np, r) - 1 + i)
  }

  /** ex is a window onto the global grid: every row of it, ghost rows
      included, is the global row at its position. */
  predicate IsWindow(dim: nat, np: nat, slabs: seq<seq<real>>, r: nat, ex: seq<real>)
    requires SlabsFit(dim, np, slabs) && r < np
  {
    |ex| == BufferSize(dim, np, r) &&
    forall i :: 0 <= i <= LocRows(dim, np, r) + 1 ==> RowIsGlobal(dim, np, slabs, r, ex, i)
  }

  /** The exchanged buffer of every rank is a window onto the global grid. */
  lemma ExchangedIsWindow(dim: nat, np: nat, slabs: seq<seq<real>>, r: nat)
    requires SlabsFit(dim, np, slabs) && r < np
    ensures IsWindow(dim, np, slabs, r, ExchangeRank(dim, np, slabs, r))
  {
    forall i | 0 <= i <= LocRows(dim, np, r) + 1
      ensures RowIsGlobal(dim, np, slabs, r, ExchangeRank(dim, np, slabs, r), i)
    {
      var g := GlobStart(dim, np, r) - 1 + i;
      ExchangedRowIsGlobal(dim, np, slabs, r, i, g);
    }
  }

  /** Row i of a window is global row g = GlobStart(r) - 1 + i. */
  lemma WindowRow(dim: nat, np: nat, slabs: seq<seq<real>>, r: nat, ex: seq<real>, i: nat, g: nat)
    requires SlabsFit(dim, np, slabs) && r < np && IsWindow(dim, np, slabs, r, ex)
    requires i <= LocRows(dim, np, r) + 1 && g == GlobStart(dim, np, r) - 1 + i
    ensures g <= dim + 1
    ensures Row(ex, LocRows(dim, np, r) + 2, i, dim + 2) == GlobalRow(dim, np, slabs, g)
  {
    EndInGrid(dim, np, r);
    assert RowIsGlobal(dim, np, slabs, r, ex, i);
  }

  /** A buffer that is the stencil over a window holds, at local row i and
      column j, the Jacobi average around global cell (g, j), where
      g = GlobStart(r) - 1 + i. */
  lemma WindowStep(dim: nat, np: nat, slabs: seq<seq<real>>, r: nat, ex: seq<real>, nxt: seq<real>, next: seq<real>, g: nat, i: nat, j: nat)
    requires SlabsFit(dim, np, slabs) && r < np && IsWindow(dim, np, slabs, r, ex) && |nxt| == |ex|
    requires next == EvolveSpec(ex, nxt, 1, LocRows(dim, np, r) + 1, dim)
    requires 1 <= i <= LocRows(dim, np, r) && 1 <= j <= dim && g == GlobStart(dim, np, r) - 1 + i
    ensures 1 <= g <= dim
    ensures Row(next, LocRows(dim, np, r) + 2, i, dim + 2)[j] == 0.25 *
      (GlobalRow(dim, np, slabs, g - 1)[j] + GlobalRow(dim, np, slabs, g)[j + 1] +
       GlobalRow(dim, np, slabs, g + 1)[j] + GlobalRow(dim, np, slabs, g)[j - 1])
  {
    var ip, iq, gp, gq := i - 1, i + 1, g - 1, g + 1;
    EndInGrid(dim, np, r);
    EvolvedCell(ex, nxt, LocRows(dim, np, r), dim, ip, i, iq, j);
    WindowRow(dim, np, slabs, r, ex, ip, gp);
    WindowRow(dim, np, slabs, r, ex, i, g);
    WindowRow(dim, np, slabs, r, ex, iq, gq);
  }

  /** If the buffer in `next` of the rank r that owns global row g is the
      stencil over r's exchanged buffer in st, then cell (g, j) of the grid
      `next` assembles is the Jacobi average of the grid st assembles. */
  lemma StencilIsGlobalJacobi(dim: nat, np: nat, st: seq<Slab>, next: seq<seq<real>>, g: nat, j: nat, r: nat)
    requires SystemFits(dim, np, st) && SlabsFit(dim, np, next)
    requires 1 <= g <= dim && 1 <= j <= dim && r == Owner(dim, np, g)
    requires next[r] == EvolveSpec(ExchangeRank(dim, np, Currents(dim, np, st), r), st[r].nxt, 1, LocRows(dim, np, r) + 1, dim)
    ensures var c := Currents(dim, np, st);
      GlobalRow(dim, np, next, g)[j] == 0.25 *
        (GlobalRow(dim, np, c, g - 1)[j] + GlobalRow(dim, np, c, g)[j + 1] +
         GlobalRow(dim, np, c, g + 1)[j] + GlobalRow(dim, np, c, g)[j - 1])
  {
    var c := Currents(dim, np, st);
    var i := g - GlobStart(dim, np, r) + 1;
    var ex, nx, nr := ExchangeRank(dim, np, c, r), st[r].nxt, next[r];
    OwnedRow(dim, np, next, g, r, i);
    ExchangedIsWindow(dim, np, c, r);
    WindowStep(dim, np, c, r, ex, nx, nr, g, i, j);
  }

  /** One iteration of all ranks is one Jacobi sweep of the global grid:
      every interior cell (g, j), 1 <= g, j <= D, of the grid assembled from
      the new buffers is the average of its four neighbours in the grid
      assembled from the old ones. */
  lemma SweepIsGlobalJacobi(dim: nat, np: nat, st: seq<Slab>, g: nat, j: nat)
    requires SystemFits(dim, np, st) && 1 <= g <= dim && 1 <= j <= dim
    ensures var c, c' := Currents(dim, np, st), Currents(dim, np, SystemStep(dim, np, st));
      GlobalRow(dim, np, c', g)[j] == 0.25 *
        (GlobalRow(dim, np, c, g - 1)[j] + GlobalRow(dim, np, c, g)[j + 1] +
         GlobalRow(dim, np, c, g + 1)[j] + GlobalRow(dim, np, c, g)[j - 1])
  {
    var next, r := Currents(dim, np, SystemStep(dim, np, st)), Owner(dim, np, g);
    NewCurrent(dim, np, st, r);
    StencilIsGlobalJacobi(dim, np, st, next, g, j, r);
  }

  /** Interior global row g is row i = g - GlobStart(r) + 1 of the buffer
      of its owner r. */
  lemma OwnedRow(dim: nat, np: nat, slabs: seq<seq<real>>, g: nat, r: nat, i: nat)
    requires SlabsFit(dim, np, slabs) && 1 <= g <= dim
    requires r == Owner(dim, np, g) && i == g - GlobStart(dim, np, r) + 1
    ensures 1 <= i <= LocRows(dim, np, r)
    ensures GlobalRow(dim, np, slabs, g) == Row(slabs[r], LocRows(dim, np, r) + 2, i, dim + 2)
  {
  }
}
