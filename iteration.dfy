/** The iteration loop of `main`: per iteration, the blocking exchange, the
    three `evolve` calls and the pointer swap. One rank's loop is a method
    on its two arrays; all ranks together are a pure function on the
    sequence of their buffers, in which every rank receives what its
    neighbours send. */
module Iteration {
  import opened FlatIndex
  import opened Partition
  import opened Boundary
  import opened Stencil
  import opened Halo
  import opened SlabInit

  /** The two buffers of one rank: `cur` is what `matrix` points at, `nxt`
      what `matrix_new` points at. */
  datatype Slab = Slab(cur: seq<real>, nxt: seq<real>)

  /** The rows a rank receives in one exchange; `None` where the neighbour
      is `MPI_PROC_NULL`. */
  datatype Incoming = Incoming(fromPrev: Option<seq<real>>, fromNext: Option<seq<real>>)

  /** Both buffers have loc+2 rows of D+2 cells. */
  predicate SlabFits(s: Slab, loc: nat, dim: nat) {
    |s.cur| == RowBase(loc + 2, dim + 2) && |s.nxt| == |s.cur|
  }

  /** Every received row is one row of D+2 cells. */
  predicate IncomingFits(h: Incoming, dim: nat) {
    (h.fromPrev.Some? ==> |h.fromPrev.value| == dim + 2) &&
    (h.fromNext.Some? ==> |h.fromNext.value| == dim + 2)
  }

  /** One iteration of one rank: the exchange fills the ghost rows of
      `matrix`, the stencil writes rows 1 .. loc of `matrix_new`, and the
      swap makes `matrix_new` current. */
  function RankStep(s: Slab, loc: nat, dim: nat, h: Incoming): (r: Slab)
    requires SlabFits(s, loc, dim) && IncomingFits(h, dim)
    ensures SlabFits(r, loc, dim)
  {
    var exchanged := ApplyHalo(s.cur, loc, dim, h.fromPrev, h.fromNext);
    Slab(EvolveSpec(exchanged, s.nxt, 1, loc + 1, dim), exchanged)
  }

  /** The buffers after one RankStep per element of `hs`, in order. */
  function RankRun(s: Slab, loc: nat, dim: nat, hs: seq<Incoming>): (r: Slab)
    requires SlabFits(s, loc, dim) && forall t :: 0 <= t < |hs| ==> IncomingFits(hs[t], dim)
    ensures SlabFits(r, loc, dim)
  {
    if |hs| == 0 then s
    else RankStep(RankRun(s, loc, dim, hs[..|hs| - 1]), loc, dim, hs[|hs| - 1])
  }

  /** The three `evolve` calls of one iteration. Together they leave
      `matrix_new` as one sweep over all interior rows 1 .. loc. */
  method EvolveAll(matrix: array<real>, matrixNew: array<real>, loc: nat, dim: nat)
    requires matrix != matrixNew && 1 <= loc
    requires matrix.Length == RowBase(loc + 2, dim + 2) && matrixNew.Length == matrix.Length
    modifies matrixNew
    ensures matrixNew[..] == EvolveSpec(matrix[..], old(matrixNew[..]), 1, loc + 1, dim)
  {
    ghost var before := matrixNew[..];
    SplitEquivalence(matrix[..], before, loc, dim);
    Evolve(matrix, matrixNew, 2, loc, dim);
    Evolve(matrix, matrixNew, loc, loc + 1, dim);
    Evolve(matrix, matrixNew, 1, 2, dim);
  }

  /** `iterations = |hs|` iterations of one rank, starting from the arrays
      m0 (`matrix`) and n0 (`matrix_new`); hs[t] holds the rows the
      neighbours send in iteration t. The results are the final `matrix`
      and `matrix_new` pointers: the same two arrays, swapped once per
      iteration and never copied, holding what RankRun describes. */
  method Iterate(m0: array<real>, n0: array<real>, loc: nat, dim: nat, hs: seq<Incoming>)
    returns (matrix: array<real>, matrixNew: array<real>)
    requires m0 != n0 && 1 <= loc
    requires m0.Length == RowBase(loc + 2, dim + 2) && n0.Length == m0.Length
    requires forall t :: 0 <= t < |hs| ==> IncomingFits(hs[t], dim)
    modifies m0, n0
    ensures matrix == (if |hs| % 2 == 0 then m0 else n0)
    ensures matrixNew == (if |hs| % 2 == 0 then n0 else m0)
    ensures Slab(matrix[..], matrixNew[..]) == RankRun(Slab(old(m0[..]), old(n0[..])), loc, dim, hs)
  {
    ghost var s0 := Slab(m0[..], n0[..]);
    matrix, matrixNew := m0, n0;
    var it := 0;
    while it < |hs|
      invariant it <= |hs|
      invariant matrix == (if it % 2 == 0 then m0 else n0)
      invariant matrixNew == (if it % 2 == 0 then n0 else m0)
      invariant Slab(matrix[..], matrixNew[..]) == RankRun(s0, loc, dim, hs[..it])
    {
      var toPrev, toNext := ExchangeBorders(matrix, loc, dim, hs[it].fromPrev, hs[it].fromNext);
      EvolveAll(matrix, matrixNew, loc, dim);
      matrix, matrixNew := matrixNew, matrix;
      assert hs[..it + 1][..it] == hs[..it];
      it := it + 1;
    }
    assert hs[..it] == hs;
  }

  /** The buffers of all ranks, rank r's of its own size. */
  predicate SystemFits(dim: nat, np: nat, st: seq<Slab>) {
    0 < np <= dim && |st| == np &&
    forall r :: 0 <= r < np ==> SlabFits(st[r], LocRows(dim, np, r), dim)
  }

  /** The current buffer of every rank. */
  function Currents(dim: nat, np: nat, st: seq<Slab>): (c: seq<seq<real>>)
    requires SystemFits(dim, np, st)
    ensures SlabsFit(dim, np, c)
    ensures forall r :: 0 <= r < np ==> c[r] == st[r].cur
  {
    seq(np, r requires 0 <= r < np => st[r].cur)
  }

  /** What rank r receives in an iteration that starts in state st: its
      neighbours' boundary interior rows. */
  function Received(dim: nat, np: nat, st: seq<Slab>, r: nat): (h: Incoming)
    requires SystemFits(dim, np, st) && r < np
    ensures IncomingFits(h, dim)
  {
    Incoming(FromPrev(dim, np, Currents(dim, np, st), r), FromNext(dim, np, Currents(dim, np, st), r))
  }

  /** One iteration of all ranks together. */
  function SystemStep(dim: nat, np: nat, st: seq<Slab>): (st': seq<Slab>)
    requires SystemFits(dim, np, st)
    ensures SystemFits(dim, np, st')
  {
    seq(np, r requires 0 <= r < np => RankStep(st[r], LocRows(dim, np, r), dim, Received(dim, np, st, r)))
  }

  /** n iterations of all ranks. */
  function SystemRun(dim: nat, np: nat, st: seq<Slab>, n: nat): (st': seq<Slab>)
    requires SystemFits(dim, np, st)
    ensures SystemFits(dim, np, st')
    decreases n
  {
    if n == 0 then st else SystemStep(dim, np, SystemRun(dim, np, st, n - 1))
  }

  /** The buffers of every rank after initialisation. */
  function InitState(dim: nat, np: nat): (st: seq<Slab>)
    requires 0 < np <= dim
    ensures SystemFits(dim, np, st)
  {
    seq(np, r requires 0 <= r < np => Slab(InitBuffer(dim, np, r, true), InitBuffer(dim, np, r, false)))
  }

  /** Both buffers of rank r hold the fixed values in their fixed cells. */
  predicate RankKept(dim: nat, np: nat, st: seq<Slab>, r: nat)
    requires SystemFits(dim, np, st) && r < np
  {
    BoundaryHolds(dim, np, r, st[r].cur) && BoundaryHolds(dim, np, r, st[r].nxt)
  }

  /** Every rank keeps its fixed cells. */
  predicate BoundaryKept(dim: nat, np: nat, st: seq<Slab>)
    requires SystemFits(dim, np, st)
  {
    forall r :: 0 <= r < np ==> RankKept(dim, np, st, r)
  }

  /** The stencil over rows 1 .. loc never writes a fixed cell. */
  lemma EvolveKeepsBoundary(dim: nat, np: nat, r: nat, cur: seq<real>, nxt: seq<real>)
    requires np > 0 && r < np && |cur| == |nxt|
    requires BoundaryHolds(dim, np, r, nxt)
    ensures RangeFits(1, LocRows(dim, np, r) + 1, dim, |cur|)
    ensures BoundaryHolds(dim, np, r, EvolveSpec(cur, nxt, 1, LocRows(dim, np, r) + 1, dim))
  {
    var e := EvolveSpec(cur, nxt, 1, LocRows(dim, np, r) + 1, dim);
    forall k | 0 <= k < |e| ensures CellKept(dim, np, r, e, k) {
      assert CellKept(dim, np, r, nxt, k);
    }
  }

  /** One iteration of all ranks keeps the boundary invariant. */
  lemma SystemStepKeepsBoundary(dim: nat, np: nat, st: seq<Slab>)
    requires SystemFits(dim, np, st)
    ensures BoundaryKept(dim, np, st) ==> BoundaryKept(dim, np, SystemStep(dim, np, st))
  {
    if BoundaryKept(dim, np, st) {
      var st' := SystemStep(dim, np, st);
      forall r | 0 <= r < np
        ensures RankKept(dim, np, st', r)
      {
        RankStepKeepsBoundary(dim, np, st, r);
        assert st'[r] == RankStep(st[r], LocRows(dim, np, r), dim, Received(dim, np, st, r));
      }
    }
  }

  /** Rank r's exchange and stencil, fed by neighbours that keep their
      fixed cells, keep rank r's fixed cells in both buffers. */
  lemma RankStepKeepsBoundary(dim: nat, np: nat, st: seq<Slab>, r: nat)
    requires SystemFits(dim, np, st) && BoundaryKept(dim, np, st) && r < np
    ensures var s := RankStep(st[r], LocRows(dim, np, r), dim, Received(dim, np, st, r));
      BoundaryHolds(dim, np, r, s.cur) && BoundaryHolds(dim, np, r, s.nxt)
  {
    var c, loc := Currents(dim, np, st), LocRows(dim, np, r);
    forall q | 0 <= q < np ensures BoundaryHolds(dim, np, q, c[q]) {
      assert RankKept(dim, np, st, q);
    }
    assert RankKept(dim, np, st, r);
    ExchangeKeepsBoundary(dim, np, c, r);
    var ex := ExchangeRank(dim, np, c, r);
    assert ex == ApplyHalo(st[r].cur, loc, dim, Received(dim, np, st, r).fromPrev, Received(dim, np, st, r).fromNext);
    EvolveKeepsBoundary(dim, np, r, ex, st[r].nxt);
  }

  /** Every iteration keeps each rank's fixed cells, so a state that holds
      them holds them after any number of iterations. */
  lemma RunKeepsBoundary(dim: nat, np: nat, st: seq<Slab>, n: nat)
    requires SystemFits(dim, np, st) && BoundaryKept(dim, np, st)
    ensures BoundaryKept(dim, np, SystemRun(dim, np, st, n))
  {
    var k := 0;
    while k < n
      invariant k <= n && BoundaryKept(dim, np, SystemRun(dim, np, st, k))
    {
      LastStepKeepsBoundary(dim, np, st, k, k + 1);
      k := k + 1;
    }
  }

  /** The induction step of RunKeepsBoundary: iteration n = m + 1 keeps
      the fixed cells the first m kept. */
  lemma LastStepKeepsBoundary(dim: nat, np: nat, st: seq<Slab>, m: nat, n: nat)
    requires SystemFits(dim, np, st) && n == m + 1 && BoundaryKept(dim, np, SystemRun(dim, np, st, m))
    ensures BoundaryKept(dim, np, SystemRun(dim, np, st, n))
  {
    RunSplit(dim, np, st, m, n);
    SystemStepKeepsBoundary(dim, np, SystemRun(dim, np, st, m));
  }

  /** Both initial buffers of every rank satisfy the boundary invariant. */
  lemma InitKeepsBoundary(dim: nat, np: nat)
    requires 0 < np <= dim
    ensures BoundaryKept(dim, np, InitState(dim, np))
  {
    var st := InitState(dim, np);
    forall r | 0 <= r < np
      ensures RankKept(dim, np, st, r)
    {
      InitBoundaryHolds(dim, np, r, true);
      InitBoundaryHolds(dim, np, r, false);
    }
  }

  /** A buffer satisfying the boundary invariant holds the fixed value in
      fixed cell (i, j). */
  lemma FixedCellValue(dim: nat, np: nat, r: nat, s: seq<real>, i: nat, j: nat)
    requires np > 0 && r < np && BoundaryHolds(dim, np, r, s)
    requires i < LocRows(dim, np, r) + 2 && j < dim + 2 && FixedCell(dim, np, r, i, j)
    ensures RowBase(i, dim + 2) + j < |s|
    ensures s[RowBase(i, dim + 2) + j] == FixedValue(dim, np, r, i, j)
  {
    RowBaseLe(i + 1, LocRows(dim, np, r) + 2, dim + 2);
    Decode(i, j, dim + 2);
    assert CellKept(dim, np, r, s, RowBase(i, dim + 2) + j);
  }

  /** After any number of iterations, `matrix` and `matrix_new` of every
      rank agree on every fixed cell, and hold its fixed value there. */
  lemma FixedCellsAgree(dim: nat, np: nat, n: nat, r: nat, i: nat, j: nat)
    requires 0 < np <= dim && r < np
    requires i < LocRows(dim, np, r) + 2 && j < dim + 2 && FixedCell(dim, np, r, i, j)
    ensures RowBase(i, dim + 2) + j < BufferSize(dim, np, r)
    ensures var s := SystemRun(dim, np, InitState(dim, np), n)[r];
      s.cur[RowBase(i, dim + 2) + j] == s.nxt[RowBase(i, dim + 2) + j] == FixedValue(dim, np, r, i, j)
  {
    var s := SystemRun(dim, np, InitState(dim, np), n)[r];
    InitKeepsBoundary(dim, np);
    RunKeepsBoundary(dim, np, InitState(dim, np), n);
    assert RankKept(dim, np, SystemRun(dim, np, InitState(dim, np), n), r);
    FixedCellValue(dim, np, r, s.cur, i, j);
    FixedCellValue(dim, np, r, s.nxt, i, j);
  }

  /** The buffers of a rank in a state that keeps the fixed cells hold the
      fixed values. */
  lemma KeptAt(dim: nat, np: nat, st: seq<Slab>, r: nat, cur: seq<real>, nxt: seq<real>)
    requires SystemFits(dim, np, st) && BoundaryKept(dim, np, st) && r < np && st[r] == Slab(cur, nxt)
    ensures BoundaryHolds(dim, np, r, cur) && BoundaryHolds(dim, np, r, nxt)
  {
    assert RankKept(dim, np, st, r);
  }

  /** The rows rank r receives in each of the first n iterations of all
      ranks from state st: in iteration t, its neighbours' rows in the
      state after t iterations. */
  function Trace(dim: nat, np: nat, st: seq<Slab>, n: nat, r: nat): (hs: seq<Incoming>)
    requires SystemFits(dim, np, st) && r < np
    ensures |hs| == n && forall t :: 0 <= t < n ==> IncomingFits(hs[t], dim)
  {
    seq(n, t requires 0 <= t < n => Received(dim, np, SystemRun(dim, np, st, t), r))
  }

  /** The last element of a trace is what rank r receives in the last
      iteration; the rest is the shorter trace. */
  lemma TraceLast(dim: nat, np: nat, st: seq<Slab>, m: nat, n: nat, r: nat)
    requires SystemFits(dim, np, st) && r < np && n == m + 1
    ensures Trace(dim, np, st, n, r)[..m] == Trace(dim, np, st, m, r)
    ensures Trace(dim, np, st, n, r)[m] == Received(dim, np, SystemRun(dim, np, st, m), r)
  {
    var long, short := Trace(dim, np, st, n, r), Trace(dim, np, st, m, r);
    assert forall t :: 0 <= t < m ==> long[t] == short[t];
  }

  /** A run over a non-empty trace is the run over all but its last
      element, followed by one step with the last element. */
  lemma RankRunSnoc(s: Slab, loc: nat, dim: nat, hs: seq<Incoming>)
    requires SlabFits(s, loc, dim) && forall t :: 0 <= t < |hs| ==> IncomingFits(hs[t], dim)
    requires 0 < |hs|
    ensures RankRun(s, loc, dim, hs) == RankStep(RankRun(s, loc, dim, hs[..|hs| - 1]), loc, dim, hs[|hs| - 1])
  {
  }

  /** Rank r's part of one iteration of all ranks is its own RankStep. */
  lemma StepAt(dim: nat, np: nat, st: seq<Slab>, r: nat)
    requires SystemFits(dim, np, st) && r < np
    ensures SystemStep(dim, np, st)[r] == RankStep(st[r], LocRows(dim, np, r), dim, Received(dim, np, st, r))
  {
  }

  /** n iterations are n - 1 iterations followed by one more. */
  lemma RunSplit(dim: nat, np: nat, st: seq<Slab>, m: nat, n: nat)
    requires SystemFits(dim, np, st) && n == m + 1
    ensures SystemRun(dim, np, st, n) == SystemStep(dim, np, SystemRun(dim, np, st, m))
  {
  }

  /** The induction step of RunIsRankRun: if it holds after n - 1
      iterations, it holds after n. */
  lemma RunStepAt(dim: nat, np: nat, st: seq<Slab>, m: nat, n: nat, r: nat)
    requires SystemFits(dim, np, st) && r < np && n == m + 1
    requires SystemRun(dim, np, st, m)[r] == RankRun(st[r], LocRows(dim, np, r), dim, Trace(dim, np, st, m, r))
    ensures SystemRun(dim, np, st, n)[r] == RankRun(st[r], LocRows(dim, np, r), dim, Trace(dim, np, st, n, r))
  {
    RunSplit(dim, np, st, m, n);
    TraceLast(dim, np, st, m, n, r);
    StepAt(dim, np, SystemRun(dim, np, st, m), r);
    RankRunSnoc(st[r], LocRows(dim, np, r), dim, Trace(dim, np, st, n, r));
  }

  /** Rank r's buffers after n iterations of all ranks are what its own
      loop computes when fed the rows its neighbours actually send. */
  lemma {:induction false} RunIsRankRun(dim: nat, np: nat, st: seq<Slab>, n: nat, r: nat)
    requires SystemFits(dim, np, st) && r < np
    ensures SystemRun(dim, np, st, n)[r] == RankRun(st[r], LocRows(dim, np, r), dim, Trace(dim, np, st, n, r))
    decreases n
  {
    if n > 0 {
      var m := n - 1;
      RunIsRankRun(dim, np, st, m, r);
      RunStepAt(dim, np, st, m, n, r);
    }
  }

  /** `main` on one rank, from the zero-filled buffers to the end of the
      iteration loop: initialisation, then `iterations` iterations in which
      the neighbours send what they hold. The arrays the loop ends with
      hold rank `rank`'s part of SystemRun, and both hold the fixed value
      in every fixed cell, so `matrix` and `matrix_new` agree there. */
  method RunRank(m0: array<real>, n0: array<real>, dim: nat, np: nat, rank: nat, iterations: nat)
    returns (matrix: array<real>, matrixNew: array<real>)
    requires 0 < np <= dim && rank < np && m0 != n0
    requires m0.Length == BufferSize(dim, np, rank) && n0.Length == BufferSize(dim, np, rank)
    requires forall k :: 0 <= k < m0.Length ==> m0[k] == 0.0
    requires forall k :: 0 <= k < n0.Length ==> n0[k] == 0.0
    modifies m0, n0
    ensures Slab(matrix[..], matrixNew[..]) == SystemRun(dim, np, InitState(dim, np), iterations)[rank]
    ensures BoundaryHolds(dim, np, rank, matrix[..]) && BoundaryHolds(dim, np, rank, matrixNew[..])
  {
    var loc := LocRows(dim, np, rank);
    InitSlab(m0, n0, dim, np, rank);
    var st := InitState(dim, np);
    assert st[rank] == Slab(m0[..], n0[..]);
    var hs := Trace(dim, np, st, iterations, rank);
    matrix, matrixNew := Iterate(m0, n0, loc, dim, hs);
    RunIsRankRun(dim, np, st, iterations, rank);
    InitKeepsBoundary(dim, np);
    RunKeepsBoundary(dim, np, st, iterations);
    KeptAt(dim, np, SystemRun(dim, np, st, iterations), rank, matrix[..], matrixNew[..]);
  }
}
