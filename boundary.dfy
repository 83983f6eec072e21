/** Dirichlet boundary values of a rank's slab. Every boundary value in the
    program is an integer multiple k of `increment = 100/(D+1)`. Cell values
    in this model are exact reals measured in units of `increment`: the
    boundary value k * increment is the real k, and the initial guess 0.5 is
    0.5 / increment = (D+1)/200. The stencil is linear and homogeneous
    (Stencil.EvolveScales), so the change of unit commutes with it. */
module Boundary {
  import opened FlatIndex
  import opened Partition


  /** `increment`, the step of the linear boundary ramp. */
  function Increment(dim: nat): real { 100.0 / ((dim + 1) as real) }

  /** The boundary value with coefficient k, k * increment, in units of
      `increment`. */
  function Ramp(k: nat): real { k as real }

  /** The initial guess 0.5, in units of `increment`. */
  function InitialGuess(dim: nat): (g: real)
    ensures g * Increment(dim) == 0.5
  {
    var d := (dim + 1) as real;
    calc {
      (d / 200.0) * Increment(dim);
      (d * 100.0) / (200.0 * d);
      0.5;
    }
    d / 200.0
  }

  /** Coefficient written into column 0 of local row i by the left-boundary
      loop: `i + rank*loc + offset`, with `rank*loc` written RowBase. It is
      the global row number of that row, so the ramp climbs by one step per
      global row. */
  function LeftCoef(dim: nat, np: nat, r: nat, i: nat): (c: nat)
    requires np > 0 && r < np
    ensures c == GlobStart(dim, np, r) - 1 + i
  {
    i + RowBase(r, LocRows(dim, np, r)) + Offset(dim, np, r)
  }

  /** Coefficient a non-last rank writes into column 0 of its bottom ghost
      row: `1 + (rank+1)*loc + offset`. This separately written formula is
      the left-column formula at row loc+1. */
  function BottomGhostCoef(dim: nat, np: nat, r: nat): (c: nat)
    requires np > 0 && r < np
    ensures c == LeftCoef(dim, np, r, LocRows(dim, np, r) + 1)
  {
    1 + RowBase(r + 1, LocRows(dim, np, r)) + Offset(dim, np, r)
  }

  /** Coefficient a non-first rank writes into column 0 of its top ghost
      row: `loc + (rank-1)*loc + offset`. This separately written formula is
      the left-column formula at row 0. */
  function TopGhostCoef(dim: nat, np: nat, r: nat): (c: nat)
    requires np > 0 && 0 < r < np
    ensures c == LeftCoef(dim, np, r, 0)
  {
    LocRows(dim, np, r) + RowBase(r - 1, LocRows(dim, np, r)) + Offset(dim, np, r)
  }

  /** Coefficient of column j of the global bottom row: `D + 1 - j`. It
      falls from D + 1 at the corner column 0 to 1 at column D. */
  function BottomRowCoef(dim: nat, j: nat): (c: nat)
    requires j <= dim
    ensures 1 <= c <= dim + 1
    ensures j == 0 ==> c == dim + 1
    ensures j == dim ==> c == 1
  {
    dim + 1 - j
  }

  /** Partitioning introduces no discontinuity: a rank's top ghost
      coefficient is the coefficient its predecessor computes for its last
      interior row, and its predecessor's bottom ghost coefficient is the
      one it computes for its first interior row. */
  lemma NoDiscontinuity(dim: nat, np: nat, r: nat)
    requires np > 0 && 0 < r < np
    ensures TopGhostCoef(dim, np, r) == LeftCoef(dim, np, r - 1, LocRows(dim, np, r - 1))
    ensures BottomGhostCoef(dim, np, r - 1) == LeftCoef(dim, np, r, 1)
  {
    Contiguous(dim, np, r - 1);
  }

  /** At the corners the ramp meets the top and bottom rows: rank 0's row 0
      has coefficient 0 and the last rank's row loc+1 has D + 1, the bottom
      row's value at column 0. */
  lemma RampMeetsCorners(dim: nat, np: nat)
    requires np > 0
    ensures LeftCoef(dim, np, 0, 0) == 0
    ensures LeftCoef(dim, np, np - 1, LocRows(dim, np, np - 1) + 1) == BottomRowCoef(dim, 0)
  {
    Coverage(dim, np);
  }

  /** Value of cell (i, j) of rank r's buffer after initialisation, as the
      last write of the initialisation code leaves it. `isMatrix` selects
      `matrix` (whose interior gets 0.5) over `matrix_new` (left at 0). */
  function InitCell(dim: nat, np: nat, r: nat, i: nat, j: nat, isMatrix: bool): real
    requires np > 0 && r < np
  {
    var loc := LocRows(dim, np, r);
    if r == 0 && i == 0 then 0.0
    else if r == np - 1 && i == loc + 1 && j <= dim then Ramp(BottomRowCoef(dim, j))
    else if j == 0 && i == 0 then Ramp(TopGhostCoef(dim, np, r))
    else if j == 0 && i == loc + 1 then Ramp(BottomGhostCoef(dim, np, r))
    else if j == 0 && i <= loc then Ramp(LeftCoef(dim, np, r, i))
    else if 1 <= j <= dim && i <= loc + 1 && isMatrix then InitialGuess(dim)
    else 0.0
  }

  /** Number of cells of rank r's buffer: (loc+2) rows of D+2 cells. */
  function BufferSize(dim: nat, np: nat, r: nat): nat
    requires np > 0 && r < np
  {
    RowBase(LocRows(dim, np, r) + 2, dim + 2)
  }

  /** The whole initial buffer, in flat row-major order. */
  function InitBuffer(dim: nat, np: nat, r: nat, isMatrix: bool): (s: seq<real>)
    requires np > 0 && r < np
    ensures |s| == BufferSize(dim, np, r)
  {
    seq(BufferSize(dim, np, r), k requires 0 <= k =>
      InitCell(dim, np, r, RowOf(k, (dim + 2)), ColOf(k, (dim + 2)), isMatrix))
  }

  /** The cells that neither the stencil nor the halo exchange may change:
      columns 0 and D+1, rank 0's top row and the last rank's bottom row. */
  predicate FixedCell(dim: nat, np: nat, r: nat, i: nat, j: nat)
    requires np > 0 && r < np
  {
    j == 0 || j == dim + 1 || (r == 0 && i == 0) || (r == np - 1 && i == LocRows(dim, np, r) + 1)
  }

  /** The value a fixed cell must hold, stated by global position: 0 on the
      top row and the right column, D + 1 - j on the bottom row, and the
      global row number on the left column. */
  function FixedValue(dim: nat, np: nat, r: nat, i: nat, j: nat): real
    requires np > 0 && r < np && j <= dim + 1
  {
    if j == dim + 1 || (r == 0 && i == 0) then 0.0
    else if r == np - 1 && i == LocRows(dim, np, r) + 1 then Ramp(dim + 1 - j)
    else Ramp(GlobStart(dim, np, r) - 1 + i)
  }

  /** After initialisation every fixed cell holds its fixed value, in
      `matrix` and `matrix_new` alike, so the two buffers agree on them;
      the other cells hold the initial guess 0.5 in `matrix` and 0 in
      `matrix_new`. */
  lemma InitFixedCells(dim: nat, np: nat, r: nat, i: nat, j: nat, isMatrix: bool)
    requires np > 0 && r < np
    requires i <= LocRows(dim, np, r) + 1 && j <= dim + 1
    ensures FixedCell(dim, np, r, i, j) ==> InitCell(dim, np, r, i, j, isMatrix) == FixedValue(dim, np, r, i, j)
    ensures !FixedCell(dim, np, r, i, j) ==> InitCell(dim, np, r, i, j, isMatrix) == if isMatrix then InitialGuess(dim) else 0.0
  {
    var loc := LocRows(dim, np, r);
    if r == 0 && i == 0 {
    } else if r == np - 1 && i == loc + 1 && j <= dim {
    } else if j == 0 && i == 0 {
    } else if j == 0 && i == loc + 1 {
    } else if j == 0 {
    }
  }

  /** A buffer of rank r whose fixed cells hold their fixed values. */
  predicate BoundaryHolds(dim: nat, np: nat, r: nat, s: seq<real>)
    requires np > 0 && r < np
  {
    |s| == BufferSize(dim, np, r) &&
    forall k :: 0 <= k < |s| ==> CellKept(dim, np, r, s, k)
  }

  /** Cell k of rank r's buffer s holds its fixed value, if it is a fixed
      cell. */
  predicate CellKept(dim: nat, np: nat, r: nat, s: seq<real>, k: nat)
    requires np > 0 && r < np && k < |s|
  {
    FixedCell(dim, np, r, RowOf(k, (dim + 2)), ColOf(k, (dim + 2))) ==>
      s[k] == FixedValue(dim, np, r, RowOf(k, (dim + 2)), ColOf(k, (dim + 2)))
  }

  /** Both initial buffers of every rank satisfy the boundary invariant. */
  lemma InitBoundaryHolds(dim: nat, np: nat, r: nat, isMatrix: bool)
    requires np > 0 && r < np
    ensures BoundaryHolds(dim, np, r, InitBuffer(dim, np, r, isMatrix))
  {
    var s := InitBuffer(dim, np, r, isMatrix);
    var w := dim + 2;
    forall k | 0 <= k < |s| ensures CellKept(dim, np, r, s, k) {
      if FixedCell(dim, np, r, RowOf(k, w), ColOf(k, w)) {
        RowBound(k, w, LocRows(dim, np, r) + 2);
        InitFixedCells(dim, np, r, RowOf(k, w), ColOf(k, w), isMatrix);
      }
    }
  }
}
