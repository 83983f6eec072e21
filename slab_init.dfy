/** Initialisation of a rank's two slab buffers: the 0.5 initial guess in
    `matrix` and the boundary ramp in both buffers. */
module SlabInit {
  import opened FlatIndex
  import opened Partition
  import opened Boundary

  /** The initialisation code of one rank, run on the zero-filled buffers
      `matrix` and `matrixNew` of (loc+2) * (D+2) cells: the initial guess,
      then the left, bottom and top boundary blocks. Afterwards both buffers
      hold exactly the contents InitBuffer describes. */
  method InitSlab(matrix: array<real>, matrixNew: array<real>, dim: nat, np: nat, rank: nat)
    requires np > 0 && rank < np && matrix != matrixNew
    requires matrix.Length == BufferSize(dim, np, rank) && matrixNew.Length == BufferSize(dim, np, rank)
    requires forall k :: 0 <= k < matrix.Length ==> matrix[k] == 0.0
    requires forall k :: 0 <= k < matrixNew.Length ==> matrixNew[k] == 0.0
    modifies matrix, matrixNew
    ensures matrix[..] == InitBuffer(dim, np, rank, true)
    ensures matrixNew[..] == InitBuffer(dim, np, rank, false)
  {
    FillInitialGuess(matrix, LocRows(dim, np, rank), dim);
    SetLeftColumn(matrix, matrixNew, dim, np, rank);
    SetBottomBoundary(matrix, matrixNew, dim, np, rank);
    SetTopBoundary(matrix, matrixNew, dim, np, rank);
    forall k | 0 <= k < matrix.Length
      ensures matrix[k] == InitBuffer(dim, np, rank, true)[k]
      ensures matrixNew[k] == InitBuffer(dim, np, rank, false)[k]
    {
      InitComposition(dim, np, rank, k, true);
      InitComposition(dim, np, rank, k, false);
    }
  }

  /** The four blocks applied in program order to a zero cell give the
      initial cell value. */
  lemma InitComposition(dim: nat, np: nat, rank: nat, k: nat, isMatrix: bool)
    requires np > 0 && rank < np && k < BufferSize(dim, np, rank)
    ensures var guessed := if isMatrix then GuessCell(dim, k, 0.0) else 0.0;
            TopCell(dim, np, rank, k, BottomCell(dim, np, rank, k, LeftColumnCell(dim, np, rank, k, guessed)))
            == InitCell(dim, np, rank, RowOf(k, dim + 2), ColOf(k, dim + 2), isMatrix)
  {
    var w := dim + 2;
    var loc := LocRows(dim, np, rank);
    var base := RowBase(loc + 1, w);
    RowBound(k, w, loc + 2);
    if k < w {
      Decode(0, k, w);
    } else if k >= base {
      Decode(loc + 1, k - base, w);
    } else {
      RowLowerBound(k, w, 1);
      RowBound(k, w, loc + 1);
    }
  }

  /** The first initialisation loop: the initial guess 0.5 into columns
      1 .. D of every row 0 .. loc+1 of `matrix`; columns 0 and D+1 keep
      their value. */
  method FillInitialGuess(matrix: array<real>, loc: nat, dim: nat)
    requires matrix.Length == RowBase(loc + 2, dim + 2)
    modifies matrix
    ensures forall k :: 0 <= k < matrix.Length ==>
      matrix[k] == GuessCell(dim, k, old(matrix[k]))
  {
    var w := dim + 2;
    var i := 0;
    var row := 0;
    while i <= loc + 1
      invariant i <= loc + 2 && row == RowBase(i, w)
      invariant forall k :: 0 <= k < matrix.Length ==>
        matrix[k] == if k < row then GuessCell(dim, k, old(matrix[k])) else old(matrix[k])
    {
      RowBaseLe(i + 1, loc + 2, w);
      Decode(i, 0, w);
      Decode(i, dim + 1, w);
      var j := 1;
      while j <= dim
        invariant 1 <= j <= dim + 1
        invariant forall k :: 0 <= k < matrix.Length ==>
          matrix[k] == if k < row + j then GuessCell(dim, k, old(matrix[k])) else old(matrix[k])
      {
        Decode(i, j, w);
        matrix[row + j] := InitialGuess(dim);
        j := j + 1;
      }
      i := i + 1;
      row := row + w;
    }
  }

  /** A cell after the initial-guess loop, given its value before. */
  function GuessCell(dim: nat, k: nat, before: real): real {
    if 1 <= ColOf(k, dim + 2) <= dim then InitialGuess(dim) else before
  }

  /** The left-boundary loop: column 0 of rows 0 .. loc of both buffers gets
      the ramp value of LeftCoef. */
  method SetLeftColumn(matrix: array<real>, matrixNew: array<real>, dim: nat, np: nat, rank: nat)
    requires np > 0 && rank < np && matrix != matrixNew
    requires matrix.Length == BufferSize(dim, np, rank) && matrixNew.Length == BufferSize(dim, np, rank)
    modifies matrix, matrixNew
    ensures forall k :: 0 <= k < matrix.Length ==>
      matrix[k] == LeftColumnCell(dim, np, rank, k, old(matrix[k]))
    ensures forall k :: 0 <= k < matrixNew.Length ==>
      matrixNew[k] == LeftColumnCell(dim, np, rank, k, old(matrixNew[k]))
  {
    var w := dim + 2;
    var loc := LocRows(dim, np, rank);
    ghost var m0, n0 := matrix[..], matrixNew[..];
    var i := 0;
    var row := 0;
    while i < loc + 1
      invariant i <= loc + 1 && row == RowBase(i, w)
      invariant forall k :: 0 <= k < matrix.Length ==>
        matrix[k] == if k < row then LeftColumnCell(dim, np, rank, k, m0[k]) else m0[k]
      invariant forall k :: 0 <= k < matrixNew.Length ==>
        matrixNew[k] == if k < row then LeftColumnCell(dim, np, rank, k, n0[k]) else n0[k]
    {
      RowBaseLe(i + 1, loc + 2, w);
      Decode(i, 0, w);
      LeftColumnRowStep(dim, np, rank, i);
      var v := Ramp(LeftCoef(dim, np, rank, i));
      matrix[row] := v;
      matrixNew[row] := v;
      i := i + 1;
      row := row + w;
    }
    forall k | 0 <= k < matrix.Length && row <= k ensures RowOf(k, w) > loc {
      RowLowerBound(k, w, loc + 1);
    }
  }

  /** Within row i only column 0 is a left-column cell. */
  lemma LeftColumnRowStep(dim: nat, np: nat, rank: nat, i: nat)
    requires np > 0 && rank < np
    ensures forall k, before: real :: RowBase(i, dim + 2) < k < RowBase(i, dim + 2) + dim + 2 ==>
      LeftColumnCell(dim, np, rank, k, before) == before
  {
    var w := dim + 2;
    forall k | RowBase(i, w) < k < RowBase(i, w) + w ensures ColOf(k, w) != 0 {
      Decode(i, k - RowBase(i, w), w);
    }
  }

  /** A cell after the left-boundary loop, given its value before. */
  function LeftColumnCell(dim: nat, np: nat, rank: nat, k: nat, before: real): real
    requires np > 0 && rank < np
  {
    var w := dim + 2;
    if ColOf(k, w) == 0 && RowOf(k, w) <= LocRows(dim, np, rank)
    then Ramp(LeftCoef(dim, np, rank, RowOf(k, w)))
    else before
  }

  /** A cell after the bottom-boundary block, given its value before: the
      last rank writes the bottom ramp D+1-j into columns 0 .. D of row
      loc+1; every other rank writes only column 0 of that row. */
  function BottomCell(dim: nat, np: nat, rank: nat, k: nat, before: real): real
    requires np > 0 && rank < np
  {
    var base := RowBase(LocRows(dim, np, rank) + 1, dim + 2);
    if rank == np - 1 && base <= k <= base + dim then Ramp(BottomRowCoef(dim, k - base))
    else if rank != np - 1 && k == base then Ramp(BottomGhostCoef(dim, np, rank))
    else before
  }

  /** The bottom-boundary block, on both buffers. */
  method SetBottomBoundary(matrix: array<real>, matrixNew: array<real>, dim: nat, np: nat, rank: nat)
    requires np > 0 && rank < np && matrix != matrixNew
    requires matrix.Length == BufferSize(dim, np, rank) && matrixNew.Length == BufferSize(dim, np, rank)
    modifies matrix, matrixNew
    ensures forall k :: 0 <= k < matrix.Length ==>
      matrix[k] == BottomCell(dim, np, rank, k, old(matrix[k]))
    ensures forall k :: 0 <= k < matrixNew.Length ==>
      matrixNew[k] == BottomCell(dim, np, rank, k, old(matrixNew[k]))
  {
    var w := dim + 2;
    var loc := LocRows(dim, np, rank);
    var base := RowBase(loc + 1, w);
    assert matrix.Length == base + w;
    if rank == np - 1 {
      ghost var m0, n0 := matrix[..], matrixNew[..];
      var i := 0;
      while i <= dim
        invariant i <= dim + 1
        invariant forall k :: 0 <= k < matrix.Length ==>
          matrix[k] == if base <= k < base + i then Ramp(BottomRowCoef(dim, k - base)) else m0[k]
        invariant forall k :: 0 <= k < matrixNew.Length ==>
          matrixNew[k] == if base <= k < base + i then Ramp(BottomRowCoef(dim, k - base)) else n0[k]
      {
        var v := Ramp(BottomRowCoef(dim, i));
        matrix[base + i] := v;
        matrixNew[base + i] := v;
        i := i + 1;
      }
    } else {
      var v := Ramp(BottomGhostCoef(dim, np, rank));
      matrix[base] := v;
      matrixNew[base] := v;
    }
  }

  /** A cell after the top-boundary block, given its value before: rank 0
      zeroes all of row 0; every other rank writes only column 0 of it. */
  function TopCell(dim: nat, np: nat, rank: nat, k: nat, before: real): real
    requires np > 0 && rank < np
  {
    if rank == 0 && k < dim + 2 then 0.0
    else if rank != 0 && k == 0 then Ramp(TopGhostCoef(dim, np, rank))
    else before
  }

  /** The top-boundary block, on both buffers. */
  method SetTopBoundary(matrix: array<real>, matrixNew: array<real>, dim: nat, np: nat, rank: nat)
    requires np > 0 && rank < np && matrix != matrixNew
    requires matrix.Length == BufferSize(dim, np, rank) && matrixNew.Length == BufferSize(dim, np, rank)
    modifies matrix, matrixNew
    ensures forall k :: 0 <= k < matrix.Length ==>
      matrix[k] == TopCell(dim, np, rank, k, old(matrix[k]))
    ensures forall k :: 0 <= k < matrixNew.Length ==>
      matrixNew[k] == TopCell(dim, np, rank, k, old(matrixNew[k]))
  {
    RowBaseLe(1, LocRows(dim, np, rank) + 2, dim + 2);
    if rank == 0 {
      ghost var m0, n0 := matrix[..], matrixNew[..];
      var i := 0;
      while i <= dim + 1
        invariant i <= dim + 2
        invariant forall k :: 0 <= k < matrix.Length ==> matrix[k] == if k < i then 0.0 else m0[k]
        invariant forall k :: 0 <= k < matrixNew.Length ==> matrixNew[k] == if k < i then 0.0 else n0[k]
      {
        matrix[i] := 0.0;
        matrixNew[i] := 0.0;
        i := i + 1;
      }
    } else {
      var v := Ramp(TopGhostCoef(dim, np, rank));
      matrix[0] := v;
      matrixNew[0] := v;
    }
  }
}
