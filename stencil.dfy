/** The Jacobi stencil: every interior cell of a row range of the new buffer
    becomes the average of its four neighbours in the current buffer. */
module Stencil {
  import opened FlatIndex

  /** Flat index k lies in rows [rowStart, rowEnd) and columns 1 .. D of a
      buffer whose rows are D + 2 cells wide. */
  predicate InRange(k: nat, rowStart: nat, rowEnd: nat, dim: nat) {
    rowStart <= RowOf(k, dim + 2) < rowEnd && 1 <= ColOf(k, dim + 2) <= dim
  }

  /** The rows a call may touch, and the rows one above and one below them
      that it reads, lie in a buffer of n cells; an empty range demands
      nothing. */
  predicate RangeFits(rowStart: nat, rowEnd: nat, dim: nat, n: nat) {
    rowStart < rowEnd ==> 1 <= rowStart && RowBase(rowEnd + 1, dim + 2) <= n
  }

  /** The four neighbours of an in-range cell are inside the buffer. */
  lemma NeighboursInside(k: nat, rowStart: nat, rowEnd: nat, dim: nat, n: nat)
    requires InRange(k, rowStart, rowEnd, dim) && RangeFits(rowStart, rowEnd, dim, n)
    ensures dim + 2 <= k && k + dim + 2 < n
  {
    var w := dim + 2;
    Decompose(k, w);
    RowBaseLe(1, RowOf(k, w), w);
    RowBaseLe(RowOf(k, w) + 2, rowEnd + 1, w);
  }

  /** `0.25 * (N + E + S + W)` around flat index k. */
  function Average(cur: seq<real>, k: nat, w: nat): real
    requires 1 <= w <= k && k + w < |cur|
  {
    0.25 * (cur[k - w] + cur[k + 1] + cur[k + w] + cur[k - 1])
  }

  /** The new buffer after `evolve(rowStart, rowEnd)`: in-range cells get
      the average of their neighbours in `cur`, every other cell keeps its
      value in `nxt`. */
  function EvolveSpec(cur: seq<real>, nxt: seq<real>, rowStart: nat, rowEnd: nat, dim: nat): (r: seq<real>)
    requires |cur| == |nxt| && RangeFits(rowStart, rowEnd, dim, |cur|)
    ensures |r| == |nxt|
  {
    seq(|nxt|, k requires 0 <= k < |nxt| =>
      if InRange(k, rowStart, rowEnd, dim) then
        NeighboursInside(k, rowStart, rowEnd, dim, |cur|);
        Average(cur, k, dim + 2)
      else nxt[k])
  }

  /** One pass of `evolve`'s inner loop: columns 1 .. D of row i. */
  method EvolveRow(matrix: array<real>, matrixNew: array<real>, i: nat, dim: nat)
    requires matrix != matrixNew && matrix.Length == matrixNew.Length
    requires RangeFits(i, i + 1, dim, matrix.Length)
    modifies matrixNew
    ensures matrixNew[..] == EvolveSpec(matrix[..], old(matrixNew[..]), i, i + 1, dim)
  {
    var w := dim + 2;
    ghost var spec := EvolveSpec(matrix[..], matrixNew[..], i, i + 1, dim);
    ghost var before := matrixNew[..];
    var row := RowBase(i, w);
    Decode(i, 0, w);
    Decode(i, dim + 1, w);
    forall k | 0 <= k < matrixNew.Length && !(row < k < row + w - 1)
      ensures spec[k] == before[k]
    {
      if k < row { RowBound(k, w, i); }
      else if k >= row + w { RowLowerBound(k, w, i + 1); }
    }
    var j := 1;
    while j <= dim
      invariant 1 <= j <= dim + 1
      invariant forall k :: 0 <= k < matrixNew.Length ==>
        matrixNew[k] == if row < k < row + j then spec[k] else before[k]
    {
      Decode(i, j, w);
      matrixNew[row + j] := 0.25 *
        (matrix[row - w + j] +
         matrix[row + (j + 1)] +
         matrix[row + w + j] +
         matrix[row + (j - 1)]);
      j := j + 1;
    }
  }

  /** `evolve`: for each row of [rowStart, rowEnd), the stencil over
      columns 1 .. D. It reads only `matrix`, writes only the in-range cells
      of `matrixNew`, and leaves `matrixNew` as EvolveSpec describes. */
  method Evolve(matrix: array<real>, matrixNew: array<real>, rowStart: nat, rowEnd: nat, dim: nat)
    requires matrix != matrixNew && matrix.Length == matrixNew.Length
    requires RangeFits(rowStart, rowEnd, dim, matrix.Length)
    modifies matrixNew
    ensures matrixNew[..] == EvolveSpec(matrix[..], old(matrixNew[..]), rowStart, rowEnd, dim)
    ensures matrix[..] == old(matrix[..])
  {
    ghost var before := matrixNew[..];
    EmptyRangeIsIdentity(matrix[..], before, rowStart, rowStart, dim);
    var i := rowStart;
    while i < rowEnd
      invariant rowStart <= i && (i == rowStart || i <= rowEnd)
      invariant RangeFits(rowStart, i, dim, matrix.Length)
      invariant matrixNew[..] == EvolveSpec(matrix[..], before, rowStart, i, dim)
    {
      RowBaseLe(i + 2, rowEnd + 1, dim + 2);
      EvolveRow(matrix, matrixNew, i, dim);
      ExtendRange(matrix[..], before, rowStart, i, dim);
      i := i + 1;
    }
    if rowStart < rowEnd {
      assert i == rowEnd;
    } else {
      EmptyRangeIsIdentity(matrix[..], before, rowStart, rowEnd, dim);
      EmptyRangeIsIdentity(matrix[..], before, rowStart, i, dim);
    }
  }

  /** Evolving row i after rows [rowStart, i) is evolving [rowStart, i+1). */
  lemma ExtendRange(cur: seq<real>, nxt: seq<real>, rowStart: nat, i: nat, dim: nat)
    requires |cur| == |nxt| && rowStart <= i && RangeFits(rowStart, i + 1, dim, |cur|)
    ensures RangeFits(rowStart, i, dim, |cur|) && RangeFits(i, i + 1, dim, |cur|)
    ensures EvolveSpec(cur, EvolveSpec(cur, nxt, rowStart, i, dim), i, i + 1, dim)
         == EvolveSpec(cur, nxt, rowStart, i + 1, dim)
  {
    RowBaseLe(i + 1, i + 2, dim + 2);
    var a := EvolveSpec(cur, nxt, rowStart, i, dim);
    var b := EvolveSpec(cur, a, i, i + 1, dim);
    var c := EvolveSpec(cur, nxt, rowStart, i + 1, dim);
    assert forall k :: 0 <= k < |nxt| ==> b[k] == c[k];
  }

  /** An empty row range changes nothing. */
  lemma EmptyRangeIsIdentity(cur: seq<real>, nxt: seq<real>, rowStart: nat, rowEnd: nat, dim: nat)
    requires |cur| == |nxt| && rowEnd <= rowStart
    ensures EvolveSpec(cur, nxt, rowStart, rowEnd, dim) == nxt
  {
    var r := EvolveSpec(cur, nxt, rowStart, rowEnd, dim);
    assert forall k :: 0 <= k < |nxt| ==> r[k] == nxt[k];
  }

  /** Evolving a range twice writes the same values again: the update
      depends only on `cur`, never on what `nxt` held. */
  lemma EvolveIdempotent(cur: seq<real>, nxt: seq<real>, rowStart: nat, rowEnd: nat, dim: nat)
    requires |cur| == |nxt| && RangeFits(rowStart, rowEnd, dim, |cur|)
    ensures var once := EvolveSpec(cur, nxt, rowStart, rowEnd, dim);
            EvolveSpec(cur, once, rowStart, rowEnd, dim) == once
  {
    var once := EvolveSpec(cur, nxt, rowStart, rowEnd, dim);
    var twice := EvolveSpec(cur, once, rowStart, rowEnd, dim);
    assert forall k :: 0 <= k < |nxt| ==> twice[k] == once[k];
  }

  /** The three calls of one iteration, `evolve(2, loc)`, `evolve(loc,
      loc+1)` and `evolve(1, 2)` in that order, leave the new buffer exactly
      as one `evolve(1, loc+1)` over all interior rows would, for every
      loc >= 1 (for loc = 1 the first call is empty and row 1 is written
      twice with the same value). */
  lemma SplitEquivalence(cur: seq<real>, nxt: seq<real>, loc: nat, dim: nat)
    requires |cur| == |nxt| && 1 <= loc && RowBase(loc + 2, dim + 2) <= |cur|
    ensures RangeFits(2, loc, dim, |cur|) && RangeFits(loc, loc + 1, dim, |cur|) && RangeFits(1, 2, dim, |cur|)
    ensures EvolveSpec(cur, EvolveSpec(cur, EvolveSpec(cur, nxt, 2, loc, dim), loc, loc + 1, dim), 1, 2, dim)
         == EvolveSpec(cur, nxt, 1, loc + 1, dim)
  {
    RowBaseLe(loc + 1, loc + 2, dim + 2);
    RowBaseLe(3, loc + 2, dim + 2);
    var a := EvolveSpec(cur, nxt, 2, loc, dim);
    var b := EvolveSpec(cur, a, loc, loc + 1, dim);
    var c := EvolveSpec(cur, b, 1, 2, dim);
    var whole := EvolveSpec(cur, nxt, 1, loc + 1, dim);
    assert forall k :: 0 <= k < |nxt| ==> c[k] == whole[k];
  }

  /** Every cell of s multiplied by c. */
  function Scale(c: real, s: seq<real>): (r: seq<real>)
    ensures |r| == |s| && forall k :: 0 <= k < |s| ==> r[k] == c * s[k]
  {
    seq(|s|, k requires 0 <= k < |s| => c * s[k])
  }

  /** The stencil is linear and homogeneous: evolving buffers scaled by c
      gives the scaled result. So measuring cell values in any fixed unit
      (such as the boundary increment) does not change the computation. */
  lemma EvolveScales(c: real, cur: seq<real>, nxt: seq<real>, rowStart: nat, rowEnd: nat, dim: nat)
    requires |cur| == |nxt| && RangeFits(rowStart, rowEnd, dim, |cur|)
    ensures EvolveSpec(Scale(c, cur), Scale(c, nxt), rowStart, rowEnd, dim)
         == Scale(c, EvolveSpec(cur, nxt, rowStart, rowEnd, dim))
  {
    var lhs := EvolveSpec(Scale(c, cur), Scale(c, nxt), rowStart, rowEnd, dim);
    var rhs := Scale(c, EvolveSpec(cur, nxt, rowStart, rowEnd, dim));
    forall k | 0 <= k < |nxt| ensures lhs[k] == rhs[k] {
      if InRange(k, rowStart, rowEnd, dim) {
        NeighboursInside(k, rowStart, rowEnd, dim, |cur|);
        var w := dim + 2;
        calc {
          lhs[k];
          0.25 * (c * cur[k - w] + c * cur[k + 1] + c * cur[k + w] + c * cur[k - 1]);
          c * (0.25 * (cur[k - w] + cur[k + 1] + cur[k + w] + cur[k - 1]));
          rhs[k];
        }
      }
    }
  }
}
