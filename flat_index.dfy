/** Row-major addressing of a slab buffer: cell (i, j) of a buffer whose rows
    are `w` cells wide lives at flat index `i * w + j`. The row offset and the
    decoding of a flat index are defined by stepping one row at a time, and
    proved equal to the product, quotient and remainder; keeping them
    recursive keeps products of two variables out of the other proofs. */
module FlatIndex {

  /** Flat index of the first cell of row i: `i * w`. */
  function RowBase(i: nat, w: nat): nat {
    if i == 0 then 0 else RowBase(i - 1, w) + w
  }

  /** Row that flat index k falls in: `k / w`. */
  function RowOf(k: nat, w: nat): nat
    requires w > 0
  {
    if k < w then 0 else RowOf(k - w, w) + 1
  }

  /** Column of flat index k: `k % w`. */
  function ColOf(k: nat, w: nat): (c: nat)
    requires w > 0
    ensures c < w
  {
    if k < w then k else ColOf(k - w, w)
  }

  /** RowBase is the C program's `i * w`. */
  lemma {:induction false} RowBaseIsProduct(i: nat, w: nat)
    ensures RowBase(i, w) == i * w
  {
    if i > 0 {
      RowBaseIsProduct(i - 1, w);
    }
  }

  /** RowOf and ColOf are the quotient and remainder of k by w. */
  lemma DecodeIsDivMod(k: nat, w: nat)
    requires w > 0
    ensures RowOf(k, w) == k / w && ColOf(k, w) == k % w
  {
    Decompose(k, w);
    RowBaseIsProduct(RowOf(k, w), w);
    DivModUnique(k, w, RowOf(k, w), ColOf(k, w));
  }

  /** A number written as i*w + j with 0 <= j < w has quotient i and
      remainder j. */
  lemma DivModUnique(k: int, w: int, i: int, j: int)
    requires 0 <= j < w && k == i * w + j
    ensures k / w == i && k % w == j
  {
    var q, r := k / w, k % w;
    var d := q - i;
    assert d * w == j - r by {
      assert d * w == q * w - i * w;
    }
    assert (-d) * w == -(d * w);
    if d > 0 {
      MulMono(1, d, w);
    } else if d < 0 {
      MulMono(1, -d, w);
    }
  }

  lemma MulMono(a: nat, b: nat, w: nat)
    requires a <= b
    ensures a * w <= b * w
  {
  }

  /** Row i of a flat buffer of `rows` rows, as a sequence of w cells. */
  function Row<T>(s: seq<T>, rows: nat, i: nat, w: nat): (r: seq<T>)
    requires i < rows && |s| == RowBase(rows, w)
    ensures RowBase(i, w) + w <= |s| && |r| == w
  {
    RowBaseLe(i + 1, rows, w);
    s[RowBase(i, w) .. RowBase(i, w) + w]
  }

  /** Cell j of row i is the cell at address (i, j). */
  lemma RowCell<T>(s: seq<T>, rows: nat, i: nat, w: nat, j: nat)
    requires i < rows && |s| == RowBase(rows, w) && j < w
    ensures Row(s, rows, i, w)[j] == s[RowBase(i, w) + j]
  {
  }

  /** Sequences that agree at every index are equal. */
  lemma SameSeq<T>(a: seq<T>, b: seq<T>)
    requires |a| == |b| && forall k :: 0 <= k < |a| ==> a[k] == b[k]
    ensures a == b
  {
  }

  /** Rows one cell wider start i cells later: `i * (w+1) == i*w + i`. */
  lemma {:induction false} RowBaseWiden(i: nat, w: nat)
    ensures RowBase(i, w + 1) == RowBase(i, w) + i
  {
    if i > 0 {
      RowBaseWiden(i - 1, w);
    }
  }

  /** Rows of zero cells all start at 0. */
  lemma {:induction false} RowBaseZero(i: nat)
    ensures RowBase(i, 0) == 0
  {
    if i > 0 {
      RowBaseZero(i - 1);
    }
  }

  /** Later rows start later, by at least one row. */
  lemma {:induction false} RowBaseMono(a: nat, b: nat, w: nat)
    requires a < b
    ensures RowBase(a, w) + w <= RowBase(b, w)
  {
    if a + 1 < b {
      RowBaseMono(a, b - 1, w);
    }
  }

  /** RowBase is monotone. */
  lemma RowBaseLe(a: nat, b: nat, w: nat)
    requires a <= b
    ensures RowBase(a, w) <= RowBase(b, w)
  {
    if a < b { RowBaseMono(a, b, w); }
  }

  /** Address decoding inverts address encoding. */
  lemma {:induction false} Decode(i: nat, j: nat, w: nat)
    requires j < w
    ensures RowOf(RowBase(i, w) + j, w) == i && ColOf(RowBase(i, w) + j, w) == j
  {
    if i > 0 {
      Decode(i - 1, j, w);
    }
  }

  /** Every flat index is the address of its row and column. */
  lemma {:induction false} Decompose(k: nat, w: nat)
    requires w > 0
    ensures k == RowBase(RowOf(k, w), w) + ColOf(k, w) && ColOf(k, w) < w
  {
    if k >= w {
      Decompose(k - w, w);
    }
  }

  /** An index below row `rows` lies in a row above it. */
  lemma RowBound(k: nat, w: nat, rows: nat)
    requires w > 0 && k < RowBase(rows, w)
    ensures RowOf(k, w) < rows
  {
    Decompose(k, w);
    if RowOf(k, w) >= rows {
      if RowOf(k, w) > rows { RowBaseMono(rows, RowOf(k, w), w); }
    }
  }

  /** An index at or past row i's start lies in row i or later. */
  lemma RowLowerBound(k: nat, w: nat, i: nat)
    requires w > 0 && RowBase(i, w) <= k
    ensures i <= RowOf(k, w)
  {
    Decompose(k, w);
    if RowOf(k, w) < i {
      RowBaseMono(RowOf(k, w), i, w);
    }
  }
}
