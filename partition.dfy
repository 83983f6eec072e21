/** Row partitioning of a D x D interior among np ranks: every rank owns a
    contiguous band of global rows, computed from (D, np, rank) alone. */
module Partition {
  import opened FlatIndex

  /** Rows every rank gets at least (`dimension/np`). */
  function Quota(dim: nat, np: nat): nat requires np > 0 { RowOf(dim, np) }

  /** Ranks below this index get one extra row (`dimension%np`). */
  function Res(dim: nat, np: nat): (res: nat)
    requires np > 0
    ensures res < np
  {
    ColOf(dim, np)
  }

  /** Quota and Res are the program's quotient and remainder, and split D
      into np quotas plus the remainder. */
  lemma QuotaRes(dim: nat, np: nat)
    requires np > 0
    ensures Quota(dim, np) == dim / np && Res(dim, np) == dim % np
    ensures dim == RowBase(np, Quota(dim, np)) + Res(dim, np)
  {
    DecodeIsDivMod(dim, np);
    Decompose(dim, np);
    RowBaseIsProduct(Quota(dim, np), np);
    RowBaseIsProduct(np, Quota(dim, np));
  }

  /** Interior rows owned by rank r (`loc_dimension`). */
  function LocRows(dim: nat, np: nat, r: nat): (loc: nat)
    requires np > 0 && r < np
    ensures Quota(dim, np) <= loc <= Quota(dim, np) + 1
    ensures loc == Quota(dim, np) + 1 <==> r < Res(dim, np)
  {
    if r < Res(dim, np) then Quota(dim, np) + 1 else Quota(dim, np)
  }

  /** Catch-up offset: ranks at or past `res` are shifted by the `res`
      extra rows their predecessors hold. */
  function Offset(dim: nat, np: nat, r: nat): nat
    requires np > 0 && r < np
  {
    if r >= Res(dim, np) then Res(dim, np) else 0
  }

  /** First global row owned by rank r (`glob_dimension_start`). */
  function GlobStart(dim: nat, np: nat, r: nat): (s: nat)
    requires np > 0 && r < np
    ensures 1 <= s
  {
    RowBase(r, LocRows(dim, np, r)) + 1 + Offset(dim, np, r)
  }

  /** Last global row owned by rank r (`glob_dimension_end`); one below the
      start when the rank owns no row. */
  function GlobEnd(dim: nat, np: nat, r: nat): int
    requires np > 0 && r < np
  {
    GlobStart(dim, np, r) + LocRows(dim, np, r) - 1
  }

  /** The ownership test of the peek. */
  predicate Owns(dim: nat, np: nat, r: nat, row: int)
    requires np > 0 && r < np
  {
    GlobStart(dim, np, r) <= row <= GlobEnd(dim, np, r)
  }

  /** With at least as many rows as ranks, every rank owns a row, which is
      what keeps its first and last interior rows apart from its ghost
      rows. */
  lemma LocRowsPositive(dim: nat, np: nat, r: nat)
    requires 0 < np <= dim && r < np
    ensures 1 <= LocRows(dim, np, r)
  {
    QuotaRes(dim, np);
    if Quota(dim, np) == 0 {
      RowBaseZero(np);
    }
  }

  /** Rows held by ranks 0 .. k-1 together. */
  function SumRows(dim: nat, np: nat, k: nat): nat
    requires np > 0 && k <= np
  {
    if k == 0 then 0 else SumRows(dim, np, k - 1) + LocRows(dim, np, k - 1)
  }

  /** The rows held by ranks below k, in closed form. */
  lemma {:induction false} SumRowsClosedForm(dim: nat, np: nat, k: nat)
    requires np > 0 && k <= np
    ensures SumRows(dim, np, k) == RowBase(k, Quota(dim, np)) + (if k < Res(dim, np) then k else Res(dim, np))
  {
    if k > 0 {
      SumRowsClosedForm(dim, np, k - 1);
    }
  }

  /** Partition completeness: the row counts of all ranks add up to D. */
  lemma PartitionSum(dim: nat, np: nat)
    requires np > 0
    ensures SumRows(dim, np, np) == dim
  {
    SumRowsClosedForm(dim, np, np);
    QuotaRes(dim, np);
  }

  /** Partition balance: any two ranks' row counts differ by at most one,
      and a lower rank never holds fewer rows than a higher one. */
  lemma PartitionBalance(dim: nat, np: nat, r1: nat, r2: nat)
    requires np > 0 && r1 < np && r2 < np
    ensures -1 <= LocRows(dim, np, r1) - LocRows(dim, np, r2) <= 1
    ensures r1 <= r2 ==> LocRows(dim, np, r2) <= LocRows(dim, np, r1)
  {
  }

  /** The catch-up offset makes `rank*loc + offset` count exactly the
      rows of all lower ranks, whether the rank holds an extra row or not. */
  lemma OffsetCountsLowerRows(dim: nat, np: nat, r: nat)
    requires np > 0 && r < np
    ensures RowBase(r, LocRows(dim, np, r)) + Offset(dim, np, r) == SumRows(dim, np, r)
  {
    SumRowsClosedForm(dim, np, r);
    RowBaseWiden(r, Quota(dim, np));
  }

  /** Rank r's first row follows all rows of the ranks before it. */
  lemma StartIsPrefixSum(dim: nat, np: nat, r: nat)
    requires np > 0 && r < np
    ensures GlobStart(dim, np, r) == SumRows(dim, np, r) + 1
  {
    OffsetCountsLowerRows(dim, np, r);
  }

  /** Rank r's last row is the last of the rows ranks 0 .. r hold together. */
  lemma EndIsPrefixSum(dim: nat, np: nat, r: nat)
    requires np > 0 && r < np
    ensures GlobEnd(dim, np, r) == SumRows(dim, np, r + 1)
  {
    StartIsPrefixSum(dim, np, r);
  }

  /** The ownership test accepts exactly the rows rank r adds to those of
      the ranks before it. */
  lemma OwnsIsOwnBand(dim: nat, np: nat, r: nat, row: int)
    requires np > 0 && r < np
    ensures Owns(dim, np, r, row) <==> SumRows(dim, np, r) < row <= SumRows(dim, np, r + 1)
  {
    StartIsPrefixSum(dim, np, r);
    EndIsPrefixSum(dim, np, r);
  }

  /** Consecutive ranks own adjacent bands: rank r+1 starts right after
      rank r ends. */
  lemma {:induction false} Contiguous(dim: nat, np: nat, r: nat)
    requires np > 0 && r + 1 < np
    ensures GlobStart(dim, np, r + 1) == GlobEnd(dim, np, r) + 1
  {
    StartIsPrefixSum(dim, np, r);
    StartIsPrefixSum(dim, np, r + 1);
  }

  /** The bands cover exactly the interior rows 1 .. D. */
  lemma Coverage(dim: nat, np: nat)
    requires np > 0
    ensures GlobStart(dim, np, 0) == 1
    ensures GlobEnd(dim, np, np - 1) == dim
  {
    StartIsPrefixSum(dim, np, np - 1);
    PartitionSum(dim, np);
  }

  /** Later ranks start no earlier, and strictly after every row of an
      earlier rank. */
  lemma {:induction false} StartsOrdered(dim: nat, np: nat, r1: nat, r2: nat)
    requires np > 0 && r1 < r2 < np
    ensures GlobEnd(dim, np, r1) < GlobStart(dim, np, r2)
  {
    if r2 == r1 + 1 {
      Contiguous(dim, np, r1);
    } else {
      StartsOrdered(dim, np, r1, r2 - 1);
      Contiguous(dim, np, r2 - 1);
    }
  }

  /** The rank at or after r that owns `row`, scanning upwards. */
  function OwnerFrom(dim: nat, np: nat, row: int, r: nat): (o: nat)
    requires np > 0 && r < np
    requires GlobStart(dim, np, r) <= row <= dim
    ensures r <= o < np && Owns(dim, np, o, row)
    decreases np - r
  {
    Coverage(dim, np);
    if row <= GlobEnd(dim, np, r) || r + 1 == np then r
    else Contiguous(dim, np, r); OwnerFrom(dim, np, row, r + 1)
  }

  /** The rank that owns interior row `row`. */
  function Owner(dim: nat, np: nat, row: int): (o: nat)
    requires np > 0 && 1 <= row <= dim
    ensures o < np && Owns(dim, np, o, row)
  {
    Coverage(dim, np);
    OwnerFrom(dim, np, row, 0)
  }

  /** Every interior row passes the peek's ownership test on exactly one
      rank, and rows outside 1 .. D on none. */
  lemma OwnershipUnique(dim: nat, np: nat, row: int, r: nat)
    requires np > 0 && r < np
    ensures 1 <= row <= dim ==> (Owns(dim, np, r, row) <==> r == Owner(dim, np, row))
    ensures !(1 <= row <= dim) ==> !Owns(dim, np, r, row)
  {
    Coverage(dim, np);
    if 1 <= row <= dim {
      var o := Owner(dim, np, row);
      if Owns(dim, np, r, row) && r != o {
        if r < o { StartsOrdered(dim, np, r, o); } else { StartsOrdered(dim, np, o, r); }
      }
    } else if Owns(dim, np, r, row) && dim < row && r < np - 1 {
      StartsOrdered(dim, np, r, np - 1);
    }
  }
}
