/** The peek after the iteration loop: the rank whose row range contains
    `row_peek` prints one cell of its current buffer. */
module Peek {
  import opened FlatIndex
  import opened Partition
  import opened Boundary

  /** The local row of `row_peek` on the rank whose test passes:
      `row_peek - rank*loc - offset`. It is an interior row, and the global
      row of local row lr of rank r is GlobStart(r) - 1 + lr. */
  function PeekLocalRow(dim: nat, np: nat, r: nat, rowPeek: nat): (lr: nat)
    requires np > 0 && r < np && Owns(dim, np, r, rowPeek)
    ensures 1 <= lr <= LocRows(dim, np, r)
    ensures GlobStart(dim, np, r) - 1 + lr == rowPeek
  {
    rowPeek - RowBase(r, LocRows(dim, np, r)) - Offset(dim, np, r)
  }

  /** The corrected read: local row lr, column `col_peek`, which is cell
      (row_peek, col_peek) of the global grid. */
  function PeekIndex(dim: nat, np: nat, r: nat, rowPeek: nat, colPeek: nat): nat
    requires np > 0 && r < np && Owns(dim, np, r, rowPeek)
  {
    RowBase(PeekLocalRow(dim, np, r, rowPeek), dim + 2) + colPeek
  }

  /** The flat index the program reads, as written:
      `(lr + 1) * (D+2) + (col_peek + 1)`. It lies one row and one column
      past the cell (row_peek, col_peek). */
  function PeekIndexAsWritten(dim: nat, np: nat, r: nat, rowPeek: nat, colPeek: nat): (k: nat)
    requires np > 0 && r < np && Owns(dim, np, r, rowPeek)
    ensures k == PeekIndex(dim, np, r, rowPeek, colPeek) + (dim + 2) + 1
  {
    RowBase(PeekLocalRow(dim, np, r, rowPeek) + 1, dim + 2) + (colPeek + 1)
  }

  /** Every row_peek in 1 .. D passes the test on exactly one rank, and
      row_peek = 0, which the argument check accepts, passes it on none. */
  lemma PeekAnsweredOnce(dim: nat, np: nat, rowPeek: nat, r: nat)
    requires np > 0 && r < np
    ensures 1 <= rowPeek <= dim ==> (Owns(dim, np, r, rowPeek) <==> r == Owner(dim, np, rowPeek))
    ensures rowPeek == 0 ==> !Owns(dim, np, r, rowPeek)
  {
    OwnershipUnique(dim, np, rowPeek, r);
  }

  /** As written, the read stays inside the buffer for every accepted
      col_peek <= D, but it addresses local row lr + 1 and column
      col_peek + 1: global cell (row_peek + 1, col_peek + 1), not the
      cell the message names. */
  lemma PeekAsWrittenReadsNextCell(dim: nat, np: nat, r: nat, rowPeek: nat, colPeek: nat)
    requires np > 0 && r < np && Owns(dim, np, r, rowPeek) && colPeek <= dim
    ensures PeekIndexAsWritten(dim, np, r, rowPeek, colPeek) < BufferSize(dim, np, r)
    ensures RowOf(PeekIndexAsWritten(dim, np, r, rowPeek, colPeek), dim + 2) == PeekLocalRow(dim, np, r, rowPeek) + 1
    ensures ColOf(PeekIndexAsWritten(dim, np, r, rowPeek, colPeek), dim + 2) == colPeek + 1
    ensures GlobStart(dim, np, r) - 1 + RowOf(PeekIndexAsWritten(dim, np, r, rowPeek, colPeek), dim + 2) == rowPeek + 1
  {
    var lr := PeekLocalRow(dim, np, r, rowPeek);
    RowBaseLe(lr + 2, LocRows(dim, np, r) + 2, dim + 2);
    Decode(lr + 1, colPeek + 1, dim + 2);
  }

  /** With D = 4 and two ranks, rank 0 owns rows 1 .. 2; for row_peek = 2
      it reads its ghost row 3 instead of its own row 2. */
  lemma PeekAsWrittenExample()
    ensures Owns(4, 2, 0, 2) && LocRows(4, 2, 0) == 2
    ensures RowOf(PeekIndexAsWritten(4, 2, 0, 2, 1), 6) == LocRows(4, 2, 0) + 1
  {
    assert LocRows(4, 2, 0) == 2 && Offset(4, 2, 0) == 0;
    PeekAsWrittenReadsNextCell(4, 2, 0, 2, 1);
  }

  /** The corrected read stays inside the buffer for every col_peek up to
      D + 1 and addresses global cell (row_peek, col_peek). */
  lemma PeekReadsRequestedCell(dim: nat, np: nat, r: nat, rowPeek: nat, colPeek: nat)
    requires np > 0 && r < np && Owns(dim, np, r, rowPeek) && colPeek <= dim + 1
    ensures PeekIndex(dim, np, r, rowPeek, colPeek) < BufferSize(dim, np, r)
    ensures ColOf(PeekIndex(dim, np, r, rowPeek, colPeek), dim + 2) == colPeek
    ensures GlobStart(dim, np, r) - 1 + RowOf(PeekIndex(dim, np, r, rowPeek, colPeek), dim + 2) == rowPeek
  {
    var lr := PeekLocalRow(dim, np, r, rowPeek);
    RowBaseLe(lr + 1, LocRows(dim, np, r) + 2, dim + 2);
    Decode(lr, colPeek, dim + 2);
  }

  /** The program's read expression `(lr + 1) * (D+2) + (col_peek + 1)`,
      with `lr = row_peek - rank*loc - offset`, on the rank whose range
      holds row_peek + 1: the test of the 0-based reading. It is the
      corrected read of global cell (row_peek + 1, col_peek + 1). */
  function PeekIndexZeroBased(dim: nat, np: nat, r: nat, rowPeek: nat, colPeek: nat): (k: nat)
    requires np > 0 && r < np && Owns(dim, np, r, rowPeek + 1)
    ensures k == PeekIndex(dim, np, r, rowPeek + 1, colPeek + 1)
  {
    RowBase(rowPeek - RowBase(r, LocRows(dim, np, r)) - Offset(dim, np, r) + 1, dim + 2) + (colPeek + 1)
  }

  /** If row_peek and col_peek are 0-based indices of the D x D interior,
      both below D, the requested cell is global cell
      (row_peek + 1, col_peek + 1). Exactly one rank's range holds row
      row_peek + 1, and on that rank the program's read expression stays
      inside the buffer and addresses that cell. */
  lemma PeekZeroBasedReadsRequestedCell(dim: nat, np: nat, r: nat, rowPeek: nat, colPeek: nat)
    requires np > 0 && r < np && rowPeek < dim && colPeek < dim
    ensures Owns(dim, np, r, rowPeek + 1) <==> r == Owner(dim, np, rowPeek + 1)
    ensures Owns(dim, np, r, rowPeek + 1) ==>
      PeekIndexZeroBased(dim, np, r, rowPeek, colPeek) < BufferSize(dim, np, r) &&
      ColOf(PeekIndexZeroBased(dim, np, r, rowPeek, colPeek), dim + 2) == colPeek + 1 &&
      GlobStart(dim, np, r) - 1 + RowOf(PeekIndexZeroBased(dim, np, r, rowPeek, colPeek), dim + 2) == rowPeek + 1
  {
    OwnershipUnique(dim, np, rowPeek + 1, r);
    if Owns(dim, np, r, rowPeek + 1) {
      PeekReadsRequestedCell(dim, np, r, rowPeek + 1, colPeek + 1);
    }
  }

  /** Under the 0-based reading the test as written picks the wrong rank:
      with D = 4 and two ranks, interior row 2 is global row 3, which only
      rank 1 owns, but rank 0 passes the test for row_peek = 2 (and then
      reads its ghost row 3, as PeekAsWrittenExample shows); interior row 0,
      global row 1, passes the test on no rank. */
  lemma PeekZeroBasedExample()
    ensures Owns(4, 2, 0, 2) && !Owns(4, 2, 0, 3) && Owns(4, 2, 1, 3)
    ensures !Owns(4, 2, 0, 0) && !Owns(4, 2, 1, 0)
  {
    assert LocRows(4, 2, 0) == 2 && Offset(4, 2, 0) == 0;
    assert LocRows(4, 2, 1) == 2 && Offset(4, 2, 1) == 0;
  }
}
