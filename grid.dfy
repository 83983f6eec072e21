/** The global (D+2) x (D+2) grid that the ranks' buffers together stand
    for: the top boundary row on rank 0, each interior row on the rank that
    owns it, and the bottom boundary row on the last rank. */
module Grid {
  import opened FlatIndex
  import opened Partition
  import opened Halo

  /** Row g of the global (D+2) x (D+2) grid, read from the buffer of the
      rank that holds it: row 0 from rank 0, row D + 1 from the last rank,
      and an interior row from its owner. */
  function GlobalRow(dim: nat, np: nat, slabs: seq<seq<real>>, g: nat): (row: seq<real>)
    requires SlabsFit(dim, np, slabs) && g <= dim + 1
    ensures |row| == dim + 2
  {
    if g == 0 then Row(slabs[0], LocRows(dim, np, 0) + 2, 0, dim + 2)
    else if g == dim + 1 then Row(slabs[np - 1], LocRows(dim, np, np - 1) + 2, LocRows(dim, np, np - 1) + 1, dim + 2)
    else
      var r := Owner(dim, np, g);
      Row(slabs[r], LocRows(dim, np, r) + 2, g - GlobStart(dim, np, r) + 1, dim + 2)
  }
}
