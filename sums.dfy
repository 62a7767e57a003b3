/** Sums over the count cells of the agreement table. */
module Sums {

  /** row[0] + ... + row[j - 1]. */
  function SumTo(row: seq<nat>, j: nat): nat
    requires j <= |row|
  {
    if j == 0 then 0 else SumTo(row, j - 1) + row[j - 1]
  }

  /** The sum of a row's cells: `agreement_table.loc[i, available_labels].sum()`. */
  function RowSum(row: seq<nat>): nat {
    SumTo(row, |row|)
  }
}
