/** The land/sea mask as the editor holds it: a rectangle of numbers, row `j`
    (the `jmax` axis) first and column `i` (the `imax` axis) second, with
    0 meaning land and 1 meaning sea. */
module Grid {

  type Matrix = seq<seq<int>>

  /** Number of columns (`imax`); an empty mask has none. */
  function Width(m: Matrix): nat {
    if |m| == 0 then 0 else |m[0]|
  }

  /** Every row has the same length, as a two-dimensional array does. */
  predicate IsRect(m: Matrix) {
    forall j :: 0 <= j < |m| ==> |m[j]| == Width(m)
  }

  /** `(j, i)` addresses a cell of the window. */
  predicate InWindow(m: Matrix, j: int, i: int) {
    0 <= j < |m| && 0 <= i < Width(m)
  }

  /** Every cell is exactly land (0) or sea (1). */
  predicate IsBinary(m: Matrix)
    requires IsRect(m)
  {
    forall j, i :: 0 <= j < |m| && 0 <= i < Width(m) ==> m[j][i] == 0 || m[j][i] == 1
  }

  /** The value of a cell, with every position outside the window read as land. */
  function Cell(m: Matrix, j: int, i: int): (v: int)
    requires IsRect(m)
    ensures !InWindow(m, j, i) ==> v == 0
    ensures IsBinary(m) ==> v == 0 || v == 1
  {
    if InWindow(m, j, i) then m[j][i] else 0
  }
}
