/** Counting the cells of a matrix that hold a given value, the way
    `np.sum(M2 == v)` does, and the proof that this count is the number of
    such cells. */
module Counting {
  import opened Grid

  /** Number of entries of a row equal to `v`. */
  function CountRow(s: seq<int>, v: int): nat {
    if |s| == 0 then 0
    else CountRow(s[..|s| - 1], v) + (if s[|s| - 1] == v then 1 else 0)
  }

  /** Number of entries of a matrix equal to `v`, row by row. */
  function CountGrid(g: Matrix, v: int): nat {
    if |g| == 0 then 0
    else CountGrid(g[..|g| - 1], v) + CountRow(g[|g| - 1], v)
  }

  /** The positions in row `j` that hold `v`. */
  ghost function RowCells(s: seq<int>, j: int, v: int): set<(int, int)> {
    set i | 0 <= i < |s| && s[i] == v :: (j, i)
  }

  /** The positions of the matrix that hold `v`. */
  ghost function CellsWith(g: Matrix, v: int): set<(int, int)> {
    set j, i | 0 <= j < |g| && 0 <= i < |g[j]| && g[j][i] == v :: (j, i)
  }

  lemma {:induction false} RowCount(s: seq<int>, j: int, v: int)
    ensures CountRow(s, v) == |RowCells(s, j, v)|
  {
    if |s| > 0 {
      var init := s[..|s| - 1];
      var last := |s| - 1;
      RowCount(init, j, v);
      var added: set<(int, int)> := if s[last] == v then {(j, last)} else {};
      assert RowCells(s, j, v) == RowCells(init, j, v) + added;
      assert (j, last) !in RowCells(init, j, v);
    }
  }

  /** The row-by-row count equals the number of cells holding `v`. */
  lemma {:induction false} GridCount(g: Matrix, v: int)
    ensures CountGrid(g, v) == |CellsWith(g, v)|
  {
    if |g| > 0 {
      var init := g[..|g| - 1];
      var last := |g| - 1;
      GridCount(init, v);
      RowCount(g[last], last, v);
      var upper := CellsWith(init, v);
      var row := RowCells(g[last], last, v);
      assert CellsWith(g, v) == upper + row;
      assert upper * row == {};
    }
  }
}
