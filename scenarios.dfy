/** Consequences of the classification rule for particular masks: isolated
    sea cells, cells inside sea blocks, all-sea windows, a one-row channel,
    and an all-sea window with one cell toggled to land. */
module Scenarios {
  import opened Grid
  import opened Counting
  import opened Classifier
  import opened Editor

  /** A window of `rows` by `cols` sea cells. */
  function AllSea(rows: nat, cols: nat): (m: Matrix)
    ensures IsRect(m) && IsBinary(m) && |m| == rows && (rows > 0 ==> Width(m) == cols)
    ensures forall j, i :: 0 <= j < rows && 0 <= i < cols ==> m[j][i] == 1
  {
    seq(rows, _ => seq(cols, _ => 1))
  }

  /** A sea cell whose eight neighbours are all land is critical. */
  lemma IsolatedSeaIsCritical(m: Matrix, j: nat, i: nat)
    requires IsRect(m) && IsBinary(m) && InWindow(m, j, i) && m[j][i] == 1
    requires forall r, c :: j - 1 <= r <= j + 1 && i - 1 <= c <= i + 1 && (r, c) != (j, i) ==> Cell(m, r, c) == 0
    ensures Code(m, j, i) == 5
  {
    assert Cell(m, j - 1, i) == 0 && Cell(m, j + 1, i) == 0;
    assert Cell(m, j, i - 1) == 0 && Cell(m, j, i + 1) == 0;
    CodeMeaning(m, j, i);
  }

  /** A sea cell in a 2x2 block of sea is normal sea: never critical or
      semi-critical. */
  lemma SeaBlockIsNormal(m: Matrix, j: nat, i: nat, dj: int, di: int)
    requires IsRect(m) && IsBinary(m) && InWindow(m, j, i) && m[j][i] == 1
    requires (dj == -1 || dj == 1) && (di == -1 || di == 1)
    requires BlockSea(m, j, i, dj, di)
    ensures StatusOf(m, j, i) == NormalSea
    ensures Code(m, j, i) == 2 + Parity(j, i)
  {
    assert HasSeaPair(m, j, i) && InSeaBlock(m, j, i);
    CodeMeaning(m, j, i);
  }

  /** A step of one row (or column) from `x` that stays in `0..n-1` and does
      not land on `h`. */
  function Step(x: int, h: int, n: int): int {
    if x < h then (if x == 0 then 1 else -1)
    else if x + 1 < n then 1 else -1
  }

  lemma BlockedCellIsQuiet(m: Matrix, j: nat, i: nat)
    requires IsRect(m) && IsBinary(m) && InWindow(m, j, i)
    requires m[j][i] == 1 ==> InSeaBlock(m, j, i)
    ensures StatusOf(m, j, i) == Land || StatusOf(m, j, i) == NormalSea
  {
  }

  lemma NoWarningCells(m: Matrix)
    requires IsRect(m) && IsBinary(m)
    requires forall j, i :: 0 <= j < |m| && 0 <= i < Width(m) && m[j][i] == 1 ==> InSeaBlock(m, j, i)
    ensures CellsWithStatus(m, Critical) == {} && CellsWithStatus(m, SemiCritical) == {}
  {
    forall x | x in CellsWithStatus(m, Critical) + CellsWithStatus(m, SemiCritical)
      ensures false
    {
      BlockedCellIsQuiet(m, x.0, x.1);
    }
  }

  /** A mask in which every sea cell lies in a 2x2 block of sea has no
      critical and no semi-critical cell. */
  lemma NoWarningsWhenBlocked(m: Matrix)
    requires IsRect(m) && IsBinary(m)
    requires forall j, i :: 0 <= j < |m| && 0 <= i < Width(m) && m[j][i] == 1 ==> InSeaBlock(m, j, i)
    ensures CriticalCount(m) == 0 && SemiCriticalCount(m) == 0
  {
    NoWarningCells(m);
    ReportedCounts(m);
  }

  /** An all-sea window at least two cells wide each way has no critical and
      no semi-critical cell. */
  lemma AllSeaHasNoWarnings(rows: nat, cols: nat)
    requires rows >= 2 && cols >= 2
    ensures CriticalCount(AllSea(rows, cols)) == 0 && SemiCriticalCount(AllSea(rows, cols)) == 0
  {
    var m := AllSea(rows, cols);
    forall j, i | 0 <= j < rows && 0 <= i < cols
      ensures InSeaBlock(m, j, i)
    {
      assert BlockSea(m, j, i, Step(j, -1, rows), Step(i, -1, cols));
    }
    NoWarningsWhenBlocked(m);
  }

  lemma HoleCellInBlock(rows: nat, cols: nat, hj: nat, hi: nat, j: nat, i: nat)
    requires 2 <= hj && hj + 3 <= rows && 2 <= hi && hi + 3 <= cols
    requires j < rows && i < cols && (j, i) != (hj, hi)
    ensures InSeaBlock(Toggled(AllSea(rows, cols), hj, hi), j, i)
  {
    var m := Toggled(AllSea(rows, cols), hj, hi);
    var dj, di := Step(j, hj, rows), Step(i, hi, cols);
    assert 0 <= j + dj < rows && j + dj != hj;
    assert 0 <= i + di < cols && i + di != hi;
    assert Cell(m, j + dj, i) == 1 && Cell(m, j, i + di) == 1 && Cell(m, j + dj, i + di) == 1;
    assert BlockSea(m, j, i, dj, di);
  }

  /** Toggling to land one cell at least two cells away from the border of
      an all-sea window leaves no critical and no semi-critical cell: every
      remaining sea cell still has a 2x2 block of sea on the side away from
      the new land cell, and that cell shows as land. */
  lemma InteriorHoleHasNoWarnings(rows: nat, cols: nat, hj: nat, hi: nat)
    requires 2 <= hj && hj + 3 <= rows && 2 <= hi && hi + 3 <= cols
    ensures CriticalCount(Toggled(AllSea(rows, cols), hj, hi)) == 0
    ensures SemiCriticalCount(Toggled(AllSea(rows, cols), hj, hi)) == 0
    ensures Code(Toggled(AllSea(rows, cols), hj, hi), hj, hi) == Parity(hj, hi)
  {
    var m := Toggled(AllSea(rows, cols), hj, hi);
    forall j, i | 0 <= j < |m| && 0 <= i < Width(m) && m[j][i] == 1
      ensures InSeaBlock(m, j, i)
    {
      HoleCellInBlock(rows, cols, hj, hi, j, i);
    }
    NoWarningsWhenBlocked(m);
    CodeMeaning(m, hj, hi);
  }

  /** The 5x5 all-sea window with its centre cell toggled to land: all 24
      sea cells stay normal sea. */
  lemma FiveByFiveCentreToggle()
    ensures CriticalCount(Toggled(AllSea(5, 5), 2, 2)) == 0
    ensures SemiCriticalCount(Toggled(AllSea(5, 5), 2, 2)) == 0
  {
    InteriorHoleHasNoWarnings(5, 5, 2, 2);
  }

  lemma ThreeByThreeStatuses(j: nat, i: nat)
    requires j < 3 && i < 3
    ensures var st := StatusOf(Toggled(AllSea(3, 3), 1, 1), j, i);
      && (st == Critical <==> (j + i) % 2 == 1)
      && (st == SemiCritical <==> (j, i) != (1, 1) && (j + i) % 2 == 0)
  {
    var m := Toggled(AllSea(3, 3), 1, 1);
    assert forall r, c :: 0 <= r < 3 && 0 <= c < 3 ==> Cell(m, r, c) == (if (r, c) == (1, 1) then 0 else 1);
  }

  lemma CountsFromCells(m: Matrix, critical: nat, semi: nat)
    requires IsRect(m) && IsBinary(m)
    requires |CellsWithStatus(m, Critical)| == critical && |CellsWithStatus(m, SemiCritical)| == semi
    ensures CriticalCount(m) == critical && SemiCriticalCount(m) == semi
  {
    ReportedCounts(m);
  }

  /** The cells expected to have status `st` in the 3x3 window. */
  function ThreeByThreeExpected(st: Status): set<(int, int)> {
    if st == Critical then {(0, 1), (1, 0), (1, 2), (2, 1)} else {(0, 0), (0, 2), (2, 0), (2, 2)}
  }

  lemma ThreeByThreeFound(st: Status)
    requires st == Critical || st == SemiCritical
    ensures CellsWithStatus(Toggled(AllSea(3, 3), 1, 1), st) <= ThreeByThreeExpected(st)
  {
    var m := Toggled(AllSea(3, 3), 1, 1);
    forall x | x in CellsWithStatus(m, st) ensures x in ThreeByThreeExpected(st) {
      ThreeByThreeStatuses(x.0, x.1);
    }
  }

  lemma ThreeByThreeExpectedFound(st: Status)
    requires st == Critical || st == SemiCritical
    ensures ThreeByThreeExpected(st) <= CellsWithStatus(Toggled(AllSea(3, 3), 1, 1), st)
  {
    var m := Toggled(AllSea(3, 3), 1, 1);
    forall x | x in ThreeByThreeExpected(st) ensures x in CellsWithStatus(m, st) {
      ThreeByThreeStatuses(x.0, x.1);
    }
  }

  lemma FourCells(a: (int, int), b: (int, int), c: (int, int), d: (int, int))
    requires a != b && a != c && a != d && b != c && b != d && c != d
    ensures |{a, b, c, d}| == 4
  {
  }

  lemma ThreeByThreeCount(st: Status)
    requires st == Critical || st == SemiCritical
    ensures |CellsWithStatus(Toggled(AllSea(3, 3), 1, 1), st)| == 4
  {
    ThreeByThreeFound(st);
    ThreeByThreeExpectedFound(st);
    assert CellsWithStatus(Toggled(AllSea(3, 3), 1, 1), st) == ThreeByThreeExpected(st);
    if st == Critical {
      FourCells((0, 1), (1, 0), (1, 2), (2, 1));
    } else {
      FourCells((0, 0), (0, 2), (2, 0), (2, 2));
    }
  }

  /** The 3x3 all-sea window with its centre toggled to land: the four edge
      cells lose every sea pair and become critical, and the four corners keep
      a pair but no 2x2 block and become semi-critical. */
  lemma ThreeByThreeCentreToggle()
    ensures CriticalCount(Toggled(AllSea(3, 3), 1, 1)) == 4
    ensures SemiCriticalCount(Toggled(AllSea(3, 3), 1, 1)) == 4
  {
    ThreeByThreeCount(Critical);
    ThreeByThreeCount(SemiCritical);
    CountsFromCells(Toggled(AllSea(3, 3), 1, 1), 4, 4);
  }

  lemma {:induction false} CountRowOfConstant(n: nat, v: int)
    ensures CountRow(seq(n, _ => v), v) == n
  {
    if n > 0 {
      assert seq(n, _ => v)[..n - 1] == seq(n - 1, _ => v);
      CountRowOfConstant(n - 1, v);
    }
  }

  lemma ChannelCodes(cols: nat)
    ensures DisplayMask(AllSea(1, cols)) == [seq(cols, _ => 5)]
  {
    var m := AllSea(1, cols);
    var d := DisplayMask(m);
    forall i | 0 <= i < cols ensures d[0][i] == 5 {
      assert !HasSeaPair(m, 0, i);
      CodeMeaning(m, 0, i);
    }
    assert d[0] == seq(cols, _ => 5);
  }

  /** In an all-sea channel one row high every cell is critical: its north
      and south neighbours are the land frame, so no corner-sharing pair of
      orthogonal neighbours is sea. */
  lemma ChannelIsCritical(cols: nat)
    ensures CriticalCount(AllSea(1, cols)) == cols
    ensures SemiCriticalCount(AllSea(1, cols)) == 0
  {
    var row := seq(cols, _ => 5);
    ChannelCodes(cols);
    var g: Matrix := [row];
    assert g[..0] == [];
    assert CountGrid(g, 5) == CountRow(row, 5);
    assert CountGrid(g, 4) == CountRow(row, 4);
    CountRowOfConstant(cols, 5);
    ZeroCountOfConstant(cols, 5, 4);
  }

  lemma {:induction false} ZeroCountOfConstant(n: nat, v: int, w: int)
    requires v != w
    ensures CountRow(seq(n, _ => v), w) == 0
  {
    if n > 0 {
      assert seq(n, _ => v)[..n - 1] == seq(n - 1, _ => v);
      ZeroCountOfConstant(n - 1, v, w);
    }
  }
}
