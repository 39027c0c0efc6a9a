/** The cell classifier `display_mask`: every cell of the mask gets a display
    code from its own value and its eight neighbours, read from the mask
    surrounded by a one-cell frame of land.

    Codes: 0/1 land, 2/3 normal sea (both with the checkerboard tag
    `(j + i) % 2`), 4 semi-critical sea, 5 critical sea. */
module Classifier {
  import opened Grid
  import opened Counting

  /** The eight neighbours of a cell. North is the next row (`j + 1`), south
      the previous one, east the next column (`i + 1`), west the previous one. */
  datatype Neighbourhood = Neighbourhood(
    s: int, n: int, w: int, e: int,
    nw: int, ne: int, se: int, sw: int)

  /** `B0`: the mask inside a frame of zeros one cell wide. */
  function Framed(m: Matrix): (b: Matrix)
    requires IsRect(m)
    ensures |b| == |m| + 2
    ensures forall r :: 0 <= r < |b| ==> |b[r]| == Width(m) + 2
    ensures forall r, c :: 0 <= r < |b| && 0 <= c < Width(m) + 2 ==> b[r][c] == Cell(m, r - 1, c - 1)
  {
    seq(|m| + 2, r =>
      seq(Width(m) + 2, c =>
        if 1 <= r <= |m| && 1 <= c <= Width(m) then m[r - 1][c - 1] else 0))
  }

  /** The neighbours of cell `(j, i)`, read through the shifted slices of the
      framed mask (`MS = B0[:-2, 1:-1]`, `MN = B0[2:, 1:-1]`, ...). A neighbour
      outside the window is land. */
  function Around(m: Matrix, j: int, i: int): (nb: Neighbourhood)
    requires IsRect(m) && InWindow(m, j, i)
    ensures nb == Neighbourhood(
      Cell(m, j - 1, i), Cell(m, j + 1, i), Cell(m, j, i - 1), Cell(m, j, i + 1),
      Cell(m, j + 1, i - 1), Cell(m, j + 1, i + 1), Cell(m, j - 1, i + 1), Cell(m, j - 1, i - 1))
  {
    var b := Framed(m);
    Neighbourhood(
      s := b[j][i + 1], n := b[j + 2][i + 1], w := b[j + 1][i], e := b[j + 1][i + 2],
      nw := b[j + 2][i], ne := b[j + 2][i + 2], se := b[j][i + 2], sw := b[j][i])
  }

  /** `Q`: the products of the four orthogonal neighbour pairs that share a corner. */
  function Q(nb: Neighbourhood): int {
    nb.s * nb.w + nb.w * nb.n + nb.n * nb.e + nb.e * nb.s
  }

  /** `Q2`: the products over the four 2x2 blocks that hold the cell. */
  function Q2(nb: Neighbourhood): int {
    nb.sw * nb.s * nb.w + nb.nw * nb.n * nb.w + nb.ne * nb.n * nb.e + nb.se * nb.s * nb.e
  }

  /** `A`: the checkerboard pattern of 0 and 1. */
  function Parity(j: nat, i: nat): (p: int)
    ensures p == 0 || p == 1
  {
    (j + i) % 2
  }

  /** The code of a cell with value `v`, parity tag `p` and neighbour sums
      `q` and `q2`: `2 * v + p`, then 4 where the cell is sea with `q > 0`
      and `q2 == 0`, then 5 where it is sea with `q == 0`. */
  function CellCode(v: int, p: int, q: int, q2: int): int {
    var base := 2 * v + p;
    var marked := if v > 0 && q > 0 && q2 == 0 then 4 else base;
    if v > 0 && q == 0 then 5 else marked
  }

  /** The code `display_mask` gives cell `(j, i)`. */
  function Code(m: Matrix, j: nat, i: nat): int
    requires IsRect(m) && InWindow(m, j, i)
  {
    var nb := Around(m, j, i);
    CellCode(m[j][i], Parity(j, i), Q(nb), Q2(nb))
  }

  /** `display_mask(M)`: the code of every cell, in the shape of the mask. */
  function DisplayMask(m: Matrix): (d: Matrix)
    requires IsRect(m)
    ensures |d| == |m| && forall j :: 0 <= j < |d| ==> |d[j]| == Width(m)
    ensures IsRect(d) && Width(d) == Width(m)
    ensures forall j, i :: 0 <= j < |m| && 0 <= i < Width(m) ==> d[j][i] == Code(m, j, i)
  {
    var w := Width(m);
    var row := (j: int) requires 0 <= j < |m| =>
      seq(w, i requires 0 <= i < w => Code(m, j, i));
    seq(|m|, j requires 0 <= j < |m| => row(j))
  }

  /** Number of critical cells reported at start-up: `np.sum(M2 == 5)`. */
  function CriticalCount(m: Matrix): nat
    requires IsRect(m)
  {
    CountGrid(DisplayMask(m), 5)
  }

  /** Number of semi-critical cells reported at start-up: `np.sum(M2 == 4)`. */
  function SemiCriticalCount(m: Matrix): nat
    requires IsRect(m)
  {
    CountGrid(DisplayMask(m), 4)
  }

  // ---------------------------------------------------------------------
  // What the codes mean, stated without the products.

  datatype Status = Land | NormalSea | SemiCritical | Critical

  /** The orthogonal neighbours one row `dj` and one column `di` away are both sea. */
  predicate PairSea(m: Matrix, j: int, i: int, dj: int, di: int)
    requires IsRect(m)
  {
    Cell(m, j + dj, i) == 1 && Cell(m, j, i + di) == 1
  }

  /** The 2x2 block spanned by the cell and its diagonal neighbour `(j + dj, i + di)`
      is all sea apart from (possibly) the cell itself. */
  predicate BlockSea(m: Matrix, j: int, i: int, dj: int, di: int)
    requires IsRect(m)
  {
    PairSea(m, j, i, dj, di) && Cell(m, j + dj, i + di) == 1
  }

  /** Some two corner-sharing orthogonal neighbours are both sea. */
  predicate HasSeaPair(m: Matrix, j: int, i: int)
    requires IsRect(m)
  {
    PairSea(m, j, i, -1, -1) || PairSea(m, j, i, 1, -1) ||
    PairSea(m, j, i, 1, 1) || PairSea(m, j, i, -1, 1)
  }

  /** The cell lies in a 2x2 block whose other three cells are sea. */
  predicate InSeaBlock(m: Matrix, j: int, i: int)
    requires IsRect(m)
  {
    BlockSea(m, j, i, -1, -1) || BlockSea(m, j, i, 1, -1) ||
    BlockSea(m, j, i, 1, 1) || BlockSea(m, j, i, -1, 1)
  }

  /** The classification the codes display. */
  function StatusOf(m: Matrix, j: int, i: int): Status
    requires IsRect(m) && InWindow(m, j, i)
  {
    if m[j][i] <= 0 then Land
    else if !HasSeaPair(m, j, i) then Critical
    else if !InSeaBlock(m, j, i) then SemiCritical
    else NormalSea
  }

  /** How the colour map reads a code back. */
  function StatusOfCode(c: int): Status {
    if c <= 1 then Land
    else if c <= 3 then NormalSea
    else if c == 4 then SemiCritical
    else Critical
  }

  predicate Bit(x: int) {
    x == 0 || x == 1
  }

  predicate IsBits(nb: Neighbourhood) {
    Bit(nb.s) && Bit(nb.n) && Bit(nb.w) && Bit(nb.e) &&
    Bit(nb.nw) && Bit(nb.ne) && Bit(nb.se) && Bit(nb.sw)
  }

  /** Two corner-sharing orthogonal neighbours are both sea. */
  predicate PairIn(nb: Neighbourhood) {
    (nb.s == 1 && nb.w == 1) || (nb.n == 1 && nb.w == 1) ||
    (nb.n == 1 && nb.e == 1) || (nb.s == 1 && nb.e == 1)
  }

  /** The three other cells of one of the four 2x2 blocks are sea. */
  predicate BlockIn(nb: Neighbourhood) {
    (nb.sw == 1 && nb.s == 1 && nb.w == 1) || (nb.nw == 1 && nb.n == 1 && nb.w == 1) ||
    (nb.ne == 1 && nb.n == 1 && nb.e == 1) || (nb.se == 1 && nb.s == 1 && nb.e == 1)
  }

  lemma BitProduct(a: int, b: int)
    requires Bit(a) && Bit(b)
    ensures a * b == (if a == 1 && b == 1 then 1 else 0)
  {
    if a == 0 { assert a * b == 0; }
  }

  lemma BitTriple(a: int, b: int, c: int)
    requires Bit(a) && Bit(b) && Bit(c)
    ensures a * b * c == (if a == 1 && b == 1 && c == 1 then 1 else 0)
  {
    BitProduct(a, b);
    BitProduct(a * b, c);
  }

  /** On a 0/1 neighbourhood `Q` counts the sea pairs: it is positive exactly
      when two corner-sharing orthogonal neighbours are both sea. */
  lemma QCountsPairs(nb: Neighbourhood)
    requires IsBits(nb)
    ensures Q(nb) >= 0
    ensures Q(nb) > 0 <==> PairIn(nb)
  {
    BitProduct(nb.s, nb.w);
    BitProduct(nb.w, nb.n);
    BitProduct(nb.n, nb.e);
    BitProduct(nb.e, nb.s);
  }

  /** On a 0/1 neighbourhood `Q2` is positive exactly when some 2x2 block
      through the cell is sea in its three other cells. */
  lemma Q2CountsBlocks(nb: Neighbourhood)
    requires IsBits(nb)
    ensures Q2(nb) >= 0
    ensures Q2(nb) > 0 <==> BlockIn(nb)
  {
    BitTriple(nb.sw, nb.s, nb.w);
    BitTriple(nb.nw, nb.n, nb.w);
    BitTriple(nb.ne, nb.n, nb.e);
    BitTriple(nb.se, nb.s, nb.e);
  }

  /** Each `Q2` term holds a `Q` term as a factor, so `Q2 > 0` forces `Q > 0`:
      a critical cell (`Q == 0`) is never also in a sea block, and the two
      overwrites in `display_mask` never touch the same cell. */
  lemma Q2ImpliesQ(nb: Neighbourhood)
    requires IsBits(nb)
    ensures Q2(nb) > 0 ==> Q(nb) > 0
  {
    QCountsPairs(nb);
    Q2CountsBlocks(nb);
  }

  lemma AroundIsBits(m: Matrix, j: int, i: int)
    requires IsRect(m) && IsBinary(m) && InWindow(m, j, i)
    ensures IsBits(Around(m, j, i))
  {
  }

  /** On a 0/1 mask `Q > 0` and `Q2 > 0` mean exactly "has a sea pair" and
      "lies in a sea block". */
  lemma QMeaning(m: Matrix, j: nat, i: nat)
    requires IsRect(m) && IsBinary(m) && InWindow(m, j, i)
    ensures Q(Around(m, j, i)) > 0 <==> HasSeaPair(m, j, i)
    ensures Q2(Around(m, j, i)) > 0 <==> InSeaBlock(m, j, i)
    ensures Q(Around(m, j, i)) >= 0 && Q2(Around(m, j, i)) >= 0
  {
    var nb := Around(m, j, i);
    AroundIsBits(m, j, i);
    QCountsPairs(nb);
    Q2CountsBlocks(nb);
  }

  /** The status of a cell with value `v` and neighbours `nb`. */
  function Classify(v: int, nb: Neighbourhood): Status {
    if v <= 0 then Land
    else if !PairIn(nb) then Critical
    else if !BlockIn(nb) then SemiCritical
    else NormalSea
  }

  /** For a 0/1 cell and non-negative sums the code is in 0..5 and the colour
      map reads back: land, critical exactly when `q == 0`, semi-critical
      exactly when `q > 0` and `q2 == 0`, normal sea otherwise. Checking the
      critical case last does not matter: the two overwrites exclude each other. */
  lemma CellCodeMeaning(v: int, p: int, q: int, q2: int)
    requires Bit(v) && Bit(p) && q >= 0 && q2 >= 0
    ensures 0 <= CellCode(v, p, q, q2) <= 5
    ensures StatusOfCode(CellCode(v, p, q, q2)) ==
      if v == 0 then Land else if q == 0 then Critical else if q2 == 0 then SemiCritical else NormalSea
    ensures v == 0 ==> CellCode(v, p, q, q2) == p
    ensures v == 1 && q > 0 && q2 > 0 ==> CellCode(v, p, q, q2) == 2 + p
  {
  }

  /** Reading the neighbours through the frame gives the status defined on
      the mask itself. */
  lemma StatusThroughFrame(m: Matrix, j: nat, i: nat)
    requires IsRect(m) && InWindow(m, j, i)
    ensures StatusOf(m, j, i) == Classify(m[j][i], Around(m, j, i))
  {
  }

  /** On a 0/1 mask the code is in 0..5 and tells the cell's status: land
      cells get their parity, normal sea `2 + parity`, semi-critical 4 and
      critical 5. */
  lemma CodeMeaning(m: Matrix, j: nat, i: nat)
    requires IsRect(m) && IsBinary(m) && InWindow(m, j, i)
    ensures 0 <= Code(m, j, i) <= 5
    ensures StatusOfCode(Code(m, j, i)) == StatusOf(m, j, i)
    ensures StatusOf(m, j, i) == Land ==> Code(m, j, i) == Parity(j, i)
    ensures StatusOf(m, j, i) == NormalSea ==> Code(m, j, i) == 2 + Parity(j, i)
  {
    var nb := Around(m, j, i);
    AroundIsBits(m, j, i);
    QCountsPairs(nb);
    Q2CountsBlocks(nb);
    CellCodeMeaning(m[j][i], Parity(j, i), Q(nb), Q2(nb));
    StatusThroughFrame(m, j, i);
  }

  /** Every code of `DisplayMask` is in 0..5 on a 0/1 mask. */
  lemma DisplayMaskRange(m: Matrix)
    requires IsRect(m) && IsBinary(m)
    ensures forall j, i :: 0 <= j < |m| && 0 <= i < Width(m) ==> 0 <= DisplayMask(m)[j][i] <= 5
  {
    forall j, i | 0 <= j < |m| && 0 <= i < Width(m)
      ensures 0 <= DisplayMask(m)[j][i] <= 5
    {
      CodeMeaning(m, j, i);
    }
  }

  /** The cells of the window that have status `st`. */
  ghost function CellsWithStatus(m: Matrix, st: Status): set<(int, int)>
    requires IsRect(m)
  {
    set j, i | 0 <= j < |m| && 0 <= i < Width(m) && StatusOf(m, j, i) == st :: (j, i)
  }

  lemma CodeCells(m: Matrix, code: int, st: Status)
    requires IsRect(m) && IsBinary(m)
    requires (code == 5 && st == Critical) || (code == 4 && st == SemiCritical)
    ensures CellsWith(DisplayMask(m), code) == CellsWithStatus(m, st)
  {
    var d := DisplayMask(m);
    forall j, i | 0 <= j < |m| && 0 <= i < Width(m)
      ensures d[j][i] == code <==> StatusOf(m, j, i) == st
    {
      CodeMeaning(m, j, i);
    }
  }

  /** The reported counts are the numbers of critical and semi-critical cells:
      sea cells with `Q == 0`, and sea cells with `Q > 0` and `Q2 == 0`. */
  lemma ReportedCounts(m: Matrix)
    requires IsRect(m) && IsBinary(m)
    ensures CriticalCount(m) == |CellsWithStatus(m, Critical)|
    ensures SemiCriticalCount(m) == |CellsWithStatus(m, SemiCritical)|
  {
    GridCount(DisplayMask(m), 5);
    GridCount(DisplayMask(m), 4);
    CodeCells(m, 5, Critical);
    CodeCells(m, 4, SemiCritical);
  }

  /** A cell's code depends only on the cell and its eight neighbours. */
  lemma CodeIsLocal(m: Matrix, m': Matrix, j: nat, i: nat)
    requires IsRect(m) && IsRect(m') && |m| == |m'| && Width(m) == Width(m')
    requires InWindow(m, j, i)
    requires forall r, c :: j - 1 <= r <= j + 1 && i - 1 <= c <= i + 1 ==> Cell(m, r, c) == Cell(m', r, c)
    ensures Code(m, j, i) == Code(m', j, i)
  {
    assert Cell(m, j, i) == Cell(m', j, i);
    assert Around(m, j, i) == Around(m', j, i);
  }
}
