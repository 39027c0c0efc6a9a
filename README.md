# editmask — land/sea mask classifier and cell toggle, in Dafny

This project models the core of `editmask.py`, an interactive editor for the
land/sea mask of a structured ocean-model grid (0 = land, 1 = sea). The
editor shows every cell of a rectangular window of the mask with a colour
code. The code flags sea cells whose neighbourhood would break the model's
finite-difference stencils:

* **critical** (code 5): no two corner-sharing orthogonal neighbours are both
  sea (`Q == 0`);
* **semi-critical** (code 4): some such pair exists, but the cell is in no
  2x2 block of sea (`Q > 0`, `Q2 == 0`);
* normal sea (codes 2/3) and land (codes 0/1), each with a checkerboard tag.

A click toggles one cell in place. At start-up the editor reports how many
cells are critical and how many are semi-critical.

Modules (all files are verified together):

* `grid.dfy` (`Grid`): the mask as a rectangular `seq<seq<int>>`, indexed
  `[j][i]` (row, column), and the read of a cell with land outside the window.
* `counting.dfy` (`Counting`): `np.sum(M2 == v)` as a row-by-row count,
  proved equal to the number of cells that hold `v`.
* `classifier.dfy` (`Classifier`): `display_mask`. It frames the mask with
  zeros, reads the eight neighbours through the shifted slices, forms `Q`
  and `Q2`, and assigns the codes in the source's order: base, then 4, then 5.
  It then gives a reference classification stated directly on the mask
  (pairs and 2x2 blocks of sea) and proves that the codes match it.
* `editor.dfy` (`Editor`): the toggle of `click`. It is a method that changes
  one element of an `array2<int>` in place, specified by a function on the
  mask's contents.
* `window.dfy` (`Window`): filling in a missing upper window bound.
* `scenarios.dfy` (`Scenarios`): consequences for particular masks.
  * An isolated sea cell is critical.
  * An all-sea window has no warnings.
  * A one-row channel is entirely critical.
  * A land cell toggled into an all-sea window leaves no warnings when it is
    at least two cells from the border. The 5x5 window with its centre
    toggled is one case.
  * The 3x3 window with its centre toggled has 4 critical cells and 4
    semi-critical cells.

Orientation, from the slices of lines 109-116: `MS` is row `j - 1`, `MN` row
`j + 1`, `MW` column `i - 1`, `ME` column `i + 1`.

What the code does, as modelled (it differs from what one might expect of such an editor):

* The code does not check the clicked cell against the window. The model
  requires the click to be inside it. There is no out-of-range error.
* The code has no dirty flag, no undo and no atomic save.
* Toggling the centre of a 5x5 all-sea window leaves every remaining sea cell
  normal. Each still lies in a 2x2 block of sea on the side away from the
  new land cell.
* The status of a cell next to a new land cell depends on its distance from
  the border. In the 3x3 case the edge cells become critical, not only
  semi-critical.

## Model

| member | source | states |
|---|---|---|
| `Grid.Cell` | editmask.py:106-108 | a position outside the window reads as land (0), and on a 0/1 mask every read is 0 or 1 |
| `Classifier.Framed` | editmask.py:106-108 | `B0` is two rows and two columns larger than the mask; each entry is the mask cell it covers, and the one-cell frame around the mask is zero |
| `Classifier.Around` | editmask.py:109-116 | the eight shifted slices give, for every cell, the values of its eight neighbours (north = next row, east = next column), with land outside the window |
| `Classifier.StatusThroughFrame` | editmask.py:106-121 | classifying from the neighbours read through the frame gives the status defined directly on the mask |
| `Classifier.QCountsPairs` | editmask.py:120 | on 0/1 inputs `Q >= 0`, and `Q > 0` exactly when two corner-sharing orthogonal neighbours are both sea |
| `Classifier.Q2CountsBlocks` | editmask.py:121 | on 0/1 inputs `Q2 >= 0`, and `Q2 > 0` exactly when the three other cells of some 2x2 block through the cell are sea |
| `Classifier.Q2ImpliesQ` | editmask.py:120-121 | `Q2 > 0` forces `Q > 0`: every `Q2` term has a `Q` term as a factor |
| `Classifier.QMeaning` | editmask.py:118-121 | on a 0/1 mask, `Q > 0` iff the cell has a sea pair and `Q2 > 0` iff it lies in a sea block (both directions); both sums are non-negative |
| `Classifier.Parity` | editmask.py:156 | the checkerboard tag is 0 or 1 |
| `Classifier.CellCodeMeaning` | editmask.py:125-129 | for a 0/1 cell and non-negative sums, the code is in 0..5. It is 5 exactly for sea with `Q == 0` and 4 exactly for sea with `Q > 0, Q2 == 0`; otherwise it is the parity on land and 2 + parity on normal sea. The two overwrites exclude each other, so their order does not matter |
| `Classifier.CodeMeaning` | editmask.py:125-129 | on a 0/1 mask each cell's code is in 0..5 and decodes to the reference status. Land gets the parity (never 4 or 5), normal sea gets 2 + parity, semi-critical gets 4, critical gets 5 |
| `Classifier.DisplayMask` | editmask.py:103-131 | the result has the shape of the mask and holds the code of every cell |
| `Classifier.DisplayMaskRange` | editmask.py:123-129 | on a 0/1 mask every entry of the display array lies in 0..5 |
| `Classifier.ReportedCounts` | editmask.py:159-160 | the two printed counts are the number of critical cells and the number of semi-critical cells |
| `Classifier.CodeIsLocal` | editmask.py:109-121 | a cell's code depends only on the cell and its eight neighbours |
| `Counting.GridCount` | editmask.py:159-160 | the row-by-row count of entries equal to `v` is the number of positions holding `v` |
| `Editor.Flip` | editmask.py:57-60 | the new value is 0 or 1, and 0 exactly when the old value is above 0.5 (for integers, at least 1) |
| `Editor.Toggled` | editmask.py:57-60 | only the clicked cell changes, to its flipped value; the shape is kept and a 0/1 mask stays 0/1 |
| `Editor.ToggleTwice` | editmask.py:57-60 | two toggles of the same cell restore a 0/1 mask |
| `Editor.ToggleChangesOnlyNearbyCodes` | editmask.py:57-60 | after a toggle, every cell more than one row or column from the toggled cell keeps its code |
| `Editor.Click` | editmask.py:57-60 | full-grid `(i, j)` is local `(j - j0, i - i0)`; that element of the array is set to 0 if it was above 0.5 and to 1 otherwise; every other element is unchanged; the new contents are `Toggled` of the old |
| `Window.WindowCompletion` | editmask.py:143-146 | for a window inside the grid, the completed upper bound encloses exactly as many cells as the sliced mask has. Without a bound it reaches the end of the axis. A full-grid index is in the window iff its local index is in the mask |
| `Scenarios.IsolatedSeaIsCritical` | editmask.py:118-129 | a sea cell with all eight neighbours land gets code 5 |
| `Scenarios.SeaBlockIsNormal` | editmask.py:119-127 | a sea cell in a 2x2 block of sea is normal sea with code 2 + parity |
| `Scenarios.NoWarningsWhenBlocked` | editmask.py:118-129 | if every sea cell lies in a 2x2 block of sea, both reported counts are 0 |
| `Scenarios.AllSeaHasNoWarnings` | editmask.py:106-129 | an all-sea window at least 2x2 reports 0 critical and 0 semi-critical cells |
| `Scenarios.ChannelIsCritical` | editmask.py:106-129 | an all-sea window one row high reports every cell critical and none semi-critical |
| `Scenarios.InteriorHoleHasNoWarnings` | editmask.py:57-60 | toggling to land a cell at least two cells from the border of an all-sea window leaves both counts at 0, and that cell shows as land |
| `Scenarios.FiveByFiveCentreToggle` | editmask.py:57-60 | the 5x5 all-sea window with its centre toggled reports 0 critical and 0 semi-critical cells |
| `Scenarios.ThreeByThreeStatuses` | editmask.py:118-129 | in the 3x3 all-sea window with its centre toggled, the edge cells are critical and the corners are semi-critical |
| `Scenarios.ThreeByThreeCentreToggle` | editmask.py:159-160 | the 3x3 all-sea window with its centre toggled reports 4 critical and 4 semi-critical cells |

## Left out

- Plotting, the colour map, figure redraw and the mouse and keyboard plumbing are matplotlib user-interface code. This covers `pcolormesh`, `clim`, `axis`, `plt.connect`, the toolbar-mode gate and `foreground`. `foreground` only recomputes `display_mask`, which is modelled.
- The netCDF file is not modelled: opening it, reading the mask slice, `savemask`, `sync` and `close` are foreign I/O. The mask is a parameter of the model.
- The key handler is not modelled: its save (`m`) and quit (`q`, `sys.exit`) are I/O and process exit.
- Reading the coastline file and drawing it only feed the plot.
- The cell-boundary coordinates `X`, `Y` are floating point and not modelled. The same goes for `round()` of the click coordinates, which is Python's round-half-to-even. The toggle takes integer cell indices.
- Editor.Click: requires the clicked cell to be inside the window. The code has no check. Under numpy indexing a negative local index wraps to the far side of the window, and a too-large one raises an exception.
- Editor.Flip: mask values are integers. Fractional values that the stored floating-point field might hold are not modelled; for integers the source's test `> 0.5` is the same as `>= 1`.
- Window.WindowCompletion: covers only non-negative window bounds. Python's negative slice bounds, which count from the end of the axis, are not modelled.
- The classification lemmas assume a 0/1 mask. `DisplayMask`, `Code` and the counts are defined for any integer mask, as the source computes them.
- The grid-initialisation script (`initmask.py`) is not part of this model. Its land decision is delegated to matplotlib's polygon containment.
- The coastline-extraction pipeline (`make_coast.py`) and the coastline plot (`plot_coast.py`) are not part of this model. They are projection and geometry library calls and plotting.
