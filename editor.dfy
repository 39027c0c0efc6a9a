/** The single-cell edit of the click handler: the clicked cell, given in
    full-grid indices `(i, j)`, is flipped in the window-local mask at
    `(j - j0, i - i0)`; sea (above 0.5) becomes land and anything else sea. */
module Editor {
  import opened Grid
  import opened Classifier

  /** The new value of a clicked cell. */
  function Flip(v: int): (r: int)
    ensures Bit(r)
    ensures r == 0 <==> v >= 1
  {
    if v as real > 0.5 then 0 else 1
  }

  /** The mask after flipping cell `(j, i)` (window-local indices). */
  function Toggled(m: Matrix, j: nat, i: nat): (t: Matrix)
    requires IsRect(m) && InWindow(m, j, i)
    ensures IsRect(t) && |t| == |m| && Width(t) == Width(m)
    ensures t[j][i] == Flip(m[j][i])
    ensures forall r, c :: InWindow(m, r, c) && (r, c) != (j, i) ==> t[r][c] == m[r][c]
    ensures IsBinary(m) ==> IsBinary(t)
  {
    m[j := m[j][i := Flip(m[j][i])]]
  }

  /** Two toggles of the same cell restore a 0/1 mask. */
  lemma ToggleTwice(m: Matrix, j: nat, i: nat)
    requires IsRect(m) && IsBinary(m) && InWindow(m, j, i)
    ensures Toggled(Toggled(m, j, i), j, i) == m
  {
    var t := Toggled(Toggled(m, j, i), j, i);
    forall r | 0 <= r < |m| ensures t[r] == m[r] {
      assert |t[r]| == |m[r]|;
    }
  }

  /** After a toggle only the codes of the toggled cell and its eight
      neighbours can change. */
  lemma ToggleChangesOnlyNearbyCodes(m: Matrix, tj: nat, ti: nat, j: nat, i: nat)
    requires IsRect(m) && InWindow(m, tj, ti) && InWindow(m, j, i)
    requires j < tj - 1 || j > tj + 1 || i < ti - 1 || i > ti + 1
    ensures Code(Toggled(m, tj, ti), j, i) == Code(m, j, i)
  {
    CodeIsLocal(Toggled(m, tj, ti), m, j, i);
  }

  /** The contents of a mask array, row by row. */
  function Contents(a: array2<int>): (m: Matrix)
    reads a
    ensures IsRect(m) && |m| == a.Length0
    ensures forall r :: 0 <= r < |m| ==> |m[r]| == a.Length1
    ensures forall r, c :: 0 <= r < a.Length0 && 0 <= c < a.Length1 ==> m[r][c] == a[r, c]
  {
    seq(a.Length0, r reads a requires 0 <= r < a.Length0 =>
      seq(a.Length1, c reads a requires 0 <= c < a.Length1 => a[r, c]))
  }

  /** The toggle body of `click`: the full-grid cell `(i, j)` is the local cell
      `(j - j0, i - i0)` of the mask `M`, which is changed in place. */
  method Click(mask: array2<int>, i0: int, j0: int, i: int, j: int)
    requires 0 <= j - j0 < mask.Length0 && 0 <= i - i0 < mask.Length1
    modifies mask
    ensures mask[j - j0, i - i0] == (if old(mask[j - j0, i - i0]) as real > 0.5 then 0 else 1)
    ensures forall r, c :: 0 <= r < mask.Length0 && 0 <= c < mask.Length1 && (r, c) != (j - j0, i - i0) ==>
      mask[r, c] == old(mask[r, c])
    ensures Contents(mask) == Toggled(old(Contents(mask)), j - j0, i - i0)
  {
    var r, c := j - j0, i - i0;
    if mask[r, c] as real > 0.5 {
      mask[r, c] := 0;
    } else {
      mask[r, c] := 1;
    }
    ghost var before := old(Contents(mask));
    ghost var after := Toggled(before, r, c);
    forall k | 0 <= k < mask.Length0 ensures Contents(mask)[k] == after[k] {
      assert |Contents(mask)[k]| == |after[k]|;
    }
  }
}
