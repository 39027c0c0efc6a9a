/** The window of the full grid being edited. A missing upper bound of the
    window (`i1` or `j1` left as `None`) is filled in from the extent of the
    mask that the slice `[j0:j1, i0:i1]` delivered. */
module Window {

  datatype Option<T> = None | Some(value: T)

  /** Number of entries the slice `[lo:hi]` takes from an axis of length
      `full`, for non-negative bounds; a missing `hi` means the end of the axis. */
  function SliceLength(full: nat, lo: nat, hi: Option<nat>): nat {
    var stop := match hi
      case None => full
      case Some(h) => if h < full then h else full;
    if stop > lo then stop - lo else 0
  }

  /** `if i1 is None: i1 = i0 + imax`. */
  function CompleteUpper(lo: nat, hi: Option<nat>, extent: nat): nat {
    match hi
    case None => lo + extent
    case Some(h) => h
  }

  /** For a window inside the grid, the completed upper bound closes a window
      of exactly as many cells as the mask has along that axis, it reaches the
      end of the axis when no bound was given, and a full-grid index lies in
      the window exactly when its local index lies in the mask. */
  lemma WindowCompletion(full: nat, lo: nat, hi: Option<nat>, x: int)
    requires lo <= full
    requires hi.Some? ==> lo <= hi.value <= full
    ensures var extent := SliceLength(full, lo, hi);
      var up := CompleteUpper(lo, hi, extent);
      && up - lo == extent
      && lo <= up <= full
      && (hi.None? ==> up == full)
      && (hi.Some? ==> up == hi.value)
      && (lo <= x < up <==> 0 <= x - lo < extent)
  {
  }
}
