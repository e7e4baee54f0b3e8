/** Translation targets: how far a cell must be moved to open the gap for the
    resolved slot, and where the released dragged cell settles. */
module TargetCalculator {
  import opened CellModel
  import opened SlotResolver

  /** The resolved slot has moved past this cell, so it must make room. */
  predicate HasPassed(f: Frame, spacerIndex: int)
  {
    if IsAfterActive(f.currentIndex, f.activeIndex) then f.currentIndex <= spacerIndex
    else f.currentIndex >= spacerIndex
  }

  /** toValue of a cell that is not being dragged: a passed cell after the
      dragged one moves up by the dragged cell's size, a passed cell before it
      moves down by that size, every other cell returns to its own place. */
  function NonActiveTarget(f: Frame, spacerIndex: int): (r: real)
    ensures r == 0.0 || r == f.activeCellSize || r == -f.activeCellSize
    ensures IsAfterActive(f.currentIndex, f.activeIndex) && f.currentIndex <= spacerIndex ==>
              r == -f.activeCellSize
    ensures !IsAfterActive(f.currentIndex, f.activeIndex) && f.currentIndex >= spacerIndex ==>
              r == f.activeCellSize
    ensures (IsAfterActive(f.currentIndex, f.activeIndex) && spacerIndex < f.currentIndex) ||
            (!IsAfterActive(f.currentIndex, f.activeIndex) && f.currentIndex < spacerIndex) ==>
              r == 0.0
  {
    if HasPassed(f, spacerIndex) then
      if IsAfterActive(f.currentIndex, f.activeIndex) then -f.activeCellSize else f.activeCellSize
    else
      0.0
  }

  /** toValue of the dragged cell once released: the translation that brings
      it from its own layout offset onto the placeholder. */
  function ReleaseTarget(f: Frame, placeholderOffset: real): (r: real)
    ensures f.offset + r == placeholderOffset
  {
    placeholderOffset - f.offset
  }

  /** The same cell seen with list order reversed: "before" and "after" swap. */
  function Mirror(f: Frame): Frame
  {
    f.(currentIndex := -f.currentIndex, activeIndex := -f.activeIndex)
  }

  /** The shift policy is symmetric: reversing list order (and so the spacer
      index) negates every non-dragged cell's target. */
  lemma MirroredTargetIsNegated(f: Frame, spacerIndex: int)
    requires f.currentIndex != f.activeIndex
    ensures NonActiveTarget(Mirror(f), -spacerIndex) == -NonActiveTarget(f, spacerIndex)
  {
  }
}
