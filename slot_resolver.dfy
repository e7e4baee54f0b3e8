/** Slot resolution: which slot the dragged item would drop into, judged by
    one cell from the position of the dragged item's edges relative to the
    cell's own midpoint, and where the gap placeholder is drawn. */
module SlotResolver {
  import opened CellModel

  /** getIsAfterActive: the cell comes after the dragged one in list order;
      the dragged cell itself is never after itself. */
  predicate IsAfterActive(currentIndex: int, activeIndex: int): (r: bool)
    ensures r ==> currentIndex != activeIndex
  {
    currentIndex > activeIndex
  }

  /** The trailing edge of the dragged item: the coordinate cells after it test. */
  function TrailingEdge(f: Frame): real
  {
    f.hoverOffset + f.activeCellSize
  }

  function Midpoint(f: Frame): real
  {
    f.offset + f.size / 2.0
  }

  /** x lies on the cell's span [offset, offset + size). */
  predicate InSpan(f: Frame, x: real)
  {
    f.offset <= x < f.offset + f.size
  }

  /** x lies on the first half [offset, offset + size/2) of the cell. */
  predicate InFirstHalf(f: Frame, x: real)
  {
    f.offset <= x < Midpoint(f)
  }

  /** x lies on the second half [offset + size/2, offset + size) of the cell. */
  predicate InSecondHalf(f: Frame, x: real)
  {
    Midpoint(f) <= x < f.offset + f.size
  }

  /** The two halves never overlap and together are exactly the cell's span,
      whatever the size, so at most one of the two zone tests of a cell
      fires, and one fires whenever the tested edge is on the cell. */
  lemma HalvesPartitionSpan(f: Frame, x: real)
    ensures !(InFirstHalf(f, x) && InSecondHalf(f, x))
    ensures InFirstHalf(f, x) || InSecondHalf(f, x) <==> InSpan(f, x)
  {
  }

  /** The cell writes the spacer index this frame: the edge it tests lies on it. */
  predicate WritesSpacer(f: Frame)
  {
    if IsAfterActive(f.currentIndex, f.activeIndex) then InSpan(f, TrailingEdge(f))
    else if f.currentIndex < f.activeIndex then InSpan(f, f.hoverOffset)
    else false
  }

  /** The spacer index after this cell's two zone tests, starting from
      spacerIndex. A cell after the dragged one tests the dragged item's
      trailing edge and proposes its own slot or the one before it; a cell
      before the dragged one tests the leading edge (hoverOffset) and proposes
      its own slot or the one after it; the dragged cell proposes nothing. */
  function ResolveSpacer(f: Frame, spacerIndex: int): (r: int)
    ensures IsAfterActive(f.currentIndex, f.activeIndex) && InSpan(f, TrailingEdge(f)) ==>
              r == if TrailingEdge(f) < Midpoint(f) then f.currentIndex - 1 else f.currentIndex
    ensures f.currentIndex < f.activeIndex && InSpan(f, f.hoverOffset) ==>
              r == if f.hoverOffset < Midpoint(f) then f.currentIndex else f.currentIndex + 1
    ensures !WritesSpacer(f) ==> r == spacerIndex
    ensures r == spacerIndex || f.activeIndex <= r <= f.currentIndex || f.currentIndex <= r <= f.activeIndex
  {
    if IsAfterActive(f.currentIndex, f.activeIndex) then
      var lead := TrailingEdge(f);
      var s1 := if InFirstHalf(f, lead) then f.currentIndex - 1 else spacerIndex;
      if InSecondHalf(f, lead) then f.currentIndex else s1
    else if f.currentIndex < f.activeIndex then
      var s1 := if InSecondHalf(f, f.hoverOffset) then f.currentIndex + 1 else spacerIndex;
      if InFirstHalf(f, f.hoverOffset) then f.currentIndex else s1
    else
      spacerIndex
  }

  /** Resolving twice in one frame gives what resolving once gives. */
  lemma ResolveSpacerIdempotent(f: Frame, spacerIndex: int)
    ensures ResolveSpacer(f, ResolveSpacer(f, spacerIndex)) == ResolveSpacer(f, spacerIndex)
  {
  }

  /** The placeholder offset after this cell's turn: when the spacer is this
      cell's slot, the gap is drawn at the cell's leading edge, or, for a cell
      after the dragged one, so that it ends at the cell's trailing edge (the
      dragged cell has left the flow above it); otherwise it is left as it was. */
  function PlaceholderOffset(f: Frame, spacerIndex: int, placeholderOffset: real): (r: real)
    ensures spacerIndex != f.currentIndex ==> r == placeholderOffset
    ensures spacerIndex == f.currentIndex && IsAfterActive(f.currentIndex, f.activeIndex) ==>
              r + f.activeCellSize == f.offset + f.size
    ensures spacerIndex == f.currentIndex && !IsAfterActive(f.currentIndex, f.activeIndex) ==>
              r == f.offset
  {
    if spacerIndex == f.currentIndex then
      if IsAfterActive(f.currentIndex, f.activeIndex) then f.offset - f.activeCellSize + f.size else f.offset
    else
      placeholderOffset
  }
}
