/** The cells of one list, laid out back to back, all evaluated in the same
    frame against the same drag context: what their individual decisions
    add up to. */
module Layout {
  import opened CellModel
  import opened SlotResolver
  import opened TargetCalculator

  /** Cells of non-negative size, each starting where the previous one ends. */
  predicate Contiguous(offsets: seq<real>, sizes: seq<real>)
  {
    && |offsets| == |sizes|
    && (forall k :: 0 <= k < |sizes| ==> 0.0 <= sizes[k])
    && (forall k :: 0 <= k < |sizes| - 1 ==> offsets[k + 1] == offsets[k] + sizes[k])
  }

  /** The frame cell i sees while cell activeIndex is dragged. */
  function CellFrame(offsets: seq<real>, sizes: seq<real>, i: int, activeIndex: int,
                     hoverOffset: real, isPressedIn: bool): Frame
    requires |offsets| == |sizes| && 0 <= i < |sizes| && 0 <= activeIndex < |sizes|
  {
    Frame(i, sizes[i], offsets[i], activeIndex, sizes[activeIndex], hoverOffset, isPressedIn)
  }

  lemma {:induction false} EarlierCellEndsFirst(offsets: seq<real>, sizes: seq<real>, i: int, j: int)
    requires Contiguous(offsets, sizes)
    requires 0 <= i < j < |sizes|
    ensures offsets[i] + sizes[i] <= offsets[j]
    decreases j - i
  {
    if i + 1 < j {
      EarlierCellEndsFirst(offsets, sizes, i, j - 1);
      assert offsets[j] == offsets[j - 1] + sizes[j - 1];
    }
  }

  /** The side getIsAfterActive reports is the side the cell lies on: a cell
      after the dragged one starts at or below its trailing end, so it is the
      trailing edge that can reach it; any other cell but the dragged one ends
      at or above its leading edge, so it is the leading edge that can reach it. */
  lemma SideOfActive(offsets: seq<real>, sizes: seq<real>, activeIndex: int, k: int)
    requires Contiguous(offsets, sizes)
    requires 0 <= activeIndex < |sizes| && 0 <= k < |sizes| && k != activeIndex
    ensures IsAfterActive(k, activeIndex) ==> offsets[activeIndex] + sizes[activeIndex] <= offsets[k]
    ensures !IsAfterActive(k, activeIndex) ==> offsets[k] + sizes[k] <= offsets[activeIndex]
  {
    if IsAfterActive(k, activeIndex) {
      EarlierCellEndsFirst(offsets, sizes, activeIndex, k);
    } else {
      EarlierCellEndsFirst(offsets, sizes, k, activeIndex);
    }
  }

  /** In one frame at most one cell of the list writes the spacer index, so a
      spacer index shared by all cells does not depend on their order. */
  lemma AtMostOneCellWritesSpacer(offsets: seq<real>, sizes: seq<real>, activeIndex: int,
                                  hoverOffset: real, isPressedIn: bool, i: int, j: int)
    requires Contiguous(offsets, sizes)
    requires 0 <= activeIndex < |sizes| && 0 <= i < j < |sizes|
    ensures !(WritesSpacer(CellFrame(offsets, sizes, i, activeIndex, hoverOffset, isPressedIn)) &&
              WritesSpacer(CellFrame(offsets, sizes, j, activeIndex, hoverOffset, isPressedIn)))
  {
    if i < activeIndex < j {
      EarlierCellEndsFirst(offsets, sizes, i, activeIndex);
      EarlierCellEndsFirst(offsets, sizes, activeIndex, j);
    } else if i != activeIndex && j != activeIndex {
      EarlierCellEndsFirst(offsets, sizes, i, j);
    }
  }

  lemma ResolutionOrderIrrelevant(offsets: seq<real>, sizes: seq<real>, activeIndex: int,
                                  hoverOffset: real, isPressedIn: bool, i: int, j: int, spacerIndex: int)
    requires Contiguous(offsets, sizes)
    requires 0 <= activeIndex < |sizes| && 0 <= i < |sizes| && 0 <= j < |sizes|
    ensures var fi := CellFrame(offsets, sizes, i, activeIndex, hoverOffset, isPressedIn);
            var fj := CellFrame(offsets, sizes, j, activeIndex, hoverOffset, isPressedIn);
            ResolveSpacer(fi, ResolveSpacer(fj, spacerIndex)) == ResolveSpacer(fj, ResolveSpacer(fi, spacerIndex))
  {
    if i < j {
      AtMostOneCellWritesSpacer(offsets, sizes, activeIndex, hoverOffset, isPressedIn, i, j);
    } else if j < i {
      AtMostOneCellWritesSpacer(offsets, sizes, activeIndex, hoverOffset, isPressedIn, j, i);
    }
  }

  function MidpointOf(offsets: seq<real>, sizes: seq<real>, k: int): real
    requires |offsets| == |sizes| && 0 <= k < |sizes|
  {
    offsets[k] + sizes[k] / 2.0
  }

  /** The number of cells with index in [lo, hi) whose midpoint lies at or before x. */
  function MidpointsReached(offsets: seq<real>, sizes: seq<real>, lo: int, hi: int, x: real): nat
    requires |offsets| == |sizes| && 0 <= lo && hi <= |sizes|
    decreases hi - lo
  {
    if hi <= lo then 0
    else MidpointsReached(offsets, sizes, lo, hi - 1, x) + (if MidpointOf(offsets, sizes, hi - 1) <= x then 1 else 0)
  }

  lemma {:induction false} MidpointsAllReached(offsets: seq<real>, sizes: seq<real>, lo: int, hi: int, x: real)
    requires |offsets| == |sizes| && 0 <= lo <= hi <= |sizes|
    requires forall k :: lo <= k < hi ==> MidpointOf(offsets, sizes, k) <= x
    ensures MidpointsReached(offsets, sizes, lo, hi, x) == hi - lo
    decreases hi - lo
  {
    if lo < hi {
      MidpointsAllReached(offsets, sizes, lo, hi - 1, x);
    }
  }

  lemma {:induction false} MidpointsNoneReached(offsets: seq<real>, sizes: seq<real>, lo: int, hi: int, x: real)
    requires |offsets| == |sizes| && 0 <= lo <= hi <= |sizes|
    requires forall k :: lo <= k < hi ==> x < MidpointOf(offsets, sizes, k)
    ensures MidpointsReached(offsets, sizes, lo, hi, x) == 0
    decreases hi - lo
  {
    if lo < hi {
      MidpointsNoneReached(offsets, sizes, lo, hi - 1, x);
    }
  }

  lemma {:induction false} MidpointsSplit(offsets: seq<real>, sizes: seq<real>, lo: int, mid: int, hi: int, x: real)
    requires |offsets| == |sizes| && 0 <= lo <= mid <= hi <= |sizes|
    ensures MidpointsReached(offsets, sizes, lo, hi, x) ==
            MidpointsReached(offsets, sizes, lo, mid, x) + MidpointsReached(offsets, sizes, mid, hi, x)
    decreases hi - mid
  {
    if mid < hi {
      MidpointsSplit(offsets, sizes, lo, mid, hi - 1, x);
    }
  }

  /** The slot the dragged item would take judged by midpoints alone: above its
      origin, the number of earlier cells whose midpoint its leading edge has
      reached; below it, its own index plus the number of later cells whose
      midpoint its trailing edge has reached. */
  function MidpointSlot(offsets: seq<real>, sizes: seq<real>, activeIndex: int, hoverOffset: real): int
    requires |offsets| == |sizes| && 0 <= activeIndex < |sizes|
  {
    if hoverOffset < offsets[activeIndex] then
      MidpointsReached(offsets, sizes, 0, activeIndex, hoverOffset)
    else
      activeIndex + MidpointsReached(offsets, sizes, activeIndex + 1, |sizes|, hoverOffset + sizes[activeIndex])
  }

  lemma SlotBeforeActive(offsets: seq<real>, sizes: seq<real>, activeIndex: int,
                         hoverOffset: real, isPressedIn: bool, i: int, spacerIndex: int)
    requires Contiguous(offsets, sizes)
    requires 0 <= i < activeIndex < |sizes|
    requires offsets[i] <= hoverOffset < offsets[i] + sizes[i]
    ensures ResolveSpacer(CellFrame(offsets, sizes, i, activeIndex, hoverOffset, isPressedIn), spacerIndex) ==
            MidpointsReached(offsets, sizes, 0, activeIndex, hoverOffset)
  {
    MidpointsSplit(offsets, sizes, 0, i, activeIndex, hoverOffset);
    MidpointsSplit(offsets, sizes, i, i + 1, activeIndex, hoverOffset);
    forall k | 0 <= k < i
      ensures MidpointOf(offsets, sizes, k) <= hoverOffset
    {
      EarlierCellEndsFirst(offsets, sizes, k, i);
    }
    MidpointsAllReached(offsets, sizes, 0, i, hoverOffset);
    forall k | i + 1 <= k < activeIndex
      ensures hoverOffset < MidpointOf(offsets, sizes, k)
    {
      EarlierCellEndsFirst(offsets, sizes, i, k);
    }
    MidpointsNoneReached(offsets, sizes, i + 1, activeIndex, hoverOffset);
    assert MidpointsReached(offsets, sizes, i, i + 1, hoverOffset) ==
           if MidpointOf(offsets, sizes, i) <= hoverOffset then 1 else 0;
  }

  lemma SlotAfterActive(offsets: seq<real>, sizes: seq<real>, activeIndex: int,
                        hoverOffset: real, isPressedIn: bool, j: int, spacerIndex: int)
    requires Contiguous(offsets, sizes)
    requires 0 <= activeIndex < j < |sizes|
    requires offsets[j] <= hoverOffset + sizes[activeIndex] < offsets[j] + sizes[j]
    ensures ResolveSpacer(CellFrame(offsets, sizes, j, activeIndex, hoverOffset, isPressedIn), spacerIndex) ==
            activeIndex + MidpointsReached(offsets, sizes, activeIndex + 1, |sizes|, hoverOffset + sizes[activeIndex])
  {
    var lead := hoverOffset + sizes[activeIndex];
    MidpointsSplit(offsets, sizes, activeIndex + 1, j, |sizes|, lead);
    MidpointsSplit(offsets, sizes, j, j + 1, |sizes|, lead);
    forall k | activeIndex + 1 <= k < j
      ensures MidpointOf(offsets, sizes, k) <= lead
    {
      EarlierCellEndsFirst(offsets, sizes, k, j);
    }
    MidpointsAllReached(offsets, sizes, activeIndex + 1, j, lead);
    forall k | j + 1 <= k < |sizes|
      ensures lead < MidpointOf(offsets, sizes, k)
    {
      EarlierCellEndsFirst(offsets, sizes, j, k);
    }
    MidpointsNoneReached(offsets, sizes, j + 1, |sizes|, lead);
    assert MidpointsReached(offsets, sizes, j, j + 1, lead) ==
           if MidpointOf(offsets, sizes, j) <= lead then 1 else 0;
  }

  /** Whichever cell writes the spacer index, it writes the midpoint slot. */
  lemma ResolvedSlotIsMidpointSlot(offsets: seq<real>, sizes: seq<real>, activeIndex: int,
                                   hoverOffset: real, isPressedIn: bool, i: int, spacerIndex: int)
    requires Contiguous(offsets, sizes)
    requires 0 <= activeIndex < |sizes| && 0 <= i < |sizes|
    requires WritesSpacer(CellFrame(offsets, sizes, i, activeIndex, hoverOffset, isPressedIn))
    ensures ResolveSpacer(CellFrame(offsets, sizes, i, activeIndex, hoverOffset, isPressedIn), spacerIndex) ==
            MidpointSlot(offsets, sizes, activeIndex, hoverOffset)
  {
    if i < activeIndex {
      EarlierCellEndsFirst(offsets, sizes, i, activeIndex);
      SlotBeforeActive(offsets, sizes, activeIndex, hoverOffset, isPressedIn, i, spacerIndex);
    } else {
      EarlierCellEndsFirst(offsets, sizes, activeIndex, i);
      SlotAfterActive(offsets, sizes, activeIndex, hoverOffset, isPressedIn, i, spacerIndex);
    }
  }

  /** Where cell k is drawn once it has reached its target for slot p. */
  function Shown(offsets: seq<real>, sizes: seq<real>, activeIndex: int, p: int, k: int): real
    requires |offsets| == |sizes| && 0 <= k < |sizes| && 0 <= activeIndex < |sizes|
  {
    offsets[k] + NonActiveTarget(CellFrame(offsets, sizes, k, activeIndex, 0.0, false), p)
  }

  /** The placeholder offset cell p writes when p is the resolved slot. */
  function Placeholder(offsets: seq<real>, sizes: seq<real>, activeIndex: int, p: int): real
    requires |offsets| == |sizes| && 0 <= p < |sizes| && 0 <= activeIndex < |sizes|
  {
    PlaceholderOffset(CellFrame(offsets, sizes, p, activeIndex, 0.0, false), p, 0.0)
  }

  /** Slot below the dragged cell's origin: cells up to the slot move up and
      close the dragged cell's place, and the placeholder fills exactly the gap
      between the slot's cell and the one after it. */
  lemma GapBelowOrigin(offsets: seq<real>, sizes: seq<real>, activeIndex: int, p: int)
    requires Contiguous(offsets, sizes)
    requires 0 <= activeIndex < p < |sizes|
    ensures Shown(offsets, sizes, activeIndex, p, p) + sizes[p] == Placeholder(offsets, sizes, activeIndex, p)
    ensures p + 1 < |sizes| ==>
              Placeholder(offsets, sizes, activeIndex, p) + sizes[activeIndex] ==
              Shown(offsets, sizes, activeIndex, p, p + 1)
    ensures 0 < activeIndex ==>
              Shown(offsets, sizes, activeIndex, p, activeIndex - 1) + sizes[activeIndex - 1] ==
              Shown(offsets, sizes, activeIndex, p, activeIndex + 1)
    ensures activeIndex == 0 ==> Shown(offsets, sizes, activeIndex, p, 1) == offsets[0]
    ensures forall k :: 0 <= k < |sizes| - 1 && k + 1 != activeIndex && k != activeIndex && k != p ==>
              Shown(offsets, sizes, activeIndex, p, k) + sizes[k] == Shown(offsets, sizes, activeIndex, p, k + 1)
  {
  }

  /** Slot above the dragged cell's origin: cells from the slot on move down
      and close the dragged cell's place, and the placeholder fills exactly the
      gap between the cell before the slot and the slot's cell. */
  lemma GapAboveOrigin(offsets: seq<real>, sizes: seq<real>, activeIndex: int, p: int)
    requires Contiguous(offsets, sizes)
    requires 0 <= p < activeIndex < |sizes|
    ensures Placeholder(offsets, sizes, activeIndex, p) + sizes[activeIndex] ==
            Shown(offsets, sizes, activeIndex, p, p)
    ensures 0 < p ==>
              Shown(offsets, sizes, activeIndex, p, p - 1) + sizes[p - 1] == Placeholder(offsets, sizes, activeIndex, p)
    ensures activeIndex + 1 < |sizes| ==>
              Shown(offsets, sizes, activeIndex, p, activeIndex - 1) + sizes[activeIndex - 1] ==
              Shown(offsets, sizes, activeIndex, p, activeIndex + 1)
    ensures activeIndex == |sizes| - 1 ==>
              Shown(offsets, sizes, activeIndex, p, activeIndex - 1) + sizes[activeIndex - 1] ==
              offsets[activeIndex] + sizes[activeIndex]
    ensures forall k :: 0 <= k < |sizes| - 1 && k + 1 != activeIndex && k != activeIndex && k + 1 != p ==>
              Shown(offsets, sizes, activeIndex, p, k) + sizes[k] == Shown(offsets, sizes, activeIndex, p, k + 1)
  {
  }

  /** Slot at the dragged cell's origin: no cell moves, and the placeholder
      is the dragged cell's own place. */
  lemma NoGapAtOrigin(offsets: seq<real>, sizes: seq<real>, activeIndex: int)
    requires Contiguous(offsets, sizes)
    requires 0 <= activeIndex < |sizes|
    ensures Placeholder(offsets, sizes, activeIndex, activeIndex) == offsets[activeIndex]
    ensures forall k :: 0 <= k < |sizes| && k != activeIndex ==>
              Shown(offsets, sizes, activeIndex, activeIndex, k) == offsets[k]
  {
  }
  /** The dragged cell's target once released (the placeholder written by the
      slot's cell, less the dragged cell's own offset) drops it exactly into the
      gap the shifted cells leave: flush after the cell before the gap and
      flush before the cell after it, or back on its own place when the slot
      is its origin. */
  lemma ReleasedCellFillsGap(offsets: seq<real>, sizes: seq<real>, activeIndex: int, p: int)
    requires Contiguous(offsets, sizes)
    requires 0 <= activeIndex < |sizes| && 0 <= p < |sizes|
    ensures var t := ReleaseTarget(CellFrame(offsets, sizes, activeIndex, activeIndex, 0.0, false),
                                   Placeholder(offsets, sizes, activeIndex, p));
            && (activeIndex < p ==>
                  && offsets[activeIndex] + t == Shown(offsets, sizes, activeIndex, p, p) + sizes[p]
                  && (p + 1 < |sizes| ==>
                        offsets[activeIndex] + t + sizes[activeIndex] == Shown(offsets, sizes, activeIndex, p, p + 1)))
            && (p < activeIndex ==>
                  && offsets[activeIndex] + t + sizes[activeIndex] == Shown(offsets, sizes, activeIndex, p, p)
                  && (0 < p ==>
                        Shown(offsets, sizes, activeIndex, p, p - 1) + sizes[p - 1] == offsets[activeIndex] + t))
            && (p == activeIndex ==> t == 0.0)
  {
    if activeIndex < p {
      GapBelowOrigin(offsets, sizes, activeIndex, p);
    } else if p < activeIndex {
      GapAboveOrigin(offsets, sizes, activeIndex, p);
    } else {
      NoGapAtOrigin(offsets, sizes, activeIndex);
    }
  }
}
