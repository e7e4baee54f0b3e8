/** One frame of setupCell for one cell, as a function of the cell's state
    before the frame: slot resolution, placeholder, target, clock start, drag
    end reset, finished edge, snapshots and the spring step, in that order. */
module CellEvaluator {
  import opened CellModel
  import opened SlotResolver
  import opened TargetCalculator

  /** The new cell state, and whether the onFinished notification was evaluated. */
  datatype Outcome = Outcome(state: CellState, notified: bool)

  predicate DragEnded(f: Frame)
  {
    f.activeIndex == NONE
  }

  predicate IsActive(f: Frame)
  {
    f.currentIndex == f.activeIndex
  }

  /** The spacer index as slot resolution leaves it (before the drag-end override). */
  function ResolvedSpacer(s: CellState, f: Frame): int
  {
    ResolveSpacer(f, s.spacerIndex)
  }

  /** The spacer index at the end of the frame. */
  function SpacerAfter(s: CellState, f: Frame): int
  {
    if DragEnded(f) then NONE else ResolvedSpacer(s, f)
  }

  /** The spacer index has just become NONE: the cell is hard reset. */
  predicate ResetFires(s: CellState, f: Frame)
  {
    s.prevSpacerIndex != SpacerAfter(s, f) && SpacerAfter(s, f) == NONE
  }

  /** toValue after the target computation. */
  function NewTarget(s: CellState, f: Frame): real
  {
    if IsActive(f) then
      if f.isPressedIn then s.toValue
      else ReleaseTarget(f, PlaceholderOffset(f, ResolvedSpacer(s, f), s.placeholderOffset))
    else
      NonActiveTarget(f, ResolvedSpacer(s, f))
  }

  /** The dragged cell has just been let go. */
  predicate ReleaseEdge(s: CellState, f: Frame)
  {
    IsActive(f) && !f.isPressedIn && s.prevIsPressedIn
  }

  /** During a drag, the target differs from last frame's. */
  predicate Retargets(s: CellState, f: Frame)
  {
    f.isPressedIn && NewTarget(s, f) != s.prevTrans
  }

  predicate StartsClock(s: CellState, f: Frame)
  {
    ReleaseEdge(s, f) || Retargets(s, f)
  }

  // The frame's phases, each the state after a group of setupCell's statements.

  function ResolveSlot(s: CellState, f: Frame): CellState
  {
    s.(isAfterActive := IsAfterActive(f.currentIndex, f.activeIndex),
       spacerIndex := ResolveSpacer(f, s.spacerIndex))
  }

  function PlacePlaceholder(s: CellState, f: Frame): CellState
  {
    s.(placeholderOffset := PlaceholderOffset(f, s.spacerIndex, s.placeholderOffset))
  }

  function SetTarget(s: CellState, f: Frame): CellState
  {
    if IsActive(f) then
      if f.isPressedIn then s.(position := f.hoverOffset - f.offset)
      else s.(toValue := ReleaseTarget(f, s.placeholderOffset),
              clockRunning := s.clockRunning || s.prevIsPressedIn)
    else
      s.(toValue := NonActiveTarget(f, s.spacerIndex))
  }

  function StartOnRetarget(s: CellState, f: Frame): CellState
  {
    if f.isPressedIn && s.toValue != s.prevTrans then s.(clockRunning := true) else s
  }

  function EndDrag(s: CellState, f: Frame): CellState
  {
    var s1 := if DragEnded(f) then s.(spacerIndex := NONE) else s;
    if s1.prevSpacerIndex != s1.spacerIndex && s1.spacerIndex == NONE then
      HardReset(s1.(clockRunning := false))
    else
      s1
  }

  function ConsumeFinished(s: CellState, onFinished: FinishHook): CellState
  {
    if s.finished != 0.0 then
      s.(clockRunning := onFinished(s.clockRunning), time := 0.0, finished := 0.0)
    else
      s
  }

  function Snapshot(s: CellState, f: Frame): CellState
  {
    s.(prevSpacerIndex := s.spacerIndex, prevTrans := s.toValue, prevIsPressedIn := f.isPressedIn)
  }

  function StepSpring(s: CellState, runSpring: SpringStep): CellState
  {
    if s.clockRunning then
      var n := runSpring(SpringPart(s), s.toValue);
      s.(position := n.position, velocity := n.velocity, time := n.time, finished := n.finished)
    else
      s
  }

  /** The state before the finished signal is consumed: slot, placeholder,
      target, clock start and drag-end reset done. */
  function BeforeFinished(s: CellState, f: Frame): CellState
  {
    EndDrag(StartOnRetarget(SetTarget(PlacePlaceholder(ResolveSlot(s, f), f), f), f), f)
  }

  /** The state before the spring step: everything but runSpring done. */
  function BeforeSpring(s: CellState, f: Frame, onFinished: FinishHook): CellState
  {
    Snapshot(ConsumeFinished(BeforeFinished(s, f), onFinished), f)
  }

  /** One evaluation of setupCell for one cell. */
  function Evaluate(s: CellState, f: Frame, runSpring: SpringStep, onFinished: FinishHook): (r: Outcome)
    // slot resolution, overridden by the end of the drag
    ensures r.state.isAfterActive == IsAfterActive(f.currentIndex, f.activeIndex)
    ensures DragEnded(f) ==> r.state.spacerIndex == NONE
    ensures !DragEnded(f) ==> r.state.spacerIndex == ResolveSpacer(f, s.spacerIndex)
    // the placeholder is placed from the resolved slot, before the override
    ensures r.state.placeholderOffset == PlaceholderOffset(f, ResolveSpacer(f, s.spacerIndex), s.placeholderOffset)
    // targets
    ensures !ResetFires(s, f) ==> r.state.toValue == NewTarget(s, f)
    ensures !IsActive(f) ==>
              r.state.toValue == 0.0 || r.state.toValue == f.activeCellSize || r.state.toValue == -f.activeCellSize
    ensures IsActive(f) && !f.isPressedIn && !ResetFires(s, f) ==>
              f.offset + r.state.toValue == r.state.placeholderOffset
    ensures IsActive(f) && f.isPressedIn && !ResetFires(s, f) && !r.state.clockRunning ==>
              r.state.position == f.hoverOffset - f.offset
    // the clock
    ensures StartsClock(s, f) && !ResetFires(s, f) && s.finished == 0.0 ==> r.state.clockRunning
    ensures !s.clockRunning && !StartsClock(s, f) && s.finished == 0.0 ==> !r.state.clockRunning
    // only the hard reset and onFinished stop a running clock
    ensures !ResetFires(s, f) && s.finished == 0.0 ==> r.state.clockRunning == (s.clockRunning || StartsClock(s, f))
    ensures !ResetFires(s, f) && s.finished != 0.0 ==>
              r.state.clockRunning == onFinished(s.clockRunning || StartsClock(s, f))
    // hard reset at the end of a drag
    ensures ResetFires(s, f) ==>
              !r.state.clockRunning && r.state.position == 0.0 && r.state.finished == 0.0 &&
              r.state.time == 0.0 && r.state.toValue == 0.0 && r.state.velocity == s.velocity
    // finished is a one-frame signal
    ensures r.notified <==> s.finished != 0.0 && !ResetFires(s, f)
    ensures r.notified && !r.state.clockRunning ==> r.state.time == 0.0
    ensures !r.state.clockRunning ==> r.state.finished == 0.0 && r.state.velocity == s.velocity
    // snapshots for next frame's edge detection
    ensures r.state.prevSpacerIndex == r.state.spacerIndex
    ensures r.state.prevTrans == r.state.toValue
    ensures r.state.prevIsPressedIn == f.isPressedIn
    // the spring runs exactly when the clock is running
    ensures r.state.clockRunning ==>
              SpringPart(r.state) == runSpring(SpringPart(BeforeSpring(s, f, onFinished)), r.state.toValue)
    ensures !r.state.clockRunning ==> r.state == BeforeSpring(s, f, onFinished)
  {
    Outcome(StepSpring(BeforeSpring(s, f, onFinished), runSpring), BeforeFinished(s, f).finished != 0.0)
  }

  /** What runSpring is given when the clock runs: the position is zero after a
      hard reset, the pointer's position for the held dragged cell and the old
      position otherwise; the velocity is the old one; finished has been
      consumed; time is zero after a reset or a delivered finished signal and
      the old time otherwise. The spring steps towards the new toValue. */
  lemma SpringInput(s: CellState, f: Frame, runSpring: SpringStep, onFinished: FinishHook)
    ensures var r := Evaluate(s, f, runSpring, onFinished).state;
            r.clockRunning ==> SpringPart(r) == runSpring(SpringPart(BeforeSpring(s, f, onFinished)), r.toValue)
    ensures var i := SpringPart(BeforeSpring(s, f, onFinished));
            && (ResetFires(s, f) ==> i.position == 0.0)
            && (!ResetFires(s, f) && IsActive(f) && f.isPressedIn ==> i.position == f.hoverOffset - f.offset)
            && (!ResetFires(s, f) && !(IsActive(f) && f.isPressedIn) ==> i.position == s.position)
            && i.velocity == s.velocity
            && i.finished == 0.0
            && (ResetFires(s, f) || s.finished != 0.0 ==> i.time == 0.0)
            && (!ResetFires(s, f) && s.finished == 0.0 ==> i.time == s.time)
  {
  }

  /** A cell whose clock is stopped and that nothing restarts, resets or drags
      does not move: this is how it stays put once settled. */
  lemma IdleCellHoldsPosition(s: CellState, f: Frame, runSpring: SpringStep, onFinished: FinishHook)
    requires !s.clockRunning && s.finished == 0.0
    requires !StartsClock(s, f) && !ResetFires(s, f)
    requires !(IsActive(f) && f.isPressedIn)
    ensures var r := Evaluate(s, f, runSpring, onFinished).state;
            !r.clockRunning && r.position == s.position && r.velocity == s.velocity && r.time == s.time
  {
  }

  /** During a drag, once a frame leaves the clock stopped without resetting
      the cell, repeating the same frame changes nothing and notifies nothing. */
  lemma SettledFrameIsFixedPoint(s: CellState, f: Frame, runSpring: SpringStep, onFinished: FinishHook)
    requires !DragEnded(f) && !ResetFires(s, f)
    requires !Evaluate(s, f, runSpring, onFinished).state.clockRunning
    ensures var s1 := Evaluate(s, f, runSpring, onFinished).state;
            Evaluate(s1, f, runSpring, onFinished) == Outcome(s1, false)
  {
  }
}
