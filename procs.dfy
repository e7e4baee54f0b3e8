/** The per-cell procedures of the drag: a cell's Animated values as fields
    of an object, and setupCell and hardReset as methods that update them in
    the order setupCell's node block evaluates its statements. */
module Procs {
  import opened CellModel
  import opened SlotResolver
  import opened TargetCalculator
  import opened CellEvaluator

  /** The Animated values and the clock of one list cell. */
  class AnimatedCell {
    var isAfterActive: bool
    var prevTrans: real
    var prevSpacerIndex: int
    var spacerIndex: int
    var toValue: real
    var position: real
    var velocity: real
    var time: real
    var finished: real
    var placeholderOffset: real
    var prevIsPressedIn: bool
    var clockRunning: bool

    ghost function State(): CellState
      reads this
    {
      CellState(isAfterActive, prevTrans, prevSpacerIndex, spacerIndex, toValue, position,
                velocity, time, finished, placeholderOffset, prevIsPressedIn, clockRunning)
    }

    constructor (initial: CellState)
      ensures State() == initial
    {
      isAfterActive := initial.isAfterActive;
      prevTrans := initial.prevTrans;
      prevSpacerIndex := initial.prevSpacerIndex;
      spacerIndex := initial.spacerIndex;
      toValue := initial.toValue;
      position := initial.position;
      velocity := initial.velocity;
      time := initial.time;
      finished := initial.finished;
      placeholderOffset := initial.placeholderOffset;
      prevIsPressedIn := initial.prevIsPressedIn;
      clockRunning := initial.clockRunning;
    }

    /** hardReset: clear the animation values of the cell. */
    method HardReset()
      modifies this
      ensures State() == CellModel.HardReset(old(State()))
      ensures position == 0.0 && finished == 0.0 && time == 0.0 && toValue == 0.0
    {
      position := 0.0;
      finished := 0.0;
      time := 0.0;
      toValue := 0.0;
    }

    /** Which side of the dragged cell this cell is on, and the slot its two
        midpoint zone tests resolve. */
    method ResolveSpacerIndex(f: Frame)
      modifies this
      ensures State() == ResolveSlot(old(State()), f)
    {
      isAfterActive := IsAfterActive(f.currentIndex, f.activeIndex);
      if isAfterActive {
        if f.offset <= f.hoverOffset + f.activeCellSize && f.hoverOffset + f.activeCellSize < f.offset + f.size / 2.0 {
          spacerIndex := f.currentIndex - 1;
        }
        if f.offset + f.size / 2.0 <= f.hoverOffset + f.activeCellSize && f.hoverOffset + f.activeCellSize < f.offset + f.size {
          spacerIndex := f.currentIndex;
        }
      } else if f.currentIndex < f.activeIndex {
        if f.hoverOffset < f.offset + f.size && f.offset + f.size / 2.0 <= f.hoverOffset {
          spacerIndex := f.currentIndex + 1;
        }
        if f.offset <= f.hoverOffset && f.hoverOffset < f.offset + f.size / 2.0 {
          spacerIndex := f.currentIndex;
        }
      }
    }

    /** Where the gap placeholder is drawn, when the slot is this cell's. */
    method SetPlaceholderOffset(f: Frame)
      requires isAfterActive == IsAfterActive(f.currentIndex, f.activeIndex)
      modifies this
      ensures State() == PlacePlaceholder(old(State()), f)
    {
      if spacerIndex == f.currentIndex {
        placeholderOffset := if isAfterActive then f.offset - f.activeCellSize + f.size else f.offset;
      }
    }

    /** The dragged cell follows the pointer, or on release aims at the
        placeholder (starting the clock on the release edge); any other cell
        aims at its shifted or its own place. */
    method SetTranslation(f: Frame)
      requires isAfterActive == IsAfterActive(f.currentIndex, f.activeIndex)
      modifies this
      ensures State() == SetTarget(old(State()), f)
    {
      if f.currentIndex == f.activeIndex {
        if f.isPressedIn {
          position := f.hoverOffset - f.offset;
        } else {
          toValue := placeholderOffset - f.offset;
          if prevIsPressedIn {
            clockRunning := true;
          }
        }
      } else {
        var passed := if isAfterActive then f.currentIndex <= spacerIndex else f.currentIndex >= spacerIndex;
        toValue := if passed then (if isAfterActive then -f.activeCellSize else f.activeCellSize) else 0.0;
      }
    }

    /** Restart the clock when the target moved during the drag. */
    method StartClockOnRetarget(f: Frame)
      modifies this
      ensures State() == StartOnRetarget(old(State()), f)
    {
      if f.isPressedIn && toValue != prevTrans {
        clockRunning := true;
      }
    }

    /** Clear the spacer when the drag has ended, and hard reset the cell
        when the spacer has just become NONE. */
    method EndDragReset(f: Frame)
      modifies this
      ensures State() == EndDrag(old(State()), f)
    {
      if f.activeIndex == NONE {
        spacerIndex := NONE;
      }
      if prevSpacerIndex != spacerIndex {
        if spacerIndex == NONE {
          if clockRunning {
            clockRunning := false;
          }
          HardReset();
        }
      }
    }

    /** Deliver and clear the one-frame finished signal. */
    method ConsumeFinishedSignal(onFinished: FinishHook) returns (notified: bool)
      modifies this
      ensures State() == ConsumeFinished(old(State()), onFinished)
      ensures notified == (old(finished) != 0.0)
    {
      notified := finished != 0.0;
      if notified {
        clockRunning := onFinished(clockRunning);
        time := 0.0;
        finished := 0.0;
      }
    }

    /** Advance the spring one step, only while the clock runs. */
    method RunSpring(runSpring: SpringStep)
      modifies this
      ensures State() == StepSpring(old(State()), runSpring)
    {
      if clockRunning {
        var next := runSpring(SpringState(position, velocity, time, finished), toValue);
        position := next.position;
        velocity := next.velocity;
        time := next.time;
        finished := next.finished;
      }
    }

    /** setupCell: one frame for this cell. Returns the cell's position, and
        whether the onFinished notification was evaluated. */
    method SetupCell(f: Frame, runSpring: SpringStep, onFinished: FinishHook) returns (pos: real, notified: bool)
      modifies this
      ensures State() == Evaluate(old(State()), f, runSpring, onFinished).state
      ensures notified == Evaluate(old(State()), f, runSpring, onFinished).notified
      ensures pos == position
      ensures DragEnded(f) ==> spacerIndex == NONE
      ensures !DragEnded(f) ==> spacerIndex == ResolveSpacer(f, old(spacerIndex))
      ensures placeholderOffset == PlaceholderOffset(f, ResolveSpacer(f, old(spacerIndex)), old(placeholderOffset))
      ensures !ResetFires(old(State()), f) ==> toValue == NewTarget(old(State()), f)
      ensures ResetFires(old(State()), f) ==>
                !clockRunning && position == 0.0 && finished == 0.0 && time == 0.0 && toValue == 0.0 &&
                velocity == old(velocity)
      ensures StartsClock(old(State()), f) && !ResetFires(old(State()), f) && old(finished) == 0.0 ==> clockRunning
      ensures !clockRunning ==> finished == 0.0
      ensures prevSpacerIndex == spacerIndex && prevTrans == toValue && prevIsPressedIn == f.isPressedIn
    {
      ghost var s := State();
      ResolveSpacerIndex(f);
      SetPlaceholderOffset(f);
      SetTranslation(f);
      StartClockOnRetarget(f);
      EndDragReset(f);
      notified := ConsumeFinishedSignal(onFinished);
      prevSpacerIndex := spacerIndex;
      prevTrans := toValue;
      prevIsPressedIn := f.isPressedIn;
      assert State() == BeforeSpring(s, f, onFinished);
      RunSpring(runSpring);
      pos := position;
      ghost var r := Evaluate(s, f, runSpring, onFinished);
      assert State() == r.state;
    }
  }
}
