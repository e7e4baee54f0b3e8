/** The values one list cell keeps from frame to frame, the drag context it
    reads each frame, and the defensive hard reset of its animation state. */
module CellModel {

  /** The activeIndex (and spacerIndex) value that means "no drag in progress". */
  const NONE: int := -1

  /** What one cell sees in one frame: its own index and layout geometry, and
      the drag context shared by all cells (active index, size of the dragged
      cell, the dragged cell's leading coordinate, whether it is held). */
  datatype Frame = Frame(
    currentIndex: int,
    size: real,
    offset: real,
    activeIndex: int,
    activeCellSize: real,
    hoverOffset: real,
    isPressedIn: bool)

  /** The four values the spring node integrates. */
  datatype SpringState = SpringState(position: real, velocity: real, time: real, finished: real)

  /** runSpring: one opaque integration step of the spring towards a target. */
  type SpringStep = (SpringState, real) -> SpringState

  /** onFinished: an opaque settle notification; its only modelled effect is on
      the cell's clock (running or not afterwards). */
  type FinishHook = bool -> bool

  /** Every Animated value setupCell reads or writes for one cell, and the
      state of the cell's clock. `finished` and `time` are numbers, as in the
      spring node; `finished` counts as set when it is not zero. */
  datatype CellState = CellState(
    isAfterActive: bool,
    prevTrans: real,
    prevSpacerIndex: int,
    spacerIndex: int,
    toValue: real,
    position: real,
    velocity: real,
    time: real,
    finished: real,
    placeholderOffset: real,
    prevIsPressedIn: bool,
    clockRunning: bool)

  /** The spring's part of a cell's state. */
  function SpringPart(s: CellState): SpringState
  {
    SpringState(s.position, s.velocity, s.time, s.finished)
  }

  /** hardReset: zero position, finished, time and toValue, and nothing else. */
  function HardReset(s: CellState): (r: CellState)
    ensures r.position == 0.0 && r.finished == 0.0 && r.time == 0.0 && r.toValue == 0.0
    ensures r.velocity == s.velocity && r.clockRunning == s.clockRunning
    ensures r.(position := s.position, finished := s.finished, time := s.time, toValue := s.toValue) == s
  {
    s.(position := 0.0, finished := 0.0, time := 0.0, toValue := 0.0)
  }

  /** Resetting an already reset cell changes nothing. */
  lemma HardResetIdempotent(s: CellState)
    ensures HardReset(HardReset(s)) == HardReset(s)
  {
  }

  /** The result of a hard reset does not depend on the four values it clears. */
  lemma HardResetForgetsAnimation(s: CellState, t: CellState)
    requires s.(position := t.position, finished := t.finished, time := t.time, toValue := t.toValue) == t
    ensures HardReset(s) == HardReset(t)
  {
  }
}
