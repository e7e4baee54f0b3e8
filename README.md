# Per-cell drag evaluation of a reorderable list, in Dafny

This project models `setupCell`, the procedure that every cell of a
draggable list evaluates once per animation frame while one item is being
dragged, together with its helpers `getIsAfterActive` and `hardReset`
(`src/procs.ts`). Each frame, a cell:

1. decides which slot the dragged item would drop into, by testing whether
   the dragged item's leading edge (`hoverOffset`, for cells before it) or
   trailing edge (`hoverOffset + activeCellSize`, for cells after it) lies on
   the first or second half of the cell;
2. records where the gap placeholder is drawn when the slot is its own;
3. computes its translation target `toValue` (shift by the dragged cell's
   size, or stay), or, for the dragged cell, follows the pointer while held
   and aims at the placeholder once released;
4. starts its clock on the release edge or when the target changed during
   the drag;
5. clears the spacer index when the drag has ended and hard resets its
   animation values when the spacer index has just become `-1`;
6. consumes the one-frame `finished` signal after the settle notification;
7. stores the values the next frame uses for edge detection;
8. runs the spring only while the clock runs, and yields `position`.

Layout:

- `cell_model.dfy` — module `CellModel`: the frame inputs (`Frame`), the
  cell's Animated values and clock (`CellState`), the opaque spring step and
  settle notification, and `hardReset` as a function.
- `slot_resolver.dfy` — module `SlotResolver`: the export
  `getIsAfterActive` (`SlotResolver.IsAfterActive`), and the midpoint zone
  tests and placeholder offset of `setupCell` (src/procs.ts:81-131).
- `target_calculator.dfy` — module `TargetCalculator`: the target
  computation of `setupCell` (src/procs.ts:132-167) for a non-dragged cell
  and for the released dragged cell.
- `cell_evaluator.dfy` — module `CellEvaluator`: one frame of the export
  `setupCell` as a function `Evaluate` of the state before the frame, with
  the clock and reset behaviour stated as its contract, and lemmas about
  repeated frames. The phase functions `ResolveSlot`, `PlacePlaceholder`,
  `SetTarget`, `StartOnRetarget`, `EndDrag`, `ConsumeFinished`, `Snapshot`
  and `StepSpring` (src/procs.ts:81-188) carry no contract of their own:
  they are the specifications that the `Procs.AnimatedCell` methods of the
  same phases are proved against, and `Evaluate` composes them.
- `layout.dfy` — module `Layout`: all cells of one contiguous list evaluated
  against the same drag context: at most one of them writes the spacer index,
  the slot written equals an independent midpoint-count definition, and the
  shifted cells leave exactly the gap the placeholder fills.
- `procs.dfy` — module `Procs`: class `AnimatedCell`, whose fields are the
  cell's Animated values and whose methods `SetupCell` and `HardReset` (the
  exports `setupCell` and `hardReset`) update them statement by statement in
  setupCell's order; each method is proved against the functions above.

The exports of src/procs.ts map to the modules as follows: `getIsAfterActive`
to `SlotResolver`, `hardReset` to `CellModel` (value form) and
`Procs.AnimatedCell.HardReset` (in place), and `setupCell` to `SlotResolver`,
`TargetCalculator` and `CellEvaluator` (value form, one module per group of
its statements) and `Procs.AnimatedCell.SetupCell` (in place).

Modelling choices:

- Geometry (`size`, `offset`, `hoverOffset`, `activeCellSize`, positions and
  targets) is `real`. The code only adds, subtracts, compares and halves, so
  exact reals follow it; floating-point rounding is not modelled.
- Indices are `int`; `-1` (`CellModel.NONE`) is the "no drag" sentinel the
  code compares against.
- `isPressedIn`, `prevIsPressedIn` and `isAfterActive` are `bool`.
  `finished` and `time` stay numbers, as the spring node keeps them;
  `cond(finished, …)` is read as "`finished` is not zero".
- `runSpring` is a parameter of type `(SpringState, real) -> SpringState`:
  any step on (position, velocity, time, finished) towards `toValue`. Nothing
  else about the spring is assumed.
- `onFinished` is a parameter of type `bool -> bool`: an opaque notification
  whose only modelled effect is on the clock flag. The step also reports
  whether it was evaluated.
- The clock is the boolean `clockRunning`; `startClock` sets it, `stopClock`
  clears it.
- src/procs.ts does not show whether `spacerIndex` and
  `placeholderOffset` are shared between cells; they are fields of each
  cell's state here. `Layout.ResolutionOrderIrrelevant` shows that, for a
  contiguous layout, the final value of a shared spacer index would not
  depend on the order in which the cells are evaluated. It does not show
  that sharing is harmless: with a shared spacer index, a cell evaluated
  before the cell that writes it still reads last frame's value when it
  places the placeholder and computes its target (src/procs.ts:126,
  159-163), so its target lags one frame; the model does not capture that.
- The hard reset fires whenever the spacer index has just become `-1`,
  whether or not `activeIndex` is `-1` (src/procs.ts:176-183).
- The clock start on a changed target tests only the `isPressedIn` flag,
  which every cell receives, so it applies to every cell, not only the
  dragged one (src/procs.ts:169-174).
- Nothing in `setupCell` stops the clock when a spring settles; only
  `onFinished`, which is opaque here, may do so (src/procs.ts:184).

## Model

| member | source | states |
|---|---|---|
| CellModel.HardReset | src/procs.ts:39-47 | position, finished, time and toValue are zero afterwards; velocity, the clock and every other value are unchanged |
| CellModel.HardResetIdempotent | src/procs.ts:39-47 | hard resetting twice gives the same state as once |
| CellModel.HardResetForgetsAnimation | src/procs.ts:39-47 | the result of a hard reset does not depend on the four values it clears |
| SlotResolver.IsAfterActive | src/procs.ts:34-37 | a cell is after the dragged one when its index is greater; the dragged cell is never after itself |
| Layout.SideOfActive | src/procs.ts:34-37 | in a contiguous layout, a cell getIsAfterActive puts after the dragged one starts at or past the dragged cell's end, and any other non-dragged cell ends at or before the dragged cell's start, which is why the former test the trailing edge and the latter the leading edge |
| SlotResolver.HalvesPartitionSpan | src/procs.ts:84-123 | the first-half and second-half zones of a cell never overlap and together are exactly [offset, offset + size), for every size |
| SlotResolver.ResolveSpacer | src/procs.ts:81-124 | for a cell after the dragged one whose span holds the trailing edge: currentIndex - 1 before the midpoint, currentIndex from it on; for a cell before it whose span holds hoverOffset: currentIndex before the midpoint, currentIndex + 1 from it on; otherwise (and always for the dragged cell) the spacer index is unchanged; a written slot lies between the dragged cell and this one |
| SlotResolver.ResolveSpacerIdempotent | src/procs.ts:84-124 | resolving again in the same frame changes nothing |
| SlotResolver.PlaceholderOffset | src/procs.ts:126-131 | unchanged unless the spacer is this cell's slot; then equal to the cell's offset, or, for a cell after the dragged one, ending (with the dragged cell's size) at the cell's trailing edge |
| TargetCalculator.NonActiveTarget | src/procs.ts:151-166 | the target is 0, activeCellSize or -activeCellSize; -activeCellSize for a passed cell after the dragged one, +activeCellSize for a passed cell before it, 0 for a cell the slot has not passed |
| TargetCalculator.ReleaseTarget | src/procs.ts:145-146 | the released dragged cell's target brings its offset exactly onto the placeholder |
| Layout.ReleasedCellFillsGap | src/procs.ts:126-166 | in a contiguous layout, the released dragged cell's target, taken from the placeholder the slot's cell writes, lands it flush after the cell before the gap and flush before the cell after it, for a slot below or above its origin, and leaves it in place for a slot at its origin |
| TargetCalculator.MirroredTargetIsNegated | src/procs.ts:153-166 | reversing list order (indices and spacer index negated) negates every non-dragged cell's target |
| CellEvaluator.Evaluate | src/procs.ts:79-190 | after one frame: the spacer index is -1 when the drag ended and the resolved slot otherwise; the placeholder comes from the resolved slot; toValue is the computed target unless a hard reset fired, and for a non-dragged cell is 0 or plus or minus activeCellSize; the held dragged cell tracks the pointer while its clock is stopped; unless a hard reset fired, the clock afterwards is the old clock or a start (release edge, or a target change while pressed) when finished was not set, and onFinished applied to that when it was set, so only the hard reset and onFinished stop it; a hard reset leaves the clock stopped and position, finished, time, toValue zero with velocity kept; the notification fires exactly when finished was set and no reset fired; a stopped clock never leaves finished set or velocity changed; the snapshots equal the final spacer index, toValue and isPressedIn; the spring is applied exactly when the clock runs |
| CellEvaluator.SpringInput | src/procs.ts:132-188 | when the clock runs, the spring steps towards the new toValue from: position zero after a hard reset, the pointer's position for the held dragged cell and the old position otherwise; the old velocity; finished zero; time zero after a hard reset or a delivered finished signal and the old time otherwise |
| CellEvaluator.IdleCellHoldsPosition | src/procs.ts:169-188 | a cell whose clock is stopped, that is not held, not reset and not restarted, keeps its position, velocity and time and its clock stays stopped |
| CellEvaluator.SettledFrameIsFixedPoint | src/procs.ts:79-190 | during a drag, once a frame leaves the clock stopped without a reset, repeating the same frame changes nothing and notifies nothing |
| Layout.AtMostOneCellWritesSpacer | src/procs.ts:84-123 | in a contiguous layout, at most one cell's zone test fires in a frame |
| Layout.ResolutionOrderIrrelevant | src/procs.ts:84-123 | in a contiguous layout, evaluating two cells' slot resolution in either order gives the same spacer index |
| Layout.SlotBeforeActive | src/procs.ts:108-123 | when hoverOffset lies on a cell before the dragged one, the slot written is the number of earlier cells whose midpoint hoverOffset has reached |
| Layout.SlotAfterActive | src/procs.ts:84-107 | when the trailing edge lies on a cell after the dragged one, the slot written is the dragged index plus the number of later cells whose midpoint the trailing edge has reached |
| Layout.ResolvedSlotIsMidpointSlot | src/procs.ts:84-123 | whichever cell writes the spacer index writes the slot of the midpoint-count definition |
| Layout.GapBelowOrigin | src/procs.ts:126-166 | slot after the dragged cell's origin: the shifted cells close the dragged cell's place (starting at the list's start when the dragged cell is the first), stay flush elsewhere, and leave a gap of the dragged cell's size exactly at the placeholder |
| Layout.GapAboveOrigin | src/procs.ts:126-166 | slot before the dragged cell's origin: the same, with the cells from the slot on shifted down (ending at the list's end when the dragged cell is the last) |
| Layout.NoGapAtOrigin | src/procs.ts:126-166 | slot at the dragged cell's origin: no cell moves and the placeholder is the dragged cell's own offset |
| Procs.AnimatedCell.HardReset | src/procs.ts:39-47 | the cell's state becomes CellModel.HardReset of its old state |
| Procs.AnimatedCell.ResolveSpacerIndex | src/procs.ts:81-124 | sets isAfterActive and the spacer index as SlotResolver.ResolveSpacer says |
| Procs.AnimatedCell.SetPlaceholderOffset | src/procs.ts:126-131 | sets the placeholder offset as SlotResolver.PlaceholderOffset says |
| Procs.AnimatedCell.SetTranslation | src/procs.ts:132-168 | the held dragged cell's position follows the pointer; the released one aims at the placeholder and starts the clock on the release edge; any other cell's toValue is TargetCalculator.NonActiveTarget |
| Procs.AnimatedCell.StartClockOnRetarget | src/procs.ts:169-174 | starts the clock when pressed and toValue differs from prevTrans, and changes nothing else |
| Procs.AnimatedCell.EndDragReset | src/procs.ts:176-183 | clears the spacer index when the drag ended, and stops the clock and hard resets when the spacer index has just become -1 |
| Procs.AnimatedCell.ConsumeFinishedSignal | src/procs.ts:184 | when finished was set: the notification acts on the clock, and time and finished become zero |
| Procs.AnimatedCell.RunSpring | src/procs.ts:188 | applies the spring step to position, velocity, time and finished exactly when the clock runs |
| Procs.AnimatedCell.SetupCell | src/procs.ts:56-191 | the new state is CellEvaluator.Evaluate of the old one, the result is the new position, and the notification flag is Evaluate's |

## Left out

- `betterSpring` and `springFill` (src/procs.ts:193-251): a wrapper around
  the animation library's spring integrator, whose damped-oscillator
  arithmetic is not part of this model; the spring is an opaque step, so the
  rest thresholds, overshoot clamping and convergence are not modelled.
- The `proc` fallback and its console warning (src/procs.ts:26-32): runtime
  plumbing with no effect on a cell's values.
- The debug `call` that logs the new target (src/procs.ts:170-172): output
  only.
- The internals of `onFinished`: it is an opaque transition of the clock
  flag; any other effect it has on the cell's values is not modelled.
- The internals of the animation library's clock and its lazy node-graph
  evaluation: `block` is sequential statements, `cond` is `if`.
- Floating-point rounding, NaN and infinities of the Animated values.
- CellEvaluator.SettledFrameIsFixedPoint: stated only while a drag is in
  progress, because after a drag ends a non-dragged cell's toValue can still
  change once more in the next frame (its clock stays stopped, so it does
  not move; CellEvaluator.IdleCellHoldsPosition covers that case).
