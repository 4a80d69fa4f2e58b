# Live bicep counter: the repetition state machine

This project models the repetition counter of a live bicep-curl counter. The
application reads camera frames, detects pose landmarks, and turns the
shoulder-elbow-wrist angle into a completion percentage from 0 to 100. A
two-variable state machine inside the frame loop of `main()` turns that
percentage into a repetition count:

- `dir` is a direction flag, 0 or 1.
- `count` grows in steps of one half. Both start at 0.
- When the percentage is exactly 100 and `dir` is 0, the loop adds half a
  repetition and sets `dir` to 1.
- When the percentage is exactly 0 and `dir` is 1, it adds half a repetition
  and sets `dir` back to 0.
- The update runs only on frames where the landmark list is non-empty.
- The `r` key resets both variables to 0. The `q` key ends the loop.
- The number drawn on the frame is `int(count)`.

The model holds the count as a whole number of half repetitions, `halves`,
so that `count` is exactly `halves / 2` (`RepTracker.CountOf`).

Two modules:

- `RepTracker` (`rep_tracker.dfy`) holds the state machine.
  - The pure functions are `Step` (one update), `ResetState` and `Fold` (a
    whole trace of percentages).
  - The invariant `Inv` says that `halves >= 0`, that `dir` is 0 or 1, and
    that `dir == halves % 2`.
  - The class `RepCounter` holds the two loop variables. Its `Update` and
    `Reset` methods change them in place and are proved against `Step` and
    `ResetState`.
- `BicepApp` (`bicep_app.dfy`) holds the frame loop.
  - A frame carries its landmark list, its completion percentage and the
    results of its two key polls.
  - `ProcessFrame` and `RunSession` drive a `RepCounter` over a sequence of
    frames. They are proved against the pure functions `FrameStep`,
    `FrameDisplay`, `Final` and `Shown`.
  - A failed camera read ends the loop. It is modelled as the end of the
    frame sequence.

## Model

| member | source | states |
|---|---|---|
| RepTracker.Step | bicepApp.py:108-113 | At 100 with `dir` 0 the count rises by one half and `dir` becomes 1. At 0 with `dir` 1 the count rises by one half and `dir` becomes 0. The second test cannot fire after the first in the same frame. Every other input, including 100 with `dir` 1 and 0 with `dir` 0, leaves the state unchanged. |
| RepTracker.ResetState | bicepApp.py:136-138 | Reset leaves count 0 and `dir` 0, whatever the prior state. |
| RepTracker.Truncate | bicepApp.py:116 | `int()` on a float truncates toward zero. For non-negative `x` this is the floor; for negative `x` it is the ceiling. |
| RepTracker.InitInv | bicepApp.py:78-79 | The initial state (both 0) satisfies the invariant, and its shown count is 0. |
| RepTracker.StepInv | bicepApp.py:108-113 | One update keeps the invariant: `halves >= 0`, `dir` in {0,1}, and `dir == halves % 2`. |
| RepTracker.StepGain | bicepApp.py:108-113 | One update never lowers the count and raises it by at most 0.5. |
| RepTracker.StepIdempotent | bicepApp.py:108-113 | The same percentage fed twice in a row acts as if it were fed once. So a repeated 100 with no 0 in between counts only once. |
| RepTracker.ResetIdempotent | bicepApp.py:136-138 | Resetting twice gives the same state as resetting once, and the reset state satisfies the invariant. |
| RepTracker.RepsIsHalfOfHalves | bicepApp.py:116 | Under the invariant, the shown number `int(count)` equals `halves / 2` and is the floor of the count. |
| RepTracker.FoldAppend | bicepApp.py:88-113 | Frames are processed strictly in order. Feeding `xs` and then `ys` is the same as feeding `xs + ys`. |
| RepTracker.FoldInv | bicepApp.py:108-113 | Any trace of percentages keeps the invariant. |
| RepTracker.FoldGain | bicepApp.py:108-113 | Over a trace, the count never decreases. It rises by at most one half for each percentage that is exactly 0 or 100. |
| RepTracker.InteriorIsInert | bicepApp.py:108-113 | A trace that never equals 0 or 100 exactly leaves the state unchanged. There is no threshold crossing and no hysteresis. |
| RepTracker.RepeatIsIgnored | bicepApp.py:108-113 | Adding a duplicate of a percentage right after itself, anywhere in a trace, does not change the final state. |
| RepTracker.NoBottomGain | bicepApp.py:108-113 | A trace that never touches 0 adds at most one half, and adds nothing if `dir` is already 1. |
| RepTracker.NoTopGain | bicepApp.py:108-113 | A trace that never touches 100 adds at most one half, and adds nothing if `dir` is 0. |
| RepTracker.FullRepNeedsBothBoundaries | bicepApp.py:108-113 | A trace counts a whole repetition only if it contains both 100 and 0. |
| RepTracker.CyclesCount | bicepApp.py:78-79 | From a fresh counter, `n` curls that each touch 100 and then 0 leave `2n` halves and `dir` 0. The shown count is then `n`. |
| RepTracker.ExampleTrace | bicepApp.py:108-113 | From a fresh counter, the trace 50, 100, 50, 0 gives counts 0, 0.5, 0.5, 1 and flags 0, 1, 1, 0. |
| RepTracker.ExampleRepeatedTop | bicepApp.py:108-110 | From a fresh counter, the trace 100, 100 gives counts 0.5, 0.5. |
| RepTracker.RepCounter.constructor | bicepApp.py:78-79 | A new counter has count 0 and `dir` 0. |
| RepTracker.RepCounter.Count | bicepApp.py:109 | The count held by a valid counter is never negative. |
| RepTracker.RepCounter.ShownReps | bicepApp.py:116 | The shown number is `int(count)`. It equals `halves / 2` and is the floor of the count. |
| RepTracker.RepCounter.Update | bicepApp.py:108-113 | The new state is `Step` of the old state. The invariant is kept, and the count rises by 0 or one half. |
| RepTracker.RepCounter.Reset | bicepApp.py:136-138 | Both variables become 0 whatever they held before, and the invariant then holds. |
| BicepApp.FrameStep | bicepApp.py:97-138 | A frame with an empty landmark list and no reset changes nothing. A frame with landmarks applies `Step` to its percentage. A reset key press leaves the fresh state. The invariant is kept. |
| BicepApp.FrameDisplay | bicepApp.py:97-117 | A number is drawn exactly when the frame has landmarks. It is `int(count)` taken after that frame's update; from a valid state it is non-negative and equals the updated `halves / 2`, the floor of the count. |
| BicepApp.Final | bicepApp.py:88-143 | The state at the end of a session satisfies the invariant if the starting state does. |
| BicepApp.Shown | bicepApp.py:116-117 | At most one number is drawn per frame, and every number drawn from a valid state is non-negative. |
| BicepApp.ProcessFrame | bicepApp.py:97-138 | One loop iteration on the mutable counter. The new state is `FrameStep` of the old state, and the returned label is `FrameDisplay` of the old state. |
| BicepApp.RunSession | bicepApp.py:77-143 | The loop over all frames returns exactly the numbers `Shown` gives and the state `Final` gives. It stops after a quit frame or at the end of the frames, and the final state keeps the invariant. |
| BicepApp.EmptyFrameIsInert | bicepApp.py:97 | A frame with no landmarks and no reset leaves count and `dir` unchanged and draws no count. |
| BicepApp.QuitStops | bicepApp.py:140-141 | Frames after the first quit frame have no effect on the final state or on what is drawn. |
| BicepApp.SessionIsFold | bicepApp.py:88-113 | A session with no reset or quit is the same as `Fold` over the percentages of its frames that have landmarks. |
| BicepApp.NoResetNeverLowers | bicepApp.py:108-113 | With no reset, the count at the end of a session is at least the count at its start. |
| BicepApp.RepsMonotone | bicepApp.py:116 | Between valid states, a larger half count never shows a smaller number. |
| BicepApp.ShownAtLeastStart | bicepApp.py:116 | With no reset, every number drawn is at least the number the starting state would show. |
| BicepApp.ShownNonDecreasing | bicepApp.py:116 | With no reset, the numbers drawn over a session never go down. |
| BicepApp.ResetOnLastFrame | bicepApp.py:136-138 | If the last frame of a session has a reset key press and no earlier frame quit, the session ends in the fresh state. |

## Left out

- Camera capture, resolution setup, `imshow`, window teardown and `release` (bicepApp.py:72-75, 133, 146-147) are I/O. A failed `cap.read` is modelled as the end of the frame sequence (bicepApp.py:142-143).
- The two `waitKey` polls (bicepApp.py:136, 140) are not modelled as keyboard reads. Each frame carries their outcomes as two booleans, `resetKey` and `quitKey`. A single key press that the first poll consumes is therefore not modelled.
- The completion percentage is an input of each frame. The remap `np.interp(angle, (210, 310), (0, 100))` (bicepApp.py:100) is a numpy call and is not modelled. That call clamps to [0, 100], and the clamping is what lets the percentage equal exactly 0 or 100.
- The joint angle `findAngle` and the pose detector wrapper in poseestimationmodule.py are not modelled. They do floating-point trigonometry and call the mediapipe model. Landmarks enter the model only through whether the list is empty.
- The drawing helpers `draw_label`, `draw_progress_bar` and `resize_frame`, the progress-bar fill, the percentage label `int(per)` and its colour choice (bicepApp.py:6-65, 101-106, 118-119, 129-130) are rendering.
- The FPS computation (bicepApp.py:122-126) uses the wall clock and float division.
- Floating point: percentages are Dafny `real`s, and the count is an exact number of halves. Adding 0.5 to a float count is exact while the count stays below 2^52, so the model loses nothing for realistic sessions.
