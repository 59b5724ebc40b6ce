# Wave-Vision tracking core, modelled in Dafny

Wave-Vision drives the mouse pointer from a camera. A hand-landmark detector
runs asynchronously and reports hands to a callback. That callback averages
the first hand's landmarks into a cursor position and overwrites a single
result slot. A polling loop pulls camera frames, submits each frame to the
detector, reads whatever the slot holds and moves the pointer there.

The model has two modules:

- `Tracking` (`tracking.dfy`) covers the tracker. The averaging is written as
  pure functions (`Sum`, `Mean`, `Averaged`) with lemmas. Python's `int()` on a
  float becomes `TruncateTowardZero`. The slot is the `lastResult` field of the
  class `TrackingController`. The callback `ProcessResult` overwrites that
  field, and `Track` reads it.
- `SystemControl` (`system.dfy`) covers the loop. `Step` is one iteration of
  the loop in `SystemController.start`. `Start` runs a bounded trace of
  events. A `Cycle` event is one loop iteration. A `Detection` event is one
  detector callback, applied as an atomic step between iterations. The
  specification functions `SlotAfter`, `CommandsOf` and `TimestampsOf` give
  the slot, the emitted pointer commands and the submitted timestamps after
  any trace. The lemmas about them state what a run can and cannot do.

Coordinates are `real` numbers. The camera is an input: a frame, or `None`
when it has no frame. The pointer device is an output: the list of
`PointerCommand`s emitted. The clock is an input too: each cycle carries the
reading `now`, and the loop's start reading is a parameter.

The cursor position is the truncated mean of all landmarks of the first
hand. `pressed` is always `False`, and the loop never issues `grab`,
`release` or `click`. A callback that reports no hand does not clear the
slot, so every later cycle with a frame moves the pointer to the last
position again.

## Model

| member | source | states |
|---|---|---|
| `Tracking.TruncateTowardZero` | app/tracking/TrackingController.py:47-48 | `int()` on a float: the result is within one unit of the input, on the side of zero |
| `Tracking.TruncateMonotone` | app/tracking/TrackingController.py:47-48 | truncation never reverses the order of two values |
| `Tracking.SumBounds` | app/tracking/TrackingController.py:41-42 | a sum of n values that all lie in [lo, hi] lies in [n·lo, n·hi] |
| `Tracking.MeanBounds` | app/tracking/TrackingController.py:41-44 | the mean of values that all lie in [lo, hi] lies in [lo, hi] |
| `Tracking.MeanWithinMinMax` | app/tracking/TrackingController.py:41-44 | the mean lies between the smallest and the largest value |
| `Tracking.MeanOfConstant` | app/tracking/TrackingController.py:41-44 | the mean of n copies of c is c |
| `Tracking.Averaged` | app/tracking/TrackingController.py:40-50 | the result built from one hand is never pressed; each coordinate lies between the truncated minimum and the truncated maximum of that hand's coordinates |
| `Tracking.AveragedIsTruncatedMean` | app/tracking/TrackingController.py:41-48 | each stored coordinate is the mean of the hand's coordinates truncated toward zero: within one unit of the mean, on the side of zero |
| `Tracking.AveragedOfCoincidentLandmarks` | app/tracking/TrackingController.py:41-48 | a hand whose landmarks all sit at (x, y) yields the cursor (int(x), int(y)), not pressed |
| `Tracking.CallbackSlot` | app/tracking/TrackingController.py:39-50 | a callback with zero hands, or with an empty first hand, leaves the slot as it was; when the first hand has landmarks the slot is overwritten with that hand's average; a full slot stays full |
| `Tracking.CallbackReadsFirstHandOnly` | app/tracking/TrackingController.py:39-40 | hands after the first have no effect on the slot |
| `Tracking.TrackingController.constructor` | app/tracking/TrackingController.py:12-30 | a new tracker keeps its parameters and its slot is empty |
| `Tracking.TrackingController.ProcessResult` | app/tracking/TrackingController.py:33-50 | the new slot is `CallbackSlot` of the old slot and the hands; the outcome is NoHand for zero hands, ZeroDivisionError for an empty first hand, and Stored otherwise; frame and timestamp are never read |
| `Tracking.TrackingController.Track` | app/tracking/TrackingController.py:52-55 | returns the value the slot holds at the time of the call and changes nothing |
| `SystemControl.ElapsedMs` | app/system/SystemController.py:15-19 | the submitted timestamp is the elapsed time in milliseconds, truncated toward zero, on both sides of the start reading; it is non-negative when the clock has not gone back past the start reading |
| `SystemControl.ElapsedMsMonotone` | app/system/SystemController.py:15-19 | a later clock reading never gives a smaller timestamp |
| `SystemControl.CycleCommands` | app/system/SystemController.py:17-21 | a cycle emits at most one command; it emits one exactly when there is a frame and a result; that command moves to the result's coordinates unchanged |
| `SystemControl.CycleIgnoresPressed` | app/system/SystemController.py:19-21 | the `pressed` flag of the result never changes what a cycle emits |
| `SystemControl.OnlyMoves` | app/system/SystemController.py:14-21 | no run ever emits a click, grab or release |
| `SystemControl.SlotNeverCleared` | app/tracking/TrackingController.py:39-50 | once the slot holds a result, no sequence of events empties it |
| `SystemControl.NoPublicationKeepsSlot` | app/tracking/TrackingController.py:39-50 | cycles and callbacks that store nothing leave the slot exactly as it was |
| `SystemControl.LastWriteWins` | app/tracking/TrackingController.py:46-50 | the slot holds the average of the first hand of the most recent storing callback, whatever came before it |
| `SystemControl.NoMoveBeforePublication` | app/system/SystemController.py:19-21 | starting from a fresh tracker, no pointer command is emitted until some callback has stored a result |
| `SystemControl.NeverPressed` | app/tracking/TrackingController.py:46-50 | starting from an empty slot (or an unpressed result), the slot never holds a pressed result |
| `SystemControl.LaterFramedCyclesMove` | app/system/SystemController.py:17-21 | once a result has been stored, every later cycle with a frame emits exactly one move, to the value the slot then holds, which may be stale |
| `SystemControl.TimestampsMonotone` | app/system/SystemController.py:15-19 | if the clock never goes backward and never reads earlier than the start, the submitted timestamps are non-negative and non-decreasing |
| `SystemControl.SystemController.constructor` | app/system/SystemController.py:9-12 | the controller keeps the tracker it was given |
| `SystemControl.SystemController.Step` | app/system/SystemController.py:17-21 | no frame: no tracker call and no command; otherwise the tracker is called with the elapsed-milliseconds timestamp, and the commands are those of `CycleCommands` for the slot read |
| `SystemControl.SystemController.Start` | app/system/SystemController.py:14-21 | over a bounded trace of cycles and callbacks, the final slot, the emitted commands and the submitted timestamps are `SlotAfter`, `CommandsOf` and `TimestampsOf` of the trace |

## Left out

- Detector construction and configuration (app/tracking/TrackingController.py:15-29), including `num_hands=1`: the detector is a foreign library. Its callbacks are `Detection` events that may report any number of hands.
- `mp.Image` and `detect_async` (app/tracking/TrackingController.py:53-54): submission to the detector is modelled as having no effect on the slot. Whether and when a callback follows is left to the event trace.
- The `print` and `cv2.imshow` side effects of the callback (app/tracking/TrackingController.py:34-37): console and window output.
- Threads: the callback and the loop run concurrently in the source. The model applies each callback atomically between cycles, so torn reads and memory ordering are not modelled.
- Floating point: coordinates and clock readings are `real`, so rounding in `sum`, in the division and in the millisecond product is not modelled.
- The `while True` loop is modelled as a bounded trace of events. Termination and infinite runs are out of scope.
- The camera (app/camera/CameraController.py) and the pointer device (app/cursor/CursorController.py): frames are inputs and pointer calls are outputs. What `pyautogui` does with coordinates outside the screen is not modelled.
- `Tracking.TrackingController.ProcessResult`: the model ends a callback whose first hand has no landmarks with a `ZeroDivisionError` outcome and an unchanged slot. What the detector library does with an exception raised inside its callback is not part of this model.
- `TrackingParams.area_size_x`/`area_size_y` (app/tracking/TrackingParams.py:11-12): they are stored and never read. The model keeps them in `TrackingParams` and gives them no effect.
- The wiring in app/main.py, the GUI (app/ui/UIController.py) and the profile store (app/preferences/PreferencesController.py) are not part of this model.
- The detector requires strictly increasing timestamps in live-stream mode. Two cycles within the same millisecond would violate that. `TimestampsMonotone` proves only that timestamps never decrease; the detector's own check is not modelled.
