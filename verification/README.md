# Pull-to-refresh control: a Dafny model

This project models the logic behind SwiftUI-Refresher's pull-to-refresh control.

- **Math.** The clamp and interpolation arithmetic, `lerp` and `normalize`. Every indicator position and opacity is built from these two functions.
- **State machine.** `RefreshControlView` admits refreshes through a state machine. Each time the control's global top changes, it receives the new value. It captures the header inset once and turns the pull into a drag progress (`percent`). At full progress it asks for a refresh. Near the resting position it reopens the admission gate (`allowRefresh`). The deferred completion ends the refresh.
- **Projections.** Two values are read from that state: the indicator offset of `RefreshControlView` and the height of the clear shim `RefreshableScrollView` puts above its content.
- **Spinner formulas.** The placement and opacity formulas of the spinner views: `RefreshSpinnerView.offset`, the system-style spinner's position, `System2StyleRefreshSpinner.offset`, and the opacity both system-style spinners share.

Lengths (`CGFloat`) are Dafny `real`s.

The state machine is a pure step function over events:

- `OffsetChanged(value)` is one call of the `onChange` handler.
- `HoldElapsed` is the deferred block that clears `isRefreshing`.

A step returns the next state and a log of effects. The haptic and the call of the caller's `onRefresh` are both effects.

Files:

- `math.dfy` (module `RefreshMath`): `Lerp`, `Normalize` and their laws.
- `refresher.dfy` (module `RefreshControl`): state, events, `Refresh`, the sample handler, the completion, `Run` over event sequences, the indicator offset and the shim height.
- `refresher_traces.dfy` (module `RefreshTraces`): properties of whole event sequences. `onRefresh` is called at most once per admission cycle. Between two calls there must be both a completion and a sample at drag progress 0.1 or below.
- `refresh_spinner.dfy` (module `RefreshSpinner`): the spinner placement and opacity formulas.

`RefreshControlView` has fixed geometry, set at Sources/Refresher/Refresher.swift:17-29. The shim height is `RefreshableScrollView`'s `headerShimMaxHeight` (Sources/Refresher/Refresher.swift:94). The model uses these values as constants:

- trigger distance 140
- stop point -25
- off-screen point -300
- hold point 0
- pull clip point 0.2
- shim height 50

`RefreshSpinnerView` takes its placement as parameters, so the spinner formulas are stated for every placement whose normalisations are defined.

The controller modelled here is the revision in Sources/Refresher/Refresher.swift. It has no cooldown, reset point or render lock. Admission is gated only by `isRefreshing` and by `allowRefresh`, which reopens at drag progress 0.1 or below. A pull that returns to rest and crosses the threshold again therefore refreshes again as soon as the previous refresh has completed. Sources/Refresher/RefreshSpinner.swift reads a `RefresherState` (`mode`, `modeAnimated`, `dragPosition`) that this revision of Sources/Refresher/Refresher.swift does not define; the spinner formulas take those three fields as parameters.

## Model

| member | source | states |
|---|---|---|
| RefreshMath.Lerp | Sources/Refresher/Math.swift:5-7 | weight 0 gives the start, weight 1 gives the end, equal endpoints give that endpoint, and the distance from the start is the weight times the span |
| RefreshMath.Normalize | Sources/Refresher/Math.swift:9-12 | for min < max the result lies in [0, 1]; it is 0 exactly when val ≤ min, 1 exactly when val ≥ max, and the exact fraction (val - min)/(max - min) in between |
| RefreshMath.LerpBetween | Sources/Refresher/Math.swift:5-7 | for a weight in [0, 1] the interpolant lies between the two endpoints inclusive |
| RefreshMath.LerpMonotone | Sources/Refresher/Math.swift:5-7 | the interpolant is non-decreasing in the weight towards a larger endpoint and non-increasing towards a smaller one |
| RefreshMath.NormalizeMonotone | Sources/Refresher/Math.swift:9-12 | normalize is monotone non-decreasing in the value |
| RefreshMath.LerpNormalizeRoundTrip | Sources/Refresher/Math.swift:5-12 | on [min, max], interpolating between the bounds by the normalized fraction gives back the value |
| RefreshMath.NormalizeLerpRoundTrip | Sources/Refresher/Math.swift:5-12 | for weights in [0, 1], normalizing an interpolant between the bounds gives back the weight |
| RefreshMath.NormalizeAtMost | Sources/Refresher/Math.swift:9-12 | the fraction is at most a threshold c < 1 exactly when the value is at most min + c·(max - min) |
| RefreshControl.PullPercent | Sources/Refresher/Refresher.swift:74 | drag progress lies in [0, 1]; it reaches 1 exactly when the pull is at least 140 points and is at most 0.1 exactly when the pull is at most 14 points |
| RefreshControl.Refresh | Sources/Refresher/Refresher.swift:43-57 | refresh emits something exactly when not refreshing and the gate is open; when refused it changes nothing; when admitted it closes the gate, marks a refresh in flight and emits one haptic then one onRefresh; the inset and percent are never touched |
| RefreshControl.OnOffsetChanged | Sources/Refresher/Refresher.swift:68-84 | the first sample sets the inset, later samples never overwrite it; the first sample publishes percent 0 and emits nothing; the published percent is the sample's drag progress; a refresh fires exactly when the pull reaches 140 points while admitted; the sample never clears isRefreshing; afterwards the gate is open exactly when the progress is at most 0.1 or it was open and nothing fired |
| RefreshControl.OnHoldElapsed | Sources/Refresher/Refresher.swift:51-55 | the completion clears isRefreshing, emits nothing, and leaves allowRefresh, the inset and percent unchanged |
| RefreshControl.Step | Sources/Refresher/Refresher.swift:43-84 | every step keeps the reachable-state invariant (percent in [0, 1]; before the first sample the gate is open, percent is 0 and no refresh is in flight); only samples emit, always haptic then onRefresh, and a step that emits leaves a refresh in flight with the gate closed |
| RefreshControl.Run | Sources/Refresher/Refresher.swift:68-84 | running any event sequence from a reachable state ends in a reachable state |
| RefreshControl.HapticPairsWithRefresh | Sources/Refresher/Refresher.swift:47-50 | over any event sequence the number of haptics equals the number of onRefresh calls |
| RefreshControl.ControlOffset | Sources/Refresher/Refresher.swift:35-41 | the indicator offset is the stop point for pulls of at least 140; while refreshing it is the hold point for pulls ≤ 0 and stays between stop and hold; otherwise it is the off-screen point up to the pull clip point (28 points) and stays between off-screen and stop |
| RefreshControl.ControlOffsetMonotone | Sources/Refresher/Refresher.swift:35-41 | as the pull grows the indicator moves monotonically: towards the stop point from off screen when idle, from the hold point to the stop point while refreshing |
| RefreshControl.ShimHeight | Sources/Refresher/Refresher.swift:117-120 | the shim exists exactly when refreshing and not overlaid; for percent in [0, 1] its height lies in [0, 50], full at percent 0 and zero at percent 1 |
| RefreshControl.ShimHeightAntitone | Sources/Refresher/Refresher.swift:119 | the shim height never grows as percent grows |
| RefreshTraces.RefreshesBoundedByReopens | Sources/Refresher/Refresher.swift:44-83 | over any event sequence after the inset is known, onRefresh calls plus a final open gate never exceed an initially open gate plus the samples at progress ≤ 0.1 |
| RefreshTraces.RefreshesBoundedByCompletions | Sources/Refresher/Refresher.swift:44-54 | over any event sequence, onRefresh calls plus a final idle state never exceed an initially idle state plus the completions |
| RefreshTraces.NextRefreshNeedsCompletionAndRelease | Sources/Refresher/Refresher.swift:43-84 | right after a refresh fires, a further onRefresh requires the following events to contain a completion and a sample at progress ≤ 0.1 |
| RefreshTraces.BetweenTwoRefreshes | Sources/Refresher/Refresher.swift:43-84 | between any step that calls onRefresh and a later call there is a completion and a sample at progress ≤ 0.1 |
| RefreshTraces.FullPullsAreQuiet | Sources/Refresher/Refresher.swift:68-84 | while a refresh is in flight or the gate is closed, any number of samples at or past the trigger emit nothing and change only the published percent (to 1) |
| RefreshTraces.SampleIdempotent | Sources/Refresher/Refresher.swift:68-84 | delivering the same sample a second time emits nothing and changes nothing |
| RefreshTraces.FirstSampleOnlyCapturesInset | Sources/Refresher/Refresher.swift:69-74 | from a fresh mount the first sample only records the inset, with percent 0 and no effects |
| RefreshTraces.SinglePullScenario | Sources/Refresher/Refresher.swift:68-84 | pulls of 0, 40, 80, 150, 150, 150 points yield exactly one haptic and one onRefresh |
| RefreshSpinner.SpinnerOffset | Sources/Refresher/RefreshSpinner.swift:15-27 | offset is the stop point once the pull reaches refreshAt; while refreshing it is the hold point for pulls ≤ 0 and stays between hold and stop; otherwise, for a non-negative pull clip point and pulls up to it, it is exactly -headerInset + offScreenPoint·(1 + percent), and beyond it stays between -headerInset + offScreenPoint and the stop point |
| RefreshSpinner.SpinnerOffsetFacts | Sources/Refresher/RefreshSpinner.swift:20-21 | the off-screen branch is taken exactly for pulls up to pullClipPoint·refreshAt (never when the clip point is negative) |
| RefreshSpinner.RefreshingOffsetMonotone | Sources/Refresher/RefreshSpinner.swift:17-19 | while refreshing, the offset moves monotonically from the hold point towards the stop point as the pull grows |
| RefreshSpinner.SpinnerOpacity | Sources/Refresher/RefreshSpinner.swift:54 | opacity lies in [0, 1]; it is 1 when the animated mode is refreshing or the drag is complete; otherwise it is 0 exactly when the drag is at most the opacity clip point |
| RefreshSpinner.SpinnerOpacityMonotone | Sources/Refresher/RefreshSpinner.swift:82 | the opacity of both system-style spinners never decreases as the drag progresses |
| RefreshSpinner.System2Offset | Sources/Refresher/RefreshSpinner.swift:68-74 | the offset is the hold point when refreshing or not refreshing; while pulling it is 0 at drag 0, the hold point at drag 1, and between 0 and the hold point for drags in [0, 1] |
| RefreshSpinner.System2OffsetMonotone | Sources/Refresher/RefreshSpinner.swift:72 | while pulling with a non-negative hold point, the offset never decreases as the drag progresses |

## Left out

- Views, `GeometryReader` and layout measurement are left out. The global top the framework reports is the `value` of an `OffsetChanged` event. The condition that the indicator is drawn only once the inset is known (Sources/Refresher/Refresher.swift:61) is part of the view body and is not modelled.
- The 300 ms `asyncAfter` of the completion is not modelled as a clock. `HoldElapsed` is an event that may arrive at any time, even when no refresh is in flight. This over-approximates the real schedule, so the properties proved for every event sequence also hold for the real ones.
- The caller's own work between `onRefresh` and its call of the completion is left out. It has no effect on this state until the deferred block runs.
- `onChange` fires only when the global top changes. `OffsetChanged` events may repeat a value, so the event sequences over-approximate what `onChange` delivers: the captured inset is the first changed top, and two equal consecutive values never arrive (`RefreshTraces.SampleIdempotent` shows repeats change nothing).
- RefreshSpinner.SystemSpinnerY: the system-style spinner's position, `-position + refreshHoldPoint` (Sources/Refresher/RefreshSpinner.swift:53), is kept as a plain definition. It is one subtraction with no property beyond itself.
- The asynchronous write of the `percent` binding (Sources/Refresher/Refresher.swift:75-77) is treated as immediate.
- Animations (`withAnimation`, `.animation`) are not modelled. `modeAnimated` is taken as given.
- The haptic generator is an effect in the log, not a call.
- IEEE floating point is not modelled: rounding, NaN and infinity are out. Normalisations whose range would be empty are excluded by `requires min < max`. These are refreshAt ≤ 0 and a clip point of 1 or more.
- `clipThresh` (Sources/Refresher/Refresher.swift:17) is never read and has no counterpart.
- OffsetReader.swift is not part of this model. It is a measurement relay whose duplicate suppression depends on a deferred main-queue assignment, which is a timing matter.
- RenderControl.swift is not part of this model. Its equality only matters through SwiftUI's view diffing.
- ScrollView+Extensions.swift, BlurView.swift, DefaultRefreshView.swift, the example apps and the package manifest are not part of this model. They are constructors, rendering and configuration.
- The async adapter's `Task` wrapper is concurrency and is left out.
- `Config` and `Style` are not among the source files, and `RefresherState` is read by Sources/Refresher/RefreshSpinner.swift but not defined in this revision of Sources/Refresher/Refresher.swift. The spinner formulas take the fields they read (`mode`, `modeAnimated`, `dragPosition`) as parameters.
