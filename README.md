# Object size detector: verified model of the inspection core

The object size detector watches an assembly line through a camera. For each
frame it looks for the largest blob fully inside the picture, measures its
area, and decides through a small state machine with hysteresis whether the
part on the belt is defective. It counts parts and defects in a shared record
and publishes the defect flag on the `defects/counter` telemetry topic.

This project models the integer logic of `application/src/main.cpp` in Dafny
and proves what that logic guarantees:

- `BlobSelection`: the scan over contour bounding rectangles that keeps the
  largest `width * height` among the qualifying ones. A rectangle qualifies
  when `x > 0`, `x + width < cols` and `width > 30`.
- `Classifier`: the per-frame classification step. `Classify` is the step as
  a function of the old state. `DefectClassifier` is a class holding the four
  globals `prev_seen`, `prev_defect`, `frame_defect_count` and
  `frame_ok_count`. Its `Step` method updates them in place and is proved
  equal to `Classify`.
- `Hysteresis`: the classifier run over streams of frames. It proves:
  - when a part is counted;
  - on which frame a defect is reported;
  - that at most one defect is reported per continuous stretch of a part;
  - the threshold behaviour of the two counters;
  - that defects never outnumber parts.
- `FrameHandOff`: the single-slot frame queue (`addImage` and
  `nextImageAvailable`) as a class over a `seq` of length at most one, with
  the drop-newest policy. A replay lemma shows that frames reach the worker
  in capture order.
- `SharedState`: the shared `currentInfo` record and the `total_parts` and
  `total_defects` counters, through `updateInfo`, `getCurrentInfo` and
  `resetInfo`.
- `Telemetry`: the payload string of `publishMQTTMessage`.
- `Application`: the threads reduced to their locked steps. `Pipeline`
  combines the slot, the classifier and the shared record. Its invariant
  composes the classifier state with the totals, so that
  `total_defects <= total_parts` holds after every processed frame.

Each locked region of the source is one method. The image pipeline is a
parameter. In `ProcessFrame` it is the list of bounding rectangles with the
frame width. In `WorkerTick` it is a function from frames to that list.

Some behaviours of the source are easy to misread. The model follows the
code:

- The start frame of a part already counts towards `frame_defect_count`,
  because line 238 runs before the `prev_seen` test at line 244. A part whose
  every frame fails is therefore reported on its 11th frame, not its 12th
  (`Hysteresis.EveryFrameFails`).
- The payload carries `"1"` or `"0"`, because the `bool` is streamed without
  `boolalpha`. It does not carry `"true"` or `"false"`.
- `frame_defect_count` counts failing frames, not consecutive ones. It is
  cleared only by an empty-belt frame, or by a passing frame once
  `frame_ok_count` exceeds 10. A few passing frames between failing ones do
  not clear it. `Hysteresis.FewFailuresNeverFire` states the threshold in
  these terms. `Hysteresis.FailuresAccumulateAcrossShortPass` shows a part
  reported after eleven failing frames split by a short passing stretch,
  for example six failing, one passing and five failing frames.

## Model

| member | source | states |
|---|---|---|
| `BlobSelection.LargestBlob` | application/src/main.cpp:219-230 | The result is non-negative and at least the area of every qualifying rectangle. It is either 0 with the default rectangle, when no qualifying rectangle has a positive area, or the area and rectangle of the first qualifying rectangle of maximal area. |
| `BlobSelection.LargestBlobIsUnique` | application/src/main.cpp:224-228 | The selection contract fixes the result. Because of the strict `>`, the area and the kept rectangle are unique, ties included. |
| `Classifier.Classify` | application/src/main.cpp:233-274 | One frame of the classifier. An empty belt resets all four state fields and reports no part, no defect and no flag. A part is counted exactly on a non-empty frame with no part seen before, and is never a defect on that frame. A defect is reported exactly on a failing frame of a part already seen whose failing count, this frame included, exceeds 10 and was not yet confirmed. `show` equals the new `prev_defect` and stays set while the belt is occupied. Each counter resets one-sidedly. Every step lands in a consistent state and keeps the part/defect balance. |
| `Classifier.DefectClassifier.constructor` | application/src/main.cpp:74-81 | The four globals start false and 0, with the configured area bounds. |
| `Classifier.DefectClassifier.Step` | application/src/main.cpp:233-274 | The in-place update of the four globals gives the state and the emitted record of `Classify`. Afterwards the state is consistent and `show` equals `prev_defect`. |
| `Hysteresis.Run` | application/src/main.cpp:188-277 | Successive worker iterations. One record per frame, reporting that frame's area and rectangle. Consistency of the state is preserved. |
| `Hysteresis.IncTotalMarksPartStart` | application/src/main.cpp:243-246 | Over any stream, `inc_total` is true exactly on a non-empty frame whose predecessor was empty. For the first frame, it is true exactly when no part was seen before. |
| `Hysteresis.NoDefectWhileConfirmed` | application/src/main.cpp:253-257 | Once a defect is confirmed, no defect is reported again before an empty-belt frame. |
| `Hysteresis.DefectsSeparatedByGap` | application/src/main.cpp:253-267 | Between any two reported defects there is an empty-belt frame. |
| `Hysteresis.DefectAtMostOncePerPart` | application/src/main.cpp:253-257 | In a stream with a part present on every frame, at most one frame reports a defect. |
| `Hysteresis.FewFailuresNeverFire` | application/src/main.cpp:235-259 | If the failing count so far plus the later failing frames is at most 10, no frame reports a defect, whatever the mix of passing and empty frames. |
| `Hysteresis.PartWithFewFailuresIsNotDefective` | application/src/main.cpp:235-259 | From start-up, a stream with at most 10 failing frames reports no defect. |
| `Hysteresis.FailingStreak` | application/src/main.cpp:235-259 | A part on the belt receiving failing frames counts every one. The defect is reported exactly on the frame that takes the count past 10, and never counts a part. The resulting state is given exactly, with `frame_ok_count` cleared from then on. |
| `Hysteresis.PassingStreak` | application/src/main.cpp:239-251 | A part on the belt receiving passing frames reports nothing and counts each frame as passing. The failing count is cleared once the passing count exceeds 10, and the confirmed flag is unchanged. |
| `Hysteresis.EveryFrameFails` | application/src/main.cpp:235-259 | From start-up, a part whose every frame fails is counted on frame 1 only. It is reported defective on its 11th frame (index 10) and on no other. The final state is given exactly. |
| `Hysteresis.EveryFramePasses` | application/src/main.cpp:235-251 | From start-up, a part whose every frame passes is counted on frame 1 only, and is never reported or flagged. |
| `Hysteresis.NeverFlaggedWithoutDefect` | application/src/main.cpp:253-271 | With no failing frame and no prior confirmation, `show` is never set. |
| `Hysteresis.FailuresClearedByPassingStretch` | application/src/main.cpp:235-259 | A part fails for 1 to 10 frames, passes for more than 10, then fails again. Its only defect report comes on the 11th frame of the second failing stretch. |
| `Hysteresis.FailuresAccumulateAcrossShortPass` | application/src/main.cpp:235-259 | A part fails for 1 to 10 frames, passes for at most 10, then fails again. The passing frames do not clear the failing count. The only defect report comes on the frame that makes the failing frames of both stretches eleven. |
| `Hysteresis.DefectsNeverOutnumberParts` | application/src/main.cpp:233-274 | From a consistent state, over any stream, the reported defects plus the new open part are at most the counted parts plus the old open part. |
| `Hysteresis.TotalsStayOrdered` | application/src/main.cpp:143-148 | From start-up, the number of defect records never exceeds the number of new-part records. |
| `FrameHandOff.FrameSlot.constructor` | application/src/main.cpp:62 | The queue starts empty. |
| `FrameHandOff.FrameSlot.AddImage` | application/src/main.cpp:118-124 | The slot keeps holding at most one frame. An empty slot stores the frame. A full slot is left unchanged, so the newest frame is dropped. |
| `FrameHandOff.FrameSlot.NextImageAvailable` | application/src/main.cpp:105-115 | An empty slot gives no frame and stays empty. A full slot gives its stored frame and becomes empty. |
| `FrameHandOff.Replay` | application/src/main.cpp:105-124 | Any sequence of locked slot operations keeps the slot at no more than one frame. |
| `FrameHandOff.DeliveredInCaptureOrder` | application/src/main.cpp:105-124 | The frames the worker receives are a subsequence of the waiting frame followed by the offered frames. Frames may be dropped, but they are never reordered or invented. |
| `SharedState.SharedInfo.constructor` | application/src/main.cpp:76-94 | The record starts all-zero, and both totals start at 0. |
| `SharedState.SharedInfo.GetCurrentInfo` | application/src/main.cpp:127-134 | Returns the current record unchanged. |
| `SharedState.SharedInfo.UpdateInfo` | application/src/main.cpp:137-150 | Copies `defect`, `show`, `area` and `rect` and leaves `inc_total` untouched. Adds 1 to the part total exactly when `inc_total` is set, and 1 to the defect total exactly when `defect` is set. |
| `SharedState.SharedInfo.ResetInfo` | application/src/main.cpp:153-160 | Clears only `defect`, `area`, `inc_total` and `rect`. `show` and the totals are unchanged. |
| `Telemetry.DefectPayload` | application/src/main.cpp:163-167 | The payload is `{"Defect": "1"}` for a defect record and `{"Defect": "0"}` otherwise. A reader parsing it recovers exactly the defect flag. |
| `Application.Pipeline.constructor` | application/src/main.cpp:74-96 | Fresh slot, classifier and shared record in their start states, with the configured bounds. The composed invariant holds. |
| `Application.Pipeline.Capture` | application/src/main.cpp:373 | The capture side's hand-off keeps the invariant and applies the slot's drop-newest rule. |
| `Application.Pipeline.ProcessFrame` | application/src/main.cpp:190-276 | One frame flows through blob selection, the classifier step and `updateInfo`. The measured area and rectangle are the largest qualifying blob. The new classifier state and record are those of `Classify`. Totals move as `updateInfo` says, and `total_defects <= total_parts` holds afterwards. |
| `Application.Pipeline.WorkerTick` | application/src/main.cpp:187-278 | One worker iteration. With an empty slot nothing changes and nothing is returned. Otherwise the taken frame goes through `ProcessFrame`: its largest qualifying blob is measured, and the returned record and the new classifier state are those of `Classify`. The shared record and the totals move as `updateInfo` says. The slot ends empty and `total_defects <= total_parts` is kept. |
| `Application.Pipeline.MessageTick` | application/src/main.cpp:284-289 | One publisher iteration sends the payload of the current shared record. |

## Left out

- The image pipeline (colour conversion, blur, morphology, threshold, contour extraction, bounding boxes; lines 202-216 and 221) is foreign library code. The model takes the bounding rectangles and the frame width as input.
- Threads, the `keepRunning` flag, the mutexes and the polling loops are concurrency. Each locked region is one sequential method.
- Two data races of the source are not reproduced:
  - line 202 converts the global `frame` instead of the dequeued frame; the model processes the dequeued frame;
  - line 380 reads the totals without the lock.
- MQTT start, connect, publish, control-message handling and disconnect, and `syslog`, are network and logging I/O. Only the payload string and the topic constant are modelled.
- The display overlay, `imshow` and `waitKey` are UI.
- The `sleep_for` cadence of the publisher is timing.
- The signal handler is process plumbing.
- Command-line and JSON configuration parsing and opening the video source are configuration I/O. The bounds are constructor parameters.
- `delay = 1000 / fps` is floating point.
- Frames are an opaque type parameter. An empty `Mat` returned by `nextImageAvailable` is `None`.
- SharedState.SharedInfo.UpdateInfo: the totals are unbounded `nat`. The source's `int` counters can overflow after 2^31 increments, and the model does not show that.
- Classifier.DefectClassifier.Step: `frame_defect_count` and `frame_ok_count` are unbounded `nat`. The source's `int` counters could overflow on an unbroken stretch of 2^31 frames, and the model does not show that.
- BlobSelection.LargestBlob: `width * height` is exact integer multiplication. Frames are resized to 960x540, so the source's `int` product cannot overflow.
