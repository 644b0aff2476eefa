/**
 * The defect-classification state machine run once per processed frame.
 * `Classify` is its meaning as a function of the previous state and the
 * frame's measurement; `DefectClassifier` is the object whose four fields the
 * worker updates in place, one `Step` per frame.
 */
module Classifier {
  import opened Assembly

  /** A counter must exceed this many frames before it takes effect. */
  const Threshold := 10

  /** The configured acceptable range of part areas, both ends inclusive. */
  datatype Bounds = Bounds(minArea: int, maxArea: int)

  /** The four pieces of memory the classifier carries from frame to frame. */
  datatype ClassifierState = ClassifierState(
    prevSeen: bool,           // a part is currently on the belt
    prevDefect: bool,         // that part has been confirmed defective
    frameDefectCount: nat,    // failing frames counted for that part
    frameOkCount: nat         // passing frames counted for that part
  )

  /** The state at start-up and after every empty-belt frame. */
  const Initial := ClassifierState(false, false, 0, 0)

  /** The measured area lies outside the configured range. */
  predicate FrameFails(area: int, b: Bounds) {
    area > b.maxArea || area < b.minArea
  }

  /**
   * The states the classifier can be in: a confirmed defect belongs to a
   * part on the belt, and with no part on the belt everything is cleared.
   */
  predicate Consistent(s: ClassifierState) {
    (s.prevDefect ==> s.prevSeen) && (!s.prevSeen ==> s == Initial)
  }

  /** 1 while a part is on the belt that has not yet been reported defective. */
  function OpenPart(s: ClassifierState): nat {
    if s.prevSeen && !s.prevDefect then 1 else 0
  }

  datatype Outcome = Outcome(next: ClassifierState, info: AssemblyInfo)

  /** One frame: the measured `partArea` (0 when nothing qualified) and its rectangle. */
  function Classify(s: ClassifierState, partArea: int, rect: Rect, b: Bounds): (o: Outcome)
    // the record reports the measurement it was given
    ensures o.info.area == partArea && o.info.rect == rect
    // an empty belt discards all memory and reports nothing
    ensures partArea == 0 ==> o.next == Initial && !o.info.defect && !o.info.show && !o.info.incTotal
    ensures o.next.prevSeen <==> partArea != 0
    // a new part is counted exactly on the first non-empty frame, and is never a defect then
    ensures o.info.incTotal <==> partArea != 0 && !s.prevSeen
    ensures o.info.incTotal ==> !o.info.defect
    // a defect is reported only on a failing frame of a part already seen whose
    // failing count (this frame included) exceeds the threshold, and only once
    ensures o.info.defect <==>
              partArea != 0 && FrameFails(partArea, b) && s.prevSeen &&
              s.frameDefectCount + 1 > Threshold && !s.prevDefect
    // the level signal is the (possibly just updated) defect flag, and it is sticky
    ensures o.info.show == o.next.prevDefect
    ensures partArea != 0 ==> (o.next.prevDefect <==> s.prevDefect || o.info.defect)
    // a failing frame counts as failing; past the threshold it clears the passing count
    ensures partArea != 0 && FrameFails(partArea, b) ==>
              o.next.frameDefectCount == s.frameDefectCount + 1 &&
              o.next.frameOkCount == (if s.prevSeen && s.frameDefectCount + 1 > Threshold then 0 else s.frameOkCount)
    // a passing frame counts as passing; past the threshold it clears the failing count
    ensures partArea != 0 && !FrameFails(partArea, b) ==>
              o.next.frameOkCount == s.frameOkCount + 1 &&
              o.next.frameDefectCount == (if s.prevSeen && s.frameOkCount + 1 > Threshold then 0 else s.frameDefectCount)
    // every step lands in a consistent state, and a defect closes the open part
    ensures Consistent(o.next)
    ensures Consistent(s) ==>
              OpenPart(o.next) + (if o.info.defect then 1 else 0) <= OpenPart(s) + (if o.info.incTotal then 1 else 0)
  {
    if partArea == 0 then
      Outcome(Initial, AssemblyInfo(false, false, 0, false, rect))
    else
      var fails := FrameFails(partArea, b);
      var defectCount := if fails then s.frameDefectCount + 1 else s.frameDefectCount;
      var okCount := if fails then s.frameOkCount else s.frameOkCount + 1;
      if !s.prevSeen then
        Outcome(ClassifierState(true, s.prevDefect, defectCount, okCount),
                AssemblyInfo(true, false, partArea, s.prevDefect, rect))
      else
        var defectCount' := if !fails && okCount > Threshold then 0 else defectCount;
        var confirm := fails && defectCount' > Threshold;
        var fire := confirm && !s.prevDefect;
        var prevDefect' := s.prevDefect || confirm;
        var okCount' := if confirm then 0 else okCount;
        Outcome(ClassifierState(true, prevDefect', defectCount', okCount'),
                AssemblyInfo(false, fire, partArea, prevDefect', rect))
  }

  /** The classifier object: the four globals of the processing worker. */
  class DefectClassifier {
    var prevSeen: bool
    var prevDefect: bool
    var frameDefectCount: nat
    var frameOkCount: nat
    const bounds: Bounds

    function Snapshot(): ClassifierState
      reads this
    {
      ClassifierState(prevSeen, prevDefect, frameDefectCount, frameOkCount)
    }

    constructor (minArea: int, maxArea: int)
      ensures Snapshot() == Initial && bounds == Bounds(minArea, maxArea)
    {
      prevSeen, prevDefect := false, false;
      frameDefectCount, frameOkCount := 0, 0;
      bounds := Bounds(minArea, maxArea);
    }

    /** Processes one frame whose largest qualifying blob has `partArea` and `rect`. */
    method Step(partArea: int, rect: Rect) returns (info: AssemblyInfo)
      modifies this
      ensures Snapshot() == Classify(old(Snapshot()), partArea, rect, bounds).next
      ensures info == Classify(old(Snapshot()), partArea, rect, bounds).info
      ensures Consistent(Snapshot()) && info.show == prevDefect
    {
      var defect, frameDefect, incTotal := false, false, false;
      if partArea != 0 {
        if partArea > bounds.maxArea || partArea < bounds.minArea {
          frameDefect := true;
          frameDefectCount := frameDefectCount + 1;
        } else {
          frameOkCount := frameOkCount + 1;
        }
        if !prevSeen {
          prevSeen := true;
          incTotal := true;
        } else {
          if !frameDefect && frameOkCount > Threshold {
            frameDefectCount := 0;
          }
          if frameDefect && frameDefectCount > Threshold {
            if !prevDefect {
              prevDefect := true;
              defect := true;
            }
            frameOkCount := 0;
          }
        }
      } else {
        prevSeen := false;
        prevDefect := false;
        frameDefectCount := 0;
        frameOkCount := 0;
      }
      info := AssemblyInfo(incTotal, defect, partArea, prevDefect, rect);
    }
  }
}
