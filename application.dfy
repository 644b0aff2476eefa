/**
 * The inspection application with its threads reduced to their locked
 * steps: the capture side offers frames, one worker iteration takes a frame
 * through blob selection, the classifier and the shared record, and one
 * publisher iteration builds the status message. Composing the classifier
 * with the shared record keeps the defect total below the part total.
 */
module Application {
  import opened Wrappers
  import opened Assembly
  import opened BlobSelection
  import opened Classifier
  import opened FrameHandOff
  import opened SharedState
  import Telemetry

  /** Every reported defect is matched by a counted part, the open part included. */
  predicate Balanced(s: ClassifierState, totalParts: nat, totalDefects: nat) {
    totalDefects + OpenPart(s) <= totalParts
  }

  class Pipeline<F> {
    const slot: FrameSlot<F>
    const classifier: DefectClassifier
    const shared: SharedInfo

    ghost predicate Valid()
      reads this, slot, classifier, shared
    {
      slot.Valid() && shared.Valid() && Consistent(classifier.Snapshot()) &&
      Balanced(classifier.Snapshot(), shared.totalParts, shared.totalDefects)
    }

    constructor (minArea: int, maxArea: int)
      ensures Valid() && fresh(slot) && fresh(classifier) && fresh(shared)
      ensures slot.queue == [] && classifier.Snapshot() == Initial && classifier.bounds == Bounds(minArea, maxArea)
      ensures shared.currentInfo == NoInfo && shared.totalParts == 0 && shared.totalDefects == 0
    {
      slot := new FrameSlot();
      classifier := new DefectClassifier(minArea, maxArea);
      shared := new SharedInfo();
    }

    /** The capture loop's hand-off of a grabbed frame. */
    method Capture(img: F)
      requires Valid()
      modifies slot
      ensures Valid()
      ensures slot.queue == Offer(old(slot.queue), img)
    {
      slot.AddImage(img);
    }

    /** The processing of one frame whose contours have bounding rectangles `d`. */
    method ProcessFrame(d: Detection) returns (info: AssemblyInfo)
      requires Valid()
      modifies classifier, shared
      ensures Valid()
      ensures shared.totalDefects <= shared.totalParts
      ensures IsLargestBlob(d.rects, d.cols, info.area, info.rect)
      ensures var o := Classify(old(classifier.Snapshot()), info.area, info.rect, classifier.bounds);
              classifier.Snapshot() == o.next && info == o.info
      ensures shared.currentInfo ==
              old(shared.currentInfo).(defect := info.defect, show := info.show, area := info.area, rect := info.rect)
      ensures shared.totalParts == old(shared.totalParts) + (if info.incTotal then 1 else 0)
      ensures shared.totalDefects == old(shared.totalDefects) + (if info.defect then 1 else 0)
    {
      var partArea, maxRect := LargestBlob(d.rects, d.cols);
      info := classifier.Step(partArea, maxRect);
      shared.UpdateInfo(info);
    }

    /** One iteration of the worker loop; `extract` stands for the image pipeline. */
    method WorkerTick(extract: F -> Detection) returns (processed: Option<AssemblyInfo>)
      requires Valid()
      modifies slot, classifier, shared
      ensures Valid() && slot.queue == []
      ensures shared.totalDefects <= shared.totalParts
      ensures old(slot.queue) == [] ==>
                processed == None && unchanged(classifier, shared)
      ensures old(slot.queue) != [] ==>
                processed.Some? &&
                IsLargestBlob(extract(old(slot.queue)[0]).rects, extract(old(slot.queue)[0]).cols,
                              processed.value.area, processed.value.rect) &&
                var info := processed.value;
                var o := Classify(old(classifier.Snapshot()), info.area, info.rect, classifier.bounds);
                classifier.Snapshot() == o.next && info == o.info &&
                shared.currentInfo ==
                  old(shared.currentInfo).(defect := info.defect, show := info.show, area := info.area, rect := info.rect) &&
                shared.totalParts == old(shared.totalParts) + (if info.incTotal then 1 else 0) &&
                shared.totalDefects == old(shared.totalDefects) + (if info.defect then 1 else 0)
    {
      var next := slot.NextImageAvailable();
      processed := None;
      if next.Some? {
        var info := ProcessFrame(extract(next.value));
        processed := Some(info);
      }
    }

    /** One iteration of the publisher loop: the message it sends. */
    method MessageTick() returns (payload: string)
      ensures payload == Telemetry.DefectPayload(shared.currentInfo)
    {
      var info := shared.GetCurrentInfo();
      payload := Telemetry.DefectPayload(info);
    }
  }
}
