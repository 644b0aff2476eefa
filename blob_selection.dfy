/**
 * Choosing the measured part among the bounding rectangles of the contours
 * found in one frame: the largest rectangle that lies strictly inside the
 * frame horizontally and is wider than 30 pixels.
 */
module BlobSelection {
  import opened Assembly

  /** The minimum width, exclusive, of a rectangle that can be a part. */
  const MinWidth := 30

  /** What the image pipeline hands to the core for one frame. */
  datatype Detection = Detection(rects: seq<Rect>, cols: int)

  function Area(r: Rect): int {
    r.width * r.height
  }

  /** The rectangle does not touch the left or right frame edge and is wide enough. */
  predicate Qualifies(r: Rect, cols: int) {
    r.x > 0 && r.x + r.width < cols && r.width > MinWidth
  }

  /**
   * Index `i` is the one the scan keeps: it qualifies with a positive area,
   * every earlier qualifying rectangle is strictly smaller (so the first of
   * several maximal rectangles wins) and no later qualifying one is larger.
   */
  predicate Chosen(rects: seq<Rect>, cols: int, i: int) {
    0 <= i < |rects| && Qualifies(rects[i], cols) && Area(rects[i]) > 0 &&
    (forall j :: 0 <= j < i && Qualifies(rects[j], cols) ==> Area(rects[j]) < Area(rects[i])) &&
    (forall j :: i < j < |rects| && Qualifies(rects[j], cols) ==> Area(rects[j]) <= Area(rects[i]))
  }

  /**
   * `(area, rect)` is the outcome of the selection: either no qualifying
   * rectangle has a positive area and the result is `0` with the default
   * rectangle, or the result is the area and rectangle of the chosen index.
   */
  predicate IsLargestBlob(rects: seq<Rect>, cols: int, area: int, rect: Rect) {
    (area == 0 && rect == NoRect &&
     forall j :: 0 <= j < |rects| && Qualifies(rects[j], cols) ==> Area(rects[j]) <= 0) ||
    (exists i :: 0 <= i < |rects| && Chosen(rects, cols, i) && area == Area(rects[i]) && rect == rects[i])
  }

  /** The scan over the rectangles, keeping the strictly largest qualifying one. */
  method LargestBlob(rects: seq<Rect>, cols: int) returns (maxBlobArea: int, maxRect: Rect)
    ensures maxBlobArea >= 0
    ensures forall j :: 0 <= j < |rects| && Qualifies(rects[j], cols) ==> Area(rects[j]) <= maxBlobArea
    ensures IsLargestBlob(rects, cols, maxBlobArea, maxRect)
  {
    maxBlobArea, maxRect := 0, NoRect;
    ghost var best := -1;
    for i := 0 to |rects|
      invariant -1 <= best < i
      invariant best == -1 ==> maxBlobArea == 0 && maxRect == NoRect
      invariant best >= 0 ==> maxBlobArea == Area(rects[best]) && maxRect == rects[best] &&
                              Qualifies(rects[best], cols) && maxBlobArea > 0
      invariant best >= 0 ==> forall j :: 0 <= j < best && Qualifies(rects[j], cols) ==> Area(rects[j]) < maxBlobArea
      invariant forall j :: 0 <= j < i && Qualifies(rects[j], cols) ==> Area(rects[j]) <= maxBlobArea
    {
      var rect := rects[i];
      var partArea := Area(rect);
      if partArea > maxBlobArea && rect.x > 0 && rect.x + rect.width < cols && rect.width > MinWidth {
        maxBlobArea, maxRect := partArea, rect;
        best := i;
      }
    }
    if best >= 0 {
      assert Chosen(rects, cols, best);
    }
  }

  /**
   * The selection is determined by its inputs: two outcomes that both meet
   * `IsLargestBlob` are the same area and the same rectangle.
   */
  lemma LargestBlobIsUnique(rects: seq<Rect>, cols: int, a1: int, r1: Rect, a2: int, r2: Rect)
    requires IsLargestBlob(rects, cols, a1, r1)
    requires IsLargestBlob(rects, cols, a2, r2)
    ensures a1 == a2 && r1 == r2
  {
  }
}
