/**
 * The value types shared by the inspection core: the bounding rectangle of a
 * detected blob and the per-frame `AssemblyInfo` record.
 */
module Assembly {

  /** An axis-aligned rectangle as produced by a bounding-box computation. */
  datatype Rect = Rect(x: int, y: int, width: int, height: int)

  /** The default-constructed rectangle: all four fields zero. */
  const NoRect := Rect(0, 0, 0, 0)

  /** What one processed frame reports, in the field order of the source record. */
  datatype AssemblyInfo = AssemblyInfo(
    incTotal: bool,   // a new part arrived on this frame
    defect: bool,     // a defect was confirmed on this frame (edge)
    area: int,        // the measured area of the largest qualifying blob
    show: bool,       // the current part is flagged defective (level)
    rect: Rect        // the bounding rectangle of that blob
  )

  /** The zero-initialised record the shared state starts with. */
  const NoInfo := AssemblyInfo(false, false, 0, false, NoRect)
}
