/**
 * The record shared between the worker, the publisher and the display:
 * the latest `AssemblyInfo` and the running totals, each accessor being one
 * locked region.
 */
module SharedState {
  import opened Assembly

  class SharedInfo {
    var currentInfo: AssemblyInfo
    var totalParts: nat
    var totalDefects: nat

    /** `incTotal` of the shared record is never written true. */
    ghost predicate Valid()
      reads this
    {
      !currentInfo.incTotal
    }

    constructor ()
      ensures Valid() && currentInfo == NoInfo && totalParts == 0 && totalDefects == 0
    {
      currentInfo := NoInfo;
      totalParts, totalDefects := 0, 0;
    }

    /** A consistent copy of the latest record. */
    method GetCurrentInfo() returns (info: AssemblyInfo)
      ensures info == currentInfo
    {
      info := currentInfo;
    }

    /**
     * Publishes one frame's record: copies everything but `incTotal`, and
     * counts a part on a new-part frame and a defect on a defect frame.
     */
    method UpdateInfo(info: AssemblyInfo)
      modifies this
      ensures currentInfo == old(currentInfo).(defect := info.defect, show := info.show, area := info.area, rect := info.rect)
      ensures totalParts == old(totalParts) + (if info.incTotal then 1 else 0)
      ensures totalDefects == old(totalDefects) + (if info.defect then 1 else 0)
      ensures old(Valid()) ==> Valid()
    {
      currentInfo := currentInfo.(defect := info.defect, show := info.show, area := info.area, rect := info.rect);
      if info.incTotal {
        totalParts := totalParts + 1;
      }
      if info.defect {
        totalDefects := totalDefects + 1;
      }
    }

    /** Clears the per-frame fields; `show` and the totals are kept. */
    method ResetInfo()
      modifies this
      ensures currentInfo == old(currentInfo).(defect := false, area := 0, incTotal := false, rect := NoRect)
      ensures totalParts == old(totalParts) && totalDefects == old(totalDefects)
      ensures Valid()
    {
      currentInfo := currentInfo.(defect := false, area := 0, incTotal := false, rect := NoRect);
    }
  }
}
