/**
 * The status message the publisher sends each cycle: a JSON object whose
 * `Defect` field is the defect flag of the latest record, streamed as a
 * digit because the stream is not in `boolalpha` mode.
 */
module Telemetry {
  import opened Assembly
  import opened Wrappers

  /** The topic the status message is published on. */
  const Topic := "defects/counter"

  const PayloadPrefix := "{\"Defect\": \""
  const PayloadSuffix := "\"}"

  /** How an output stream prints a `bool` by default. */
  function StreamedBool(b: bool): char {
    if b then '1' else '0'
  }

  /** The payload for `info`; only the defect flag shows. */
  function DefectPayload(info: AssemblyInfo): (p: string)
    ensures p == (if info.defect then "{\"Defect\": \"1\"}" else "{\"Defect\": \"0\"}")
    ensures ReadDefect(p) == Some(info.defect)
  {
    PayloadPrefix + [StreamedBool(info.defect)] + PayloadSuffix
  }

  /** What a subscriber reads back: the flag of a well-formed payload, nothing otherwise. */
  function ReadDefect(p: string): Option<bool> {
    if |p| == |PayloadPrefix| + 1 + |PayloadSuffix| &&
       p[..|PayloadPrefix|] == PayloadPrefix && p[|PayloadPrefix| + 1..] == PayloadSuffix &&
       (p[|PayloadPrefix|] == '0' || p[|PayloadPrefix|] == '1')
    then Some(p[|PayloadPrefix|] == '1')
    else None
  }
}
