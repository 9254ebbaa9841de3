/** The context policies of the workflow's nodes. */
module Policies {
  import opened Basics
  import opened Context

  const DEFAULT_COMPRESSIBLE := {StateSummary, SourceChunk, RecentAction, Memory}

  /** The policy of a node; nodes without one of their own share the default. */
  function Resolve(nodeName: string): Policy {
    if nodeName == "planner" then
      Policy(0.75, 0.90, map[Memory := 8, RecentAction := 5], DEFAULT_COMPRESSIBLE)
    else if nodeName == "evidence_extractor" then
      Policy(0.78, 0.88, map[SourceChunk := 8], {SourceChunk})
    else if nodeName == "report_writer" then
      Policy(0.68, 0.90, map[EvidenceCard := 20, Conflict := 8, Memory := 6], {StateSummary, Memory, RecentAction})
    else
      Policy(0.72, 0.92, map[], DEFAULT_COMPRESSIBLE)
  }
}
