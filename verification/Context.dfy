/** The values the context budget manager works on. */
module Context {
  import opened Basics

  datatype ItemType =
    | Instruction | TaskBrief | StateSummary | Gap | EvidenceCard
    | SourceChunk | RecentAction | Conflict | Memory | OutputSchema

  datatype CompressionLevel = Raw | Extractive | Summarized

  datatype Candidate = Candidate(
    itemType: ItemType,
    content: string,
    rankScore: real,
    sourceRefType: Option<string>,
    sourceRefId: Option<string>,
    isProtected: bool,
    level: CompressionLevel,
    reason: string,
    provenance: seq<string>)

  datatype Policy = Policy(
    mmrLambda: real,
    redundancyThreshold: real,
    maxItemsByType: map<ItemType, int>,
    compressibleTypes: set<ItemType>)

  /** The positions of the protected candidates. */
  function Protected(cands: seq<Candidate>): set<nat> {
    set i: nat | i < |cands| && cands[i].isProtected
  }

  function Unprotected(cands: seq<Candidate>): set<nat> {
    set i: nat | i < |cands| && !cands[i].isProtected
  }
}
