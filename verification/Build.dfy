/** ContextBudgetManager.build without its database writes: the selection and the
    manifest rows it records, and what holds of them for every request. */
module Build {
  import opened Basics
  import opened Context
  import opened Manager
  import Compressor
  import Ranker
  import Text

  datatype Request = Request(
    policy: Policy,
    cands: seq<Candidate>,
    requestedOutput: int,
    contextWindow: Option<int>,
    providerMaxOutput: Option<int>,
    maxInput: Option<int>)

  /** A row of the manifest for a candidate; `hasArtifact` says whether it points to the
      artifact row of its compression. */
  datatype ItemRow = ItemRow(
    ordinal: nat,
    itemType: ItemType,
    sourceRefType: Option<string>,
    sourceRefId: Option<string>,
    rankScore: real,
    tokenCount: int,
    level: CompressionLevel,
    isSelected: bool,
    isProtected: bool,
    reason: string,
    hasArtifact: bool)

  datatype ArtifactRow = ArtifactRow(
    level: CompressionLevel,
    tokenBefore: nat,
    tokenAfter: nat,
    validationStatus: string,
    provenance: seq<string>)

  datatype Envelope = Envelope(
    allocation: Allocation,
    selected: seq<Candidate>,
    rejected: seq<Candidate>,
    tokenBefore: int,
    tokenAfter: int,
    protectedCount: nat,
    compressedCount: nat,
    truncated: bool,
    rendered: string,
    rows: seq<ItemRow>,
    artifacts: map<nat, ArtifactRow>)

  /** The entries of a table keyed by position, in order of position. */
  function Listed(n: nat, m: map<nat, Candidate>): seq<Candidate> {
    if n == 0 then []
    else if n - 1 in m then Listed(n - 1, m) + [m[n - 1]]
    else Listed(n - 1, m)
  }

  function Contents(cands: seq<Candidate>): seq<string> {
    seq(|cands|, i requires 0 <= i < |cands| => cands[i].content)
  }

  function CountProtected(cands: seq<Candidate>): nat {
    if cands == [] then 0 else (if cands[0].isProtected then 1 else 0) + CountProtected(cands[1..])
  }

  function RowOf(cands: seq<Candidate>, pruned: set<nat>, l: Ledger, i: nat): ItemRow
    requires i < |cands|
  {
    var effective := if i in l.selected then l.selected[i] else cands[i];
    ItemRow(i, cands[i].itemType, cands[i].sourceRefType, cands[i].sourceRefId, cands[i].rankScore,
            if i in l.tokens then l.tokens[i] else EstimateTokens(cands[i].content),
            effective.level,
            i in l.selected,
            cands[i].isProtected,
            if i in l.selected then effective.reason
            else if i in pruned then "context_policy_pruned"
            else "context_budget_pruned",
            i in l.compressions)
  }

  function ArtifactOf(z: Compressor.Compressed): ArtifactRow {
    ArtifactRow(z.candidate.level, z.tokenBefore, z.tokenAfter, "provenance_preserved", z.candidate.provenance)
  }

  function Unselected(cands: seq<Candidate>, l: Ledger): map<nat, Candidate> {
    map i | i in Upto(|cands|) && i !in l.selected :: cands[i]
  }

  function EnvelopeOf(cands: seq<Candidate>, allocation: Allocation, pruned: set<nat>, l: Ledger): Envelope {
    var selected := Listed(|cands|, l.selected);
    var rejected := Listed(|cands|, Unselected(cands, l));
    Envelope(allocation, selected, rejected, TokensBefore(cands), l.used,
             CountProtected(selected), |l.compressions|,
             rejected != [] || l.compressions != map[],
             Text.Join("\n\n", Contents(selected)),
             seq(|cands|, i requires 0 <= i < |cands| => RowOf(cands, pruned, l, i)),
             map i | i in l.compressions :: ArtifactOf(l.compressions[i]))
  }

  function Allocated(q: Request): Result<Allocation, BudgetError> {
    AllocateBudget(q.contextWindow, q.requestedOutput, q.providerMaxOutput, q.maxInput)
  }

  /** The decisions of the selection loop over the ranker's order. */
  ghost function Decisions(features: string -> set<string>, important: string -> bool, q: Request,
                           budget: int): Ledger {
    Fill(important, q.policy, budget, q.cands, Ranker.MmrSequence(features, q.cands, q.policy))
  }

  ghost function Built(features: string -> set<string>, important: string -> bool,
                       q: Request): Result<Envelope, BudgetError> {
    var a := Allocated(q);
    if a.Err? then Err(a.error)
    else if ProtectedTokens(q.cands) > a.value.inputBudget then Err(ProtectedTooLarge)
    else Ok(EnvelopeOf(q.cands, a.value, Ranker.Pruned(features, q.cands, q.policy),
                       Decisions(features, important, q, a.value.inputBudget)))
  }

  method BuildContext(features: string -> set<string>, important: string -> bool, q: Request)
    returns (r: Result<Envelope, BudgetError>)
    ensures r == Built(features, important, q)
  {
    hide Fill, EnvelopeOf, AllocateBudget, Ranker.MmrSequence, Ranker.Pruned, Ranker.OrdersAll, Usable,
         ProtectedTokens, EstimateTokens, Compressor.Compress;
    var a := Allocated(q);
    if a.Err? {
      return Err(a.error);
    }
    var allocation := a.value;
    var budget := allocation.inputBudget;
    if ProtectedTokens(q.cands) > budget {
      return Err(ProtectedTooLarge);
    }
    var order, pruned := Ranker.MmrOrder(features, q.cands, q.policy);
    OrderUsable(features, q);
    BudgetPositive(q);
    var selected: map<nat, Candidate> := map[];
    var tokenBy: map<nat, int> := map[];
    var compressionBy: map<nat, Compressor.Compressed> := map[];
    var used := 0;
    NothingOffered(important, q, budget);
    for k := 0 to |order|
      invariant Ledger(selected, tokenBy, compressionBy, used) == Fill(important, q.policy, budget, q.cands, order[..k])
    {
      FillStep(important, q.policy, budget, q.cands, order, k);
      var index := order[k];
      assert index !in pruned;
      if index in pruned {
        continue;
      }
      var candidate := q.cands[index];
      var tokens := EstimateTokens(candidate.content);
      if used + tokens <= budget {
        selected := selected[index := candidate];
        tokenBy := tokenBy[index := tokens];
        used := used + tokens;
        continue;
      }
      if candidate.isProtected || candidate.itemType !in q.policy.compressibleTypes {
        continue;
      }
      var compressed := Compressor.CompressCandidate(important, candidate, budget - used);
      if compressed.None? {
        continue;
      }
      selected := selected[index := compressed.value.candidate];
      tokenBy := tokenBy[index := compressed.value.tokenAfter];
      compressionBy := compressionBy[index := compressed.value];
      used := used + compressed.value.tokenAfter;
    }
    assert order[..|order|] == order;
    r := Ok(EnvelopeOf(q.cands, allocation, pruned, Ledger(selected, tokenBy, compressionBy, used)));
  }

  lemma NothingOffered(important: string -> bool, q: Request, budget: int)
    ensures Fill(important, q.policy, budget, q.cands, []) == Ledger(map[], map[], map[], 0)
  {
  }

  lemma OrderUsable(features: string -> set<string>, q: Request)
    ensures Usable(q.cands, Ranker.MmrSequence(features, q.cands, q.policy))
    ensures forall i :: i in Ranker.MmrSequence(features, q.cands, q.policy) ==>
        i !in Ranker.Pruned(features, q.cands, q.policy)
  {
    hide Ranker.MmrSequence, Ranker.Pruned;
    Ranker.OrderPartitions(features, q.cands, q.policy);
  }

  lemma BudgetPositive(q: Request)
    ensures Allocated(q).Ok? ==> Allocated(q).value.inputBudget >= MIN_INPUT_BUDGET
  {
  }
}
