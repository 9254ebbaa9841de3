/** Whether the prompt is free of near-duplicates. The ranker drops every candidate that is
    too similar to one it took before, but it compares contents before compression. This
    settles for which policies, and for which requests, the threshold still holds of what
    is put into the prompt. */
module Redundancy {
  import opened Basics
  import opened Context
  import opened Manager
  import opened Build
  import opened BuildProperties
  import Compressor
  import Greedy
  import Policies
  import Ranker
  import Text

  /** Any two unprotected items are less similar in the prompt than the threshold. */
  ghost predicate KeptApart(features: string -> set<string>, important: string -> bool, q: Request) {
    Built(features, important, q).Ok? ==>
      Apart(features, q.policy, Decisions(features, important, q, Allocated(q).value.inputBudget).selected)
  }

  ghost predicate Apart(features: string -> set<string>, policy: Policy, selected: map<nat, Candidate>) {
    forall i, j ::
      i in selected && j in selected && i != j && !selected[i].isProtected && !selected[j].isProtected ==>
        Ranker.Similarity(features, selected[i].content, selected[j].content) < policy.redundancyThreshold
  }

  // ----- The exact condition on the policy -----

  /** The policy lets at least `n` unprotected items of a type in. */
  predicate Admits(policy: Policy, t: ItemType, n: nat) {
    t in policy.maxItemsByType ==> policy.maxItemsByType[t] >= n
  }

  /** There is room for an item of a compressible type beside another unprotected one. */
  predicate Slots(policy: Policy, t: ItemType, u: ItemType) {
    && t in policy.compressibleTypes
    && Admits(policy, t, 1) && Admits(policy, u, 1)
    && (t == u ==> Admits(policy, t, 2))
  }

  /** The threshold can be met and missed, and something can be compressed beside
      something else. */
  ghost predicate CanCoincide(policy: Policy) {
    0.0 < policy.redundancyThreshold <= 1.0 && exists t, u :: Slots(policy, t, u)
  }

  lemma SelectedFillSlots(features: string -> set<string>, important: string -> bool, q: Request, i: nat, j: nat)
    requires Built(features, important, q).Ok?
    requires i < |q.cands| && j < |q.cands| && i != j && !q.cands[i].isProtected && !q.cands[j].isProtected
    requires var l := Decisions(features, important, q, Allocated(q).value.inputBudget);
      i in l.selected && j in l.selected && i in l.compressions
    ensures Slots(q.policy, q.cands[i].itemType, q.cands[j].itemType)
  {
    hide Fill, Sound, AllocateBudget, EnvelopeOf, ProtectedTokens, Ranker.MmrSequence, Ranker.Pruned, Ranker.SameType;
    var l := DecisionsSound(features, important, q);
    CompressionsSound(q.policy, Allocated(q).value.inputBudget, q.cands, l);
    SelectedUnderCap(features, important, q, i);
    SelectedUnderCap(features, important, q, j);
    if i < j {
      EarlierCounts(q.cands, i, j);
    } else {
      EarlierCounts(q.cands, j, i);
    }
  }

  lemma EarlierCounts(cands: seq<Candidate>, i: nat, j: nat)
    requires i < j < |cands| && !cands[i].isProtected
    ensures cands[i].itemType == cands[j].itemType ==> |Ranker.SameType(cands, j, cands[j].itemType)| > 0
  {
    if cands[i].itemType == cands[j].itemType {
      assert i in Ranker.SameType(cands, j, cands[j].itemType);
    }
  }

  lemma ApartUnlessSlots(features: string -> set<string>, important: string -> bool, q: Request)
    requires !CanCoincide(q.policy)
    ensures KeptApart(features, important, q)
  {
    hide Decisions, Built, Allocated, Sound, Ranker.Similarity, Slots;
    if Built(features, important, q).Ok? {
      SuccessMeans(features, important, q);
      var l := DecisionsSound(features, important, q);
      VerbatimUnlessCompressed(q.policy, Allocated(q).value.inputBudget, q.cands, l);
      forall i, j |
        i in l.selected && j in l.selected && i != j && !l.selected[i].isProtected && !l.selected[j].isProtected
        ensures Ranker.Similarity(features, l.selected[i].content, l.selected[j].content) < q.policy.redundancyThreshold
      {
        SelectedDissimilar(features, important, q, i, j);
        SimilarityRange(features, q.cands[i].content, q.cands[j].content);
        SimilarityRange(features, l.selected[i].content, l.selected[j].content);
        if q.policy.redundancyThreshold <= 1.0 {
          if i in l.compressions {
            SelectedFillSlots(features, important, q, i, j);
            assert false;
          } else if j in l.compressions {
            SelectedFillSlots(features, important, q, j, i);
            assert false;
          }
        }
      }
    }
  }

  lemma SimilarityRange(features: string -> set<string>, left: string, right: string)
    ensures 0.0 <= Ranker.Similarity(features, left, right) <= 1.0
  {
  }

  // ----- A request on which two items coincide -----

  /** A word of as many characters as the compressor keeps at 32 tokens, and a longer one. */
  function Word(): string {
    seq(96, _ => '1')
  }

  function LongerWord(): string {
    Word() + "2"
  }

  function Item(t: ItemType, content: string, isProtected: bool): Candidate {
    Candidate(t, content, 0.0, None, None, isProtected, Raw, "", [])
  }

  /** A protected item leaves 64 of 512 tokens; the word takes 32 and leaves 32, one too few
      for the longer word. */
  function Coinciding(policy: Policy, t: ItemType, u: ItemType): Request {
    Request(policy,
            [Item(Instruction, seq(1344, _ => 'x'), true), Item(u, Word(), false), Item(t, LongerWord(), false)],
            1000, None, None, Some(512))
  }

  lemma CoincidingAllocation(policy: Policy, t: ItemType, u: ItemType)
    ensures Allocated(Coinciding(policy, t, u)).Ok?
    ensures Allocated(Coinciding(policy, t, u)).value.inputBudget == 512
  {
    hide AllocateBudget, Affordable;
    AllocationIsLargest(None, 1000, None, Some(512));
    CoincidingAffordable();
    var a := AllocateBudget(None, 1000, None, Some(512));
    assert a.Ok?;
    assert Affordable(16000, 1000, Some(512), 512) <==> 512 <= a.value.inputBudget;
    assert Affordable(16000, 1000, Some(512), 513) <==> 513 <= a.value.inputBudget;
  }

  lemma CoincidingAffordable()
    ensures Affordable(16000, 1000, Some(512), 512) && !Affordable(16000, 1000, Some(512), 513)
  {
    var margin := 1600;
    assert margin >= 512 && 10 * margin >= 16000 && 512 + 1000 + margin <= 16000;
  }

  lemma CoincidingTokens(policy: Policy, t: ItemType, u: ItemType)
    ensures var cands := Coinciding(policy, t, u).cands;
      && EstimateTokens(cands[0].content) == 448
      && EstimateTokens(cands[1].content) == 32
      && EstimateTokens(cands[2].content) == 33
      && ProtectedTokens(cands) == 448
  {
    hide EstimateTokens;
    var cands := Coinciding(policy, t, u).cands;
    EstimatorsAgree(cands[0].content);
    EstimatorsAgree(cands[1].content);
    EstimatorsAgree(cands[2].content);
    assert |cands[0].content| == 1344 && |cands[1].content| == 96 && |cands[2].content| == 97;
    var s := Protected(cands);
    assert TokensAt(cands, s, 0) == 0;
    assert TokensAt(cands, s, 1) == 448;
    assert TokensAt(cands, s, 2) == 448;
  }

  /** The words have no feature in common, so the ranker keeps both, in order. */
  lemma CoincidingOrder(features: string -> set<string>, policy: Policy, t: ItemType, u: ItemType)
    requires Slots(policy, t, u) && policy.redundancyThreshold > 0.0
    requires features(Word()) !! features(LongerWord())
    ensures Ranker.MmrSequence(features, Coinciding(policy, t, u).cands, policy) == [0, 1, 2]
  {
    hide Ranker.Eligible, Ranker.CandidatePool, Greedy.Selection;
    var cands := Coinciding(policy, t, u).cands;
    CoincidingEligible(policy, t, u);
    CoincidingChosen(features, policy, t, u);
    assert Protected(cands) == {0};
    assert Ascending(0, {0}) == [] && Ascending(1, {0}) == [0] && Ascending(2, {0}) == [0] && Ascending(3, {0}) == [0];
    assert [0] + [1, 2] == [0, 1, 2];
  }

  lemma CoincidingEligible(policy: Policy, t: ItemType, u: ItemType)
    requires Slots(policy, t, u)
    ensures Ranker.Eligible(Coinciding(policy, t, u).cands, policy) == {1, 2}
  {
    var cands := Coinciding(policy, t, u).cands;
    assert Ranker.SameType(cands, 1, u) == {};
    assert Ranker.SameType(cands, 2, t) == if t == u then {1} else {};
    assert Ranker.UnderCap(cands, policy, 1);
    assert Ranker.UnderCap(cands, policy, 2);
  }

  lemma CoincidingChosen(features: string -> set<string>, policy: Policy, t: ItemType, u: ItemType)
    requires policy.redundancyThreshold > 0.0
    requires features(Word()) !! features(LongerWord())
    ensures var pool: set<nat> := {1, 2};
      Greedy.Selection(Ranker.CandidatePool(features, Coinciding(policy, t, u).cands, policy),
                       Some(policy.redundancyThreshold), |pool|, pool) == [1, 2]
  {
    var p := Ranker.CandidatePool(features, Coinciding(policy, t, u).cands, policy);
    var threshold := Some(policy.redundancyThreshold);
    var pool: set<nat> := {1, 2};
    assert |pool| == 2;
    assert p.relevance == [0.0, 0.0, 0.0] && p.second == [0.0, 0.0, 0.0];
    assert p.features[1] == features(Word()) && p.features[2] == features(LongerWord());
    Greedy.JaccardSymmetric(p.features[1], p.features[2]);
    PairInOrder(p, policy.redundancyThreshold);
  }

  /** Two items with equal scores and nothing in common are both taken, the first first. */
  lemma PairInOrder(p: Greedy.Pool, threshold: real)
    requires threshold > 0.0
    requires |p.relevance| == |p.second| == 3 && p.relevance[1] == p.relevance[2] && p.second[1] == p.second[2]
    requires Greedy.Overlap(p, 2, 1) == 0.0
    ensures Greedy.Selection(p, Some(threshold), 2, {1, 2}) == [1, 2]
  {
    hide Greedy.Overlap, Greedy.Selection;
    var limit, pool: set<nat> := 2, {1, 2};
    var v: seq<nat> := [1, 2];
    var t := Some(threshold);
    assert v[..0] == [] && v[..1] == [1] && v[..2] == [1, 2];
    assert Greedy.Penalty(p, 2, [1]) == 0.0 by {
      assert [1][..0] == [];
    }
    assert Greedy.Kept(p, t, []) == [];
    KeptOne(p, t);
    KeptTwo(p, t);
    assert pool - Elems([]) == pool && pool - Elems([1]) == {2} && pool - Elems(v) == {};
    assert Greedy.IsWinner(p, [], pool, 1);
    assert Greedy.IsWinner(p, [1], {2}, 2);
    Greedy.IsSelection(p, t, limit, pool, v);
  }

  lemma KeptOne(p: Greedy.Pool, t: Option<real>)
    ensures Greedy.Kept(p, t, [1]) == [1]
  {
    assert [1][..0] == [] && [] + [1] == [1];
  }

  lemma KeptTwo(p: Greedy.Pool, t: Option<real>)
    requires t.Some? && Greedy.Penalty(p, 2, [1]) < t.value
    ensures Greedy.Kept(p, t, [1, 2]) == [1, 2]
  {
    KeptOne(p, t);
    assert [1, 2][..1] == [1] && [1] + [2] == [1, 2];
  }

  /** The longer word is cut down to the word. */
  lemma CoincidingSelection(important: string -> bool, policy: Policy, t: ItemType, u: ItemType)
    requires t in policy.compressibleTypes
    ensures var l := Fill(important, policy, 512, Coinciding(policy, t, u).cands, [0, 1, 2]);
      && l.selected.Keys == {0, 1, 2}
      && l.selected[1] == Item(u, Word(), false)
      && l.selected[2].content == Word() && !l.selected[2].isProtected
  {
    hide EstimateTokens, Compressor.Compress, Word, LongerWord;
    var cands := Coinciding(policy, t, u).cands;
    CoincidingTokens(policy, t, u);
    assert Fill(important, policy, 512, cands, []) == EMPTY_LEDGER;
    assert [0][..0] == [] && [0, 1][..1] == [0] && [0, 1, 2][..2] == [0, 1];
    var first := Fill(important, policy, 512, cands, [0]);
    assert first == Consider(important, policy, 512, EMPTY_LEDGER, 0, cands[0]);
    var second := Fill(important, policy, 512, cands, [0, 1]);
    assert second == Consider(important, policy, 512, first, 1, cands[1]);
    assert second.used == 480;
    LongerWordIsCut(important, cands[2]);
  }

  lemma LongerWordIsCut(important: string -> bool, c: Candidate)
    requires c.content == LongerWord() && !c.isProtected
    ensures var z := Compressor.Compress(important, c, 32);
      z.Some? && z.value.candidate.content == Word() && !z.value.candidate.isProtected
  {
    hide Compressor.Compress;
    Compressor.LongWordIsCut(important, c, 32);
    Compressor.CompressedIsSmaller(important, c, 32);
    assert LongerWord()[..96] == Word();
  }

  /** Two words without a common feature are both selected, the second cut down to the
      first, so that the prompt holds the same text twice. */
  lemma CompressionCanCoincide(features: string -> set<string>, important: string -> bool, policy: Policy,
                               t: ItemType, u: ItemType)
    requires Slots(policy, t, u) && 0.0 < policy.redundancyThreshold
    requires features(Word()) == {Word()} && features(LongerWord()) == {LongerWord()}
    ensures var q := Coinciding(policy, t, u);
      && Built(features, important, q).Ok?
      && Ranker.Similarity(features, q.cands[1].content, q.cands[2].content) == 0.0
      && var l := Decisions(features, important, q, Allocated(q).value.inputBudget);
         && 1 in l.selected && 2 in l.selected && !l.selected[1].isProtected && !l.selected[2].isProtected
         && l.selected[1].content == l.selected[2].content == Word()
         && Ranker.Similarity(features, l.selected[1].content, l.selected[2].content) == 1.0
  {
    hide Fill, AllocateBudget, EnvelopeOf, ProtectedTokens, EstimateTokens, Ranker.MmrSequence, Ranker.Pruned, Slots;
    assert |Word()| != |LongerWord()|;
    CoincidingAllocation(policy, t, u);
    CoincidingTokens(policy, t, u);
    CoincidingOrder(features, policy, t, u);
    SlotCompressible(policy, t, u);
    CoincidingSelection(important, policy, t, u);
  }

  lemma SlotCompressible(policy: Policy, t: ItemType, u: ItemType)
    requires Slots(policy, t, u)
    ensures t in policy.compressibleTypes
  {
  }

  // ----- The main results -----

  /** The threshold of a policy holds of the prompt, whatever the request, exactly when the
      policy cannot let something be compressed beside something else, or its threshold
      lies outside (0, 1]. What is asked of the features, that a word of letters and digits
      is its own only feature, holds of the program's tokenizer. */
  lemma KeptApartExactly(features: string -> set<string>, policy: Policy)
    requires features(Word()) == {Word()} && features(LongerWord()) == {LongerWord()}
    ensures (forall important, q: Request :: q.policy == policy ==> KeptApart(features, important, q))
       <==> !CanCoincide(policy)
  {
    hide KeptApart, Built, Decisions, Slots;
    if CanCoincide(policy) {
      var t, u :| Slots(policy, t, u);
      var important := (s: string) => false;
      CompressionCanCoincide(features, important, policy, t, u);
      NotApart(features, important, Coinciding(policy, t, u));
    } else {
      forall important, q: Request | q.policy == policy ensures KeptApart(features, important, q) {
        ApartUnlessSlots(features, important, q);
      }
    }
  }

  lemma NotApart(features: string -> set<string>, important: string -> bool, q: Request)
    requires Built(features, important, q).Ok? && q.policy.redundancyThreshold <= 1.0
    requires var l := Decisions(features, important, q, Allocated(q).value.inputBudget);
      && 1 in l.selected && 2 in l.selected && !l.selected[1].isProtected && !l.selected[2].isProtected
      && Ranker.Similarity(features, l.selected[1].content, l.selected[2].content) == 1.0
    ensures !KeptApart(features, important, q)
  {
    hide Decisions, Ranker.Similarity;
  }

  /** Under every policy of the program some request lets two items coincide. */
  lemma EveryPolicyCanCoincide(nodeName: string)
    ensures CanCoincide(Policies.Resolve(nodeName))
  {
    var policy := Policies.Resolve(nodeName);
    assert Slots(policy, if nodeName == "evidence_extractor" then SourceChunk else StateSummary,
                 if nodeName == "evidence_extractor" then SourceChunk else StateSummary);
  }

  /** Whatever the policy, a request is safe when its candidates together fit the input
      budget or none of the unprotected ones is of a compressible type. */
  lemma SafeRequests(features: string -> set<string>, important: string -> bool, q: Request)
    requires Allocated(q).Ok?
    requires || TotalTokens(q.cands) <= Allocated(q).value.inputBudget
             || forall i :: 0 <= i < |q.cands| && !q.cands[i].isProtected ==>
                  q.cands[i].itemType !in q.policy.compressibleTypes
    ensures KeptApart(features, important, q)
    ensures Built(features, important, q).Ok? ==>
      Decisions(features, important, q, Allocated(q).value.inputBudget).compressions == map[]
  {
    hide Decisions, Built, Sound, Ranker.Similarity, AllocateBudget, TotalTokens, Ranker.Pruned;
    if Built(features, important, q).Ok? {
      var l := DecisionsSound(features, important, q);
      CompressionsSound(q.policy, Allocated(q).value.inputBudget, q.cands, l);
      VerbatimUnlessCompressed(q.policy, Allocated(q).value.inputBudget, q.cands, l);
      if TotalTokens(q.cands) <= Allocated(q).value.inputBudget {
        RoomyBuild(features, important, q);
      }
      assert l.compressions == map[];
      forall i, j |
        i in l.selected && j in l.selected && i != j && !l.selected[i].isProtected && !l.selected[j].isProtected
        ensures Ranker.Similarity(features, l.selected[i].content, l.selected[j].content) < q.policy.redundancyThreshold
      {
        SelectedDissimilar(features, important, q, i, j);
      }
    }
  }
}
