/** Type caps and maximal-marginal-relevance order of the context candidates. */
module Ranker {
  import opened Basics
  import opened Context
  import opened Greedy

  /** The scoring data of a candidate list; `features` is the lexical tokenizer. */
  function CandidatePool(features: string -> set<string>, cands: seq<Candidate>, policy: Policy): Pool {
    Pool(policy.mmrLambda,
         1.0 - policy.mmrLambda,
         seq(|cands|, i requires 0 <= i < |cands| => cands[i].rankScore),
         seq(|cands|, i requires 0 <= i < |cands| => cands[i].rankScore),
         seq(|cands|, i requires 0 <= i < |cands| => features(cands[i].content)))
  }

  /** The share of the common features among all features of two contents, 0 without any. */
  function Similarity(features: string -> set<string>, left: string, right: string): (r: real)
    ensures r * |features(left) + features(right)| as real == |features(left) * features(right)| as real
    ensures features(left) + features(right) == {} ==> r == 0.0
  {
    Jaccard(features(left), features(right))
  }

  // ----- Type caps -----

  /** The unprotected candidates of one type among the first `k`. */
  function SameType(cands: seq<Candidate>, k: nat, t: ItemType): set<nat>
    requires k <= |cands|
  {
    set i: nat | i < k && !cands[i].isProtected && cands[i].itemType == t
  }

  /** A candidate is under its cap when fewer unprotected candidates of its type than
      the cap come before it. */
  predicate UnderCap(cands: seq<Candidate>, policy: Policy, i: nat)
    requires i < |cands|
  {
    var t := cands[i].itemType;
    t in policy.maxItemsByType ==> |SameType(cands, i, t)| < policy.maxItemsByType[t]
  }

  function Eligible(cands: seq<Candidate>, policy: Policy): set<nat> {
    set i: nat | i < |cands| && !cands[i].isProtected && UnderCap(cands, policy, i)
  }

  /** What a counter that stops at the cap shows after `n` items of its type. */
  function Capped(policy: Policy, t: ItemType, n: nat): nat {
    if t in policy.maxItemsByType && n > policy.maxItemsByType[t] then Max(policy.maxItemsByType[t], 0) else n
  }

  /** Eligible candidates of one type among the first `k`. */
  function EligibleOfType(cands: seq<Candidate>, policy: Policy, k: nat, t: ItemType): set<nat>
    requires k <= |cands|
  {
    set i: nat | i < k && i in Eligible(cands, policy) && cands[i].itemType == t
  }

  lemma SameTypeStep(cands: seq<Candidate>, k: nat, t: ItemType)
    requires k < |cands|
    ensures SameType(cands, k + 1, t)
         == if !cands[k].isProtected && cands[k].itemType == t then SameType(cands, k, t) + {k}
            else SameType(cands, k, t)
  {
  }

  lemma EligibleStep(cands: seq<Candidate>, policy: Policy, k: nat, t: ItemType)
    requires k < |cands|
    ensures EligibleOfType(cands, policy, k + 1, t)
         == if k in Eligible(cands, policy) && cands[k].itemType == t then EligibleOfType(cands, policy, k, t) + {k}
            else EligibleOfType(cands, policy, k, t)
  {
  }

  lemma {:induction false} EligibleCount(cands: seq<Candidate>, policy: Policy, k: nat, t: ItemType)
    requires k <= |cands|
    ensures |EligibleOfType(cands, policy, k, t)| == Capped(policy, t, |SameType(cands, k, t)|)
  {
    hide EligibleOfType, SameType, Eligible;
    if k == 0 {
      assert EligibleOfType(cands, policy, 0, t) == {} && SameType(cands, 0, t) == {} by {
        NoneOfType(cands, policy, t);
      }
    } else {
      var i := k - 1;
      EligibleCount(cands, policy, i, t);
      SameTypeStep(cands, i, t);
      EligibleStep(cands, policy, i, t);
      Fresh(cands, policy, i, t);
      EligibleMeans(cands, policy, i);
    }
  }

  lemma Fresh(cands: seq<Candidate>, policy: Policy, k: nat, t: ItemType)
    requires k < |cands|
    ensures k !in SameType(cands, k, t) && k !in EligibleOfType(cands, policy, k, t)
  {
  }

  lemma EligibleMeans(cands: seq<Candidate>, policy: Policy, i: nat)
    requires i < |cands|
    ensures i in Eligible(cands, policy) <==> !cands[i].isProtected && UnderCap(cands, policy, i)
  {
  }

  lemma NoneOfType(cands: seq<Candidate>, policy: Policy, t: ItemType)
    ensures EligibleOfType(cands, policy, 0, t) == {} && SameType(cands, 0, t) == {}
  {
  }

  ghost predicate CountsCapped(counts: map<ItemType, nat>, cands: seq<Candidate>, policy: Policy, k: nat)
    requires k <= |cands|
  {
    forall t :: (if t in counts then counts[t] else 0) == Capped(policy, t, |SameType(cands, k, t)|)
  }

  /** Whether the counter of a type still allows its next item is whether that item is
      under its cap; counting it, or not, keeps the counters in step. */
  lemma CountNext(counts: map<ItemType, nat>, cands: seq<Candidate>, policy: Policy, k: nat)
    requires k < |cands| && CountsCapped(counts, cands, policy, k)
    ensures var t := cands[k].itemType;
      var count := if t in counts then counts[t] else 0;
      && (UnderCap(cands, policy, k) <==> !(t in policy.maxItemsByType && count >= policy.maxItemsByType[t]))
      && CountsCapped(if !cands[k].isProtected && UnderCap(cands, policy, k) then counts[t := count + 1] else counts,
                      cands, policy, k + 1)
  {
    hide SameType;
    forall t
      ensures SameType(cands, k + 1, t)
           == if !cands[k].isProtected && cands[k].itemType == t then SameType(cands, k, t) + {k}
              else SameType(cands, k, t)
    {
      SameTypeStep(cands, k, t);
    }
    Fresh(cands, policy, k, cands[k].itemType);
  }

  /** The first loop: unprotected candidates over their type's cap are pruned. */
  method ApplyTypeCaps(cands: seq<Candidate>, policy: Policy) returns (eligible: set<nat>, pruned: set<nat>)
    ensures eligible == Eligible(cands, policy)
    ensures pruned == Unprotected(cands) - eligible
  {
    eligible, pruned := {}, {};
    var counts: map<ItemType, nat> := map[];
    assert CountsCapped(counts, cands, policy, 0) by {
      assert forall t :: SameType(cands, 0, t) == {};
    }
    for index := 0 to |cands|
      invariant forall i :: i in eligible <==> i < index && i in Eligible(cands, policy)
      invariant forall i :: i in pruned <==> i < index && i in Unprotected(cands) && i !in Eligible(cands, policy)
      invariant CountsCapped(counts, cands, policy, index)
    {
      CountNext(counts, cands, policy, index);
      var t := cands[index].itemType;
      if !cands[index].isProtected {
        var count := if t in counts then counts[t] else 0;
        if t in policy.maxItemsByType && count >= policy.maxItemsByType[t] {
          pruned := pruned + {index};
        } else {
          counts := counts[t := count + 1];
          eligible := eligible + {index};
        }
      }
    }
  }

  // ----- The whole order -----

  ghost function Chosen(features: string -> set<string>, cands: seq<Candidate>, policy: Policy): seq<nat> {
    var pool := Eligible(cands, policy);
    Selection(CandidatePool(features, cands, policy), Some(policy.redundancyThreshold), |pool|, pool)
  }

  ghost function Pruned(features: string -> set<string>, cands: seq<Candidate>, policy: Policy): set<nat> {
    Unprotected(cands) - Elems(Chosen(features, cands, policy))
  }

  ghost function MmrSequence(features: string -> set<string>, cands: seq<Candidate>, policy: Policy): seq<nat> {
    Ascending(|cands|, Protected(cands)) + Chosen(features, cands, policy)
  }

  /** The second loop, which runs until no eligible candidate is left. The scan for the
      best candidate may visit them in any order. */
  method SelectNovel(scoring: Pool, threshold: real, pool: set<nat>) returns (selected: seq<nat>, dropped: set<nat>)
    ensures selected == Selection(scoring, Some(threshold), |pool|, pool)
    ensures dropped == pool - Elems(selected)
  {
    hide *;
    selected, dropped := [], {};
    var eligible := pool;
    ghost var visits: seq<nat> := [];
    NoRounds(scoring, Some(threshold), |pool|, pool);
    while eligible != {}
      invariant eligible == pool - Elems(visits)
      invariant |pool| == |eligible| + |visits|
      invariant GreedySteps(scoring, Some(threshold), |pool|, pool, visits)
      invariant selected == Kept(scoring, Some(threshold), visits)
      invariant dropped == Elems(visits) - Elems(selected)
      decreases eligible
    {
      var best := PickWinner(scoring, selected, eligible);
      KeptWithin(scoring, Some(threshold), visits);
      RoundDone(scoring, Some(threshold), |pool|, pool, visits, best);
      NovelMeans(scoring, threshold, selected, best);
      if selected != [] && Penalty(scoring, best, selected) >= threshold {
        dropped := dropped + {best};
      } else {
        selected := selected + [best];
      }
      eligible := eligible - {best};
      visits := visits + [best];
    }
    Finished(scoring, Some(threshold), |pool|, pool, visits);
    AllVisited(scoring, threshold, pool, visits);
    IsSelection(scoring, Some(threshold), |pool|, pool, visits);
  }

  lemma NovelMeans(scoring: Pool, threshold: real, taken: seq<nat>, w: nat)
    ensures Novel(scoring, Some(threshold), taken, w) <==> !(taken != [] && Penalty(scoring, w, taken) >= threshold)
  {
  }

  /** A greedy order over the whole pool visits all of it. */
  lemma AllVisited(scoring: Pool, threshold: real, pool: set<nat>, visits: seq<nat>)
    requires GreedyOrder(scoring, Some(threshold), |pool|, pool, visits)
    ensures Elems(visits) == pool
  {
    hide GreedySteps, Kept, Distinct;
    VisitsDistinct(scoring, Some(threshold), |pool|, pool, visits);
    KeptWithin(scoring, Some(threshold), visits);
    SubsetSize(Elems(visits), pool);
    if pool - Elems(visits) == {} {
      NothingLeft(pool, Elems(visits));
    }
  }

  method MmrOrder(features: string -> set<string>, cands: seq<Candidate>, policy: Policy)
    returns (order: seq<nat>, pruned: set<nat>)
    ensures order == MmrSequence(features, cands, policy)
    ensures pruned == Pruned(features, cands, policy)
  {
    var eligible, capped := ApplyTypeCaps(cands, policy);
    var selected, dropped := SelectNovel(CandidatePool(features, cands, policy), policy.redundancyThreshold, eligible);
    order := Ascending(|cands|, Protected(cands)) + selected;
    pruned := capped + dropped;
    ChosenFromPool(CandidatePool(features, cands, policy), policy.redundancyThreshold, eligible);
    EligibleUnprotected(cands, policy);
  }

  lemma EligibleUnprotected(cands: seq<Candidate>, policy: Policy)
    ensures Eligible(cands, policy) <= Unprotected(cands)
  {
  }

  // ----- What the order guarantees -----

  /** Every item of the pool is visited; the taken ones are distinct and pairwise below
      the threshold, and every other item is too close to a taken one. */
  lemma ChosenFromPool(scoring: Pool, threshold: real, pool: set<nat>)
    ensures var s := Selection(scoring, Some(threshold), |pool|, pool);
      && Distinct(s)
      && Elems(s) <= pool
      && Spread(scoring, threshold, s)
      && forall x :: x in pool && x !in s ==> exists y :: y in s && Overlap(scoring, x, y) >= threshold
  {
    var t := Some(threshold);
    var visits := Visits(scoring, t, |pool|, pool);
    AllVisited(scoring, threshold, pool, visits);
    VisitsDistinct(scoring, t, |pool|, pool, visits);
    KeptWithin(scoring, t, visits);
    KeptDistinct(scoring, t, visits);
    TakenAreNovel(scoring, threshold, visits);
    forall x | x in pool && x !in Kept(scoring, t, visits)
      ensures exists y :: y in Kept(scoring, t, visits) && Overlap(scoring, x, y) >= threshold
    {
      assert x in Elems(visits);
      DroppedHasWitness(scoring, threshold, visits, x);
    }
  }

  /** An order lists each of its positions once, the protected ones first, and leaves out
      exactly the pruned ones. */
  ghost predicate OrdersAll(cands: seq<Candidate>, order: seq<nat>, pruned: set<nat>) {
    && Distinct(order)
    && (forall i :: i in order ==> i < |cands|)
    && (forall i: nat :: i < |cands| ==> (i in order <==> i !in pruned))
    && (forall k :: 0 <= k < |order| ==> (order[k] in Protected(cands) <==> k < |Protected(cands)|))
  }

  /** Protected, selected and pruned positions partition the candidates. */
  lemma OrderPartitions(features: string -> set<string>, cands: seq<Candidate>, policy: Policy)
    ensures OrdersAll(cands, MmrSequence(features, cands, policy), Pruned(features, cands, policy))
    ensures Pruned(features, cands, policy) <= Unprotected(cands)
  {
    ChosenFromPool(CandidatePool(features, cands, policy), policy.redundancyThreshold, Eligible(cands, policy));
    EligibleUnprotected(cands, policy);
    PartitionOf(cands, Chosen(features, cands, policy));
  }

  lemma PartitionOf(cands: seq<Candidate>, chosen: seq<nat>)
    requires Distinct(chosen) && Elems(chosen) <= Unprotected(cands)
    ensures OrdersAll(cands, Ascending(|cands|, Protected(cands)) + chosen, Unprotected(cands) - Elems(chosen))
  {
    var first := Ascending(|cands|, Protected(cands));
    AscendingLists(|cands|, Protected(cands));
    AscendingLength(|cands|, Protected(cands));
    assert Elems(first) == Protected(cands);
    ListsJoin(|cands|, Protected(cands), Unprotected(cands), first, chosen);
    forall i: nat | i < |cands| ensures i in first + chosen <==> i !in Unprotected(cands) - Elems(chosen) {
      assert i in Protected(cands) <==> i !in Unprotected(cands);
    }
  }

  lemma ListsJoin(n: nat, left: set<nat>, right: set<nat>, first: seq<nat>, second: seq<nat>)
    requires left !! right && Distinct(first) && Distinct(second)
    requires Elems(first) == left && Elems(second) <= right
    requires forall i :: i in left || i in right ==> i < n
    ensures Distinct(first + second)
    ensures forall i :: i in first + second <==> i in left || i in second
    ensures forall k :: 0 <= k < |first + second| ==> ((first + second)[k] in left <==> k < |first|)
    ensures forall i :: i in first + second ==> i < n
  {
    forall k | 0 <= k < |first + second| ensures (first + second)[k] in left <==> k < |first| {
      if k < |first| {
        assert first[k] in Elems(first);
      } else {
        assert second[k - |first|] in Elems(second);
      }
    }
    assert forall i :: i in second ==> i in Elems(second);
    assert forall i :: i in first ==> i in Elems(first);
  }

  /** No two selected unprotected candidates reach the redundancy threshold. */
  lemma SelectedAreDissimilar(features: string -> set<string>, cands: seq<Candidate>, policy: Policy, a: nat, b: nat)
    requires a < |cands| && b < |cands| && a != b
    requires a in Chosen(features, cands, policy) && b in Chosen(features, cands, policy)
    ensures Similarity(features, cands[a].content, cands[b].content) < policy.redundancyThreshold
  {
    var scoring := CandidatePool(features, cands, policy);
    ChosenFromPool(scoring, policy.redundancyThreshold, Eligible(cands, policy));
    var s := Chosen(features, cands, policy);
    var x :| 0 <= x < |s| && s[x] == a;
    var y :| 0 <= y < |s| && s[y] == b;
    JaccardSymmetric(scoring.features[a], scoring.features[b]);
    assert Overlap(scoring, s[if x < y then y else x], s[if x < y then x else y]) < policy.redundancyThreshold;
  }

  lemma TypedMeans(cands: seq<Candidate>, policy: Policy, i: nat)
    requires i < |cands| && i in Eligible(cands, policy)
    ensures i in EligibleOfType(cands, policy, |cands|, cands[i].itemType)
  {
  }

  /** No type is selected more often than its cap. */
  lemma CapsHold(features: string -> set<string>, cands: seq<Candidate>, policy: Policy, t: ItemType)
    requires t in policy.maxItemsByType
    ensures |set i | i in Chosen(features, cands, policy) && i < |cands| && cands[i].itemType == t|
         <= Max(policy.maxItemsByType[t], 0)
  {
    hide Eligible, EligibleOfType, Selection, SameType, Spread, Distinct, CandidatePool;
    ChosenFromPool(CandidatePool(features, cands, policy), policy.redundancyThreshold, Eligible(cands, policy));
    var taken := set i | i in Chosen(features, cands, policy) && i < |cands| && cands[i].itemType == t;
    forall i | i in taken ensures i in EligibleOfType(cands, policy, |cands|, t) {
      assert i in Elems(Chosen(features, cands, policy));
      TypedMeans(cands, policy, i);
    }
    SubsetSize(taken, EligibleOfType(cands, policy, |cands|, t));
    EligibleCount(cands, policy, |cands|, t);
  }

  /** The similarity to a candidate, as a function of the position of the other one. */
  function SimilarityTo(features: string -> set<string>, cands: seq<Candidate>, i: nat): nat -> real {
    (c: nat) => if i < |cands| && c < |cands| then Similarity(features, cands[i].content, cands[c].content) else 0.0
  }

  /** The order of the selected candidates: each has the largest (marginal relevance, rank
      score, -position) among the eligible candidates not selected before it that stay below
      the redundancy threshold to those selected before it. The marginal relevance is the
      weighted rank score less the weighted largest similarity to those, `x` for the one
      selected and `y` for the other one. */
  lemma RankedByScore(features: string -> set<string>, cands: seq<Candidate>, policy: Policy, k: nat, j: nat,
                      x: real, y: real)
    requires k < |Chosen(features, cands, policy)|
    requires j < |cands| && !cands[j].isProtected && UnderCap(cands, policy, j)
    requires var before := Chosen(features, cands, policy)[..k];
      && j !in before
      && (forall c :: c in before ==> SimilarityTo(features, cands, j)(c) < policy.redundancyThreshold)
      && IsLargest(before, SimilarityTo(features, cands, Chosen(features, cands, policy)[k]), x)
      && IsLargest(before, SimilarityTo(features, cands, j), y)
    ensures Chosen(features, cands, policy)[k] < |cands|
    ensures var i, lambda := Chosen(features, cands, policy)[k], policy.mmrLambda;
      var a := lambda * cands[i].rankScore - (1.0 - lambda) * x;
      var b := lambda * cands[j].rankScore - (1.0 - lambda) * y;
      || i == j || a > b
      || (a == b && (cands[i].rankScore > cands[j].rankScore || (cands[i].rankScore == cands[j].rankScore && i < j)))
  {
    hide Selection, Similarity, SimilarityTo, Penalty, Eligible, CandidatePool, ScoreOf, Spread, UnderCap, Overlap,
         IsLargest;
    var p := CandidatePool(features, cands, policy);
    var pool, t := Eligible(cands, policy), Some(policy.redundancyThreshold);
    var s := Chosen(features, cands, policy);
    ChosenFromPool(p, policy.redundancyThreshold, pool);
    EligibleMeans(cands, policy, j);
    EligibleBelow(cands, policy);
    forall c | c in s ensures c < |cands| {
      assert c in Elems(s);
    }
    assert s[k] in s;
    forall c | c in s[..k] ensures c in s {
    }
    OverlapIsSimilarity(features, cands, policy, s[k], s[..k]);
    OverlapIsSimilarity(features, cands, policy, j, s[..k]);
    PenaltyIsLargest(p, s[k], s[..k], SimilarityTo(features, cands, s[k]), x);
    PenaltyIsLargest(p, j, s[..k], SimilarityTo(features, cands, j), y);
    ScoreSpelledOut(features, cands, policy, s[k], s[..k], x);
    ScoreSpelledOut(features, cands, policy, j, s[..k], y);
    StaysNovel(features, cands, policy, j, s[..k]);
    SelectionTakesBest(p, t, |pool|, pool, k, j);
  }

  lemma ScoreSpelledOut(features: string -> set<string>, cands: seq<Candidate>, policy: Policy, i: nat, s: seq<nat>,
                        x: real)
    requires i < |cands| && Penalty(CandidatePool(features, cands, policy), i, s) == x
    ensures ScoreOf(CandidatePool(features, cands, policy), s, i)
         == Score(policy.mmrLambda * cands[i].rankScore - (1.0 - policy.mmrLambda) * x, cands[i].rankScore, -(i as int))
  {
    hide Penalty;
  }

  lemma StaysNovel(features: string -> set<string>, cands: seq<Candidate>, policy: Policy, j: nat, s: seq<nat>)
    requires j < |cands|
    requires forall c :: c in s ==> c < |cands| && SimilarityTo(features, cands, j)(c) < policy.redundancyThreshold
    ensures Novel(CandidatePool(features, cands, policy), Some(policy.redundancyThreshold), s, j)
  {
    hide SimilarityTo, CandidatePool;
    OverlapIsSimilarity(features, cands, policy, j, s);
    PenaltyIsMaximum(CandidatePool(features, cands, policy), j, s);
  }

  lemma EligibleBelow(cands: seq<Candidate>, policy: Policy)
    ensures forall c :: c in Eligible(cands, policy) ==> c < |cands|
  {
  }

  lemma OverlapIsSimilarity(features: string -> set<string>, cands: seq<Candidate>, policy: Policy, i: nat, s: seq<nat>)
    requires i < |cands| && forall c :: c in s ==> c < |cands|
    ensures forall c :: c in s ==>
      SimilarityTo(features, cands, i)(c) == Overlap(CandidatePool(features, cands, policy), i, c)
  {
  }

  lemma UnprunedUnderCap(features: string -> set<string>, cands: seq<Candidate>, policy: Policy, i: nat)
    requires i < |cands| && !cands[i].isProtected && i !in Pruned(features, cands, policy)
    ensures UnderCap(cands, policy, i)
  {
    hide UnderCap;
    ChosenFromPool(CandidatePool(features, cands, policy), policy.redundancyThreshold, Eligible(cands, policy));
    assert i in Elems(Chosen(features, cands, policy));
  }

  /** Exactly what gets a candidate pruned: it is unprotected and either cap-many
      unprotected candidates of its type come before it, or another one that was
      selected is too similar to it. */
  lemma PrunedExactly(features: string -> set<string>, cands: seq<Candidate>, policy: Policy, i: nat)
    requires i < |cands|
    ensures i in Pruned(features, cands, policy) <==>
      && !cands[i].isProtected
      && (|| (&& cands[i].itemType in policy.maxItemsByType
              && |set m: nat | m < i && !cands[m].isProtected && cands[m].itemType == cands[i].itemType|
                 >= policy.maxItemsByType[cands[i].itemType])
          || exists j :: j in Chosen(features, cands, policy) && j < |cands| && j != i
               && Similarity(features, cands[i].content, cands[j].content) >= policy.redundancyThreshold)
  {
    var scoring := CandidatePool(features, cands, policy);
    var chosen := Chosen(features, cands, policy);
    ChosenFromPool(scoring, policy.redundancyThreshold, Eligible(cands, policy));
    EligibleUnprotected(cands, policy);
    assert forall j :: j in chosen ==> j in Elems(chosen);
    if i in chosen {
      forall j | j in chosen && j < |cands| && j != i
        ensures Similarity(features, cands[i].content, cands[j].content) < policy.redundancyThreshold
      {
        SelectedAreDissimilar(features, cands, policy, i, j);
      }
    } else if i in Eligible(cands, policy) {
      var y :| y in chosen && Overlap(scoring, i, y) >= policy.redundancyThreshold;
      assert y in Unprotected(cands);
      assert y < |cands| && Similarity(features, cands[i].content, cands[y].content) >= policy.redundancyThreshold;
    }
  }
}
