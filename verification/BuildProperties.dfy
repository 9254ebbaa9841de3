/** What every successful build guarantees, and exactly when a build succeeds. */
module BuildProperties {
  import opened Basics
  import opened Context
  import opened Manager
  import opened Build
  import Compressor
  import Ranker
  import Text

  function TotalTokens(cands: seq<Candidate>): int {
    if cands == [] then 0 else TotalTokens(cands[..|cands| - 1]) + EstimateTokens(cands[|cands| - 1].content)
  }

  lemma TotalTokensSnoc(cands: seq<Candidate>, c: Candidate)
    ensures TotalTokens(cands + [c]) == TotalTokens(cands) + EstimateTokens(c.content)
  {
    assert (cands + [c])[..|cands|] == cands;
  }

  ghost predicate Priced(selected: map<nat, Candidate>, tokens: map<nat, int>) {
    && tokens.Keys == selected.Keys
    && forall i :: i in selected ==> tokens[i] == EstimateTokens(selected[i].content)
  }

  lemma {:induction false} ListedTokens(n: nat, selected: map<nat, Candidate>, tokens: map<nat, int>)
    requires Priced(selected, tokens)
    ensures TotalTokens(Listed(n, selected)) == TokenSum(n, tokens)
  {
    hide EstimateTokens;
    if n > 0 {
      ListedTokens(n - 1, selected, tokens);
      if n - 1 in selected {
        TotalTokensSnoc(Listed(n - 1, selected), selected[n - 1]);
      }
    }
  }

  /** All candidates in place: the listing of the whole table. */
  lemma {:induction false} ListedAll(cands: seq<Candidate>, n: nat, m: map<nat, Candidate>)
    requires n <= |cands|
    requires forall i: nat :: i < n ==> i in m && m[i] == cands[i]
    ensures Listed(n, m) == cands[..n]
  {
    if n > 0 {
      ListedAll(cands, n - 1, m);
      assert cands[..n] == cands[..n - 1] + [cands[n - 1]];
    }
  }

  lemma {:induction false} BeforeIsTotal(cands: seq<Candidate>, n: nat)
    requires n <= |cands|
    ensures TokensAt(cands, Upto(|cands|), n) == TotalTokens(cands[..n])
  {
    hide EstimateTokens;
    if n > 0 {
      BeforeIsTotal(cands, n - 1);
      assert cands[..n] == cands[..n - 1] + [cands[n - 1]];
      TotalTokensSnoc(cands[..n - 1], cands[n - 1]);
    }
  }

  // ----- When a build succeeds -----

  /** The protected candidates, in order. */
  function ProtectedOnly(cands: seq<Candidate>): seq<Candidate> {
    if cands == [] then []
    else
      var last := cands[|cands| - 1];
      ProtectedOnly(cands[..|cands| - 1]) + (if last.isProtected then [last] else [])
  }

  lemma {:induction false} ProtectedUpTo(cands: seq<Candidate>, n: nat)
    requires n <= |cands|
    ensures TokensAt(cands, Protected(cands), n) == TotalTokens(ProtectedOnly(cands[..n]))
  {
    hide EstimateTokens, TotalTokens, ProtectedOnly;
    if n == 0 {
      NoTokens();
      NoneProtected();
    } else {
      ProtectedUpTo(cands, n - 1);
      assert cands[..n] == cands[..n - 1] + [cands[n - 1]];
      ProtectedSnoc(cands[..n - 1], cands[n - 1]);
      TotalTokensSnoc(ProtectedOnly(cands[..n - 1]), cands[n - 1]);
    }
  }

  lemma ProtectedSnoc(cands: seq<Candidate>, c: Candidate)
    ensures ProtectedOnly(cands + [c]) == if c.isProtected then ProtectedOnly(cands) + [c] else ProtectedOnly(cands)
  {
    assert (cands + [c])[..|cands|] == cands;
    assert ProtectedOnly(cands) + [] == ProtectedOnly(cands);
  }

  lemma NoneProtected()
    ensures ProtectedOnly([]) == []
  {
  }

  lemma ProtectedTotal(cands: seq<Candidate>)
    ensures ProtectedTokens(cands) == TotalTokens(ProtectedOnly(cands))
  {
    ProtectedUpTo(cands, |cands|);
    assert cands[..|cands|] == cands;
  }

  /** A build succeeds exactly when the window has at least 1024 tokens and can afford
      the larger of the minimum input budget and what the protected items need. */
  lemma BuildSucceedsExactly(features: string -> set<string>, important: string -> bool, q: Request)
    ensures var window := OrElse(q.contextWindow, DEFAULT_CONTEXT_WINDOW);
      var reserve := Min(q.requestedOutput, OrElse(q.providerMaxOutput, q.requestedOutput));
      Built(features, important, q).Ok? <==>
        window >= 1024 && Affordable(window, reserve, q.maxInput, Max(512, TotalTokens(ProtectedOnly(q.cands))))
  {
    hide Affordable, AllocateBudget, ProtectedTokens, Decisions, EnvelopeOf, Ranker.Pruned, TotalTokens, ProtectedOnly;
    ProtectedTotal(q.cands);
    AllocationIsLargest(q.contextWindow, q.requestedOutput, q.providerMaxOutput, q.maxInput);
    BudgetPositive(q);
    var window := OrElse(q.contextWindow, DEFAULT_CONTEXT_WINDOW);
    var reserve := Min(q.requestedOutput, OrElse(q.providerMaxOutput, q.requestedOutput));
    AffordableDown(window, reserve, q.maxInput, Max(MIN_INPUT_BUDGET, ProtectedTokens(q.cands)), MIN_INPUT_BUDGET);
  }

  lemma AffordableDown(window: int, reserve: int, maxInput: Option<int>, b: int, less: int)
    requires less <= b
    ensures Affordable(window, reserve, maxInput, b) ==> Affordable(window, reserve, maxInput, less)
  {
    if Affordable(window, reserve, maxInput, b) {
      var margin :| margin >= 512 && 10 * margin >= window && b + reserve + margin <= window;
      assert margin >= 512 && 10 * margin >= window && less + reserve + margin <= window;
    }
  }

  // ----- Safety of the budget -----

  /** The decisions behind a successful build are sound. */
  lemma DecisionsSound(features: string -> set<string>, important: string -> bool, q: Request)
    returns (l: Ledger)
    requires Built(features, important, q).Ok?
    ensures var e := Built(features, important, q).value;
      && e.allocation == Allocated(q).value
      && e.allocation.inputBudget >= MIN_INPUT_BUDGET
      && l == Decisions(features, important, q, e.allocation.inputBudget)
      && e == EnvelopeOf(q.cands, e.allocation, Ranker.Pruned(features, q.cands, q.policy), l)
      && Sound(q.policy, e.allocation.inputBudget, q.cands, l)
      && l.selected.Keys <= Elems(Ranker.MmrSequence(features, q.cands, q.policy))
  {
    hide Consider, EnvelopeOf, AllocateBudget, Ranker.MmrSequence, Ranker.Pruned, Usable, ProtectedTokens, Sound;
    OrderUsable(features, q);
    BudgetPositive(q);
    SuccessMeans(features, important, q);
    var budget := Allocated(q).value.inputBudget;
    l := Decisions(features, important, q, budget);
    FillSound(important, q.policy, budget, q.cands, Ranker.MmrSequence(features, q.cands, q.policy));
  }

  lemma SoundPriced(policy: Policy, budget: int, cands: seq<Candidate>, l: Ledger)
    requires Sound(policy, budget, cands, l)
    ensures Priced(l.selected, l.tokens)
    ensures l.used == TokenSum(|cands|, l.tokens) <= budget
    ensures 0 <= l.used <= TokensBefore(cands)
  {
    hide EstimateTokens;
    SelectedAtMostAll(policy, budget, cands, l, |cands|);
    EmptySum(|cands|);
    TokenSumGrows(|cands|, map[], l.tokens);
  }

  lemma {:induction false} SelectedAtMostAll(policy: Policy, budget: int, cands: seq<Candidate>, l: Ledger, n: nat)
    requires Sound(policy, budget, cands, l) && n <= |cands|
    ensures TokenSum(n, l.tokens) <= TokensAt(cands, Upto(|cands|), n)
  {
    hide EstimateTokens;
    if n > 0 {
      SelectedAtMostAll(policy, budget, cands, l, n - 1);
      EstimateNonNegative(cands[n - 1].content);
    }
  }

  /** The total reported is the sum over the selected items; it fits the input budget,
      beside the output reserve and the safety margin it fits the window, and it never
      exceeds the total before selection. */
  lemma BudgetSafety(features: string -> set<string>, important: string -> bool, q: Request)
    requires Built(features, important, q).Ok?
    ensures var e := Built(features, important, q).value;
      && 0 <= e.tokenAfter == TotalTokens(e.selected) <= e.allocation.inputBudget
      && e.tokenAfter + e.allocation.outputReserve + e.allocation.safetyMargin <= e.allocation.contextWindow
      && e.tokenAfter <= e.tokenBefore == TotalTokens(q.cands)
  {
    hide Built, AllocateBudget, Decisions, Ranker.Pruned, EstimateTokens, Affordable, Sound, Ranker.MmrSequence,
         TokensAt, TotalTokens;
    SuccessMeans(features, important, q);
    var l := DecisionsSound(features, important, q);
    SoundPriced(q.policy, Allocated(q).value.inputBudget, q.cands, l);
    ListedTokens(|q.cands|, l.selected, l.tokens);
    BeforeIsTotal(q.cands, |q.cands|);
    assert q.cands[..|q.cands|] == q.cands;
    AllocationIsLargest(q.contextWindow, q.requestedOutput, q.providerMaxOutput, q.maxInput);
  }

  /** The check constraints of the manifest table: the first two always hold, the one on
      tokens too, and the one on the output reserve exactly when the request asks for
      output and no negative provider limit cuts it. */
  lemma ManifestConstraints(features: string -> set<string>, important: string -> bool, q: Request)
    requires Built(features, important, q).Ok?
    ensures var e := Built(features, important, q).value;
      && (e.allocation.contextWindow > 0 && e.allocation.inputBudget > 0 && e.tokenAfter <= e.allocation.inputBudget)
      && (e.allocation.outputReserve > 0 <==>
            q.requestedOutput > 0 && (q.providerMaxOutput.None? || q.providerMaxOutput.value >= 0))
  {
    hide Built, AllocateBudget, Decisions, Ranker.Pruned, Affordable, EnvelopeOf, Sound, Ranker.MmrSequence,
         TotalTokens;
    SuccessMeans(features, important, q);
    BudgetSafety(features, important, q);
    var l := DecisionsSound(features, important, q);
    AllocationIsLargest(q.contextWindow, q.requestedOutput, q.providerMaxOutput, q.maxInput);
    WindowLarge(q);
  }

  lemma WindowLarge(q: Request)
    ensures Allocated(q).Ok? ==> Allocated(q).value.contextWindow >= 1024
  {
  }

  lemma SuccessMeans(features: string -> set<string>, important: string -> bool, q: Request)
    requires Built(features, important, q).Ok?
    ensures Allocated(q).Ok? && ProtectedTokens(q.cands) <= Allocated(q).value.inputBudget
    ensures Built(features, important, q).value.allocation == Allocated(q).value
    ensures Built(features, important, q).value.tokenAfter
        == Decisions(features, important, q, Allocated(q).value.inputBudget).used
  {
    hide AllocateBudget, ProtectedTokens, Fill, Listed, RowOf, TokensBefore;
  }

  // ----- The fate of each item -----

  /** Protected items come first in the order and all fit, so each is selected verbatim. */
  lemma ProtectedVerbatim(features: string -> set<string>, important: string -> bool, q: Request, i: nat)
    requires Built(features, important, q).Ok?
    requires i < |q.cands| && q.cands[i].isProtected
    ensures var l := Decisions(features, important, q, Allocated(q).value.inputBudget);
      i in l.selected && l.selected[i] == q.cands[i] && i !in l.compressions
  {
    hide Consider, Sound, Ranker.MmrSequence, Ranker.Pruned, ProtectedTokens, EnvelopeOf, AllocateBudget;
    var budget := Allocated(q).value.inputBudget;
    var order := Ranker.MmrSequence(features, q.cands, q.policy);
    OrderUsable(features, q);
    BudgetPositive(q);
    Ranker.OrderPartitions(features, q.cands, q.policy);
    var k := |Protected(q.cands)|;
    ProtectedPrefix(features, q, i);
    ProtectedFirst(important, q.policy, budget, q.cands, order[..k]);
    FillGrows(important, q.policy, budget, q.cands, order, k);
    var l := DecisionsSound(features, important, q);
    CompressedUnprotected(q, budget, l, i);
  }

  lemma CompressedUnprotected(q: Request, budget: int, l: Ledger, i: nat)
    requires Sound(q.policy, budget, q.cands, l) && i < |q.cands| && q.cands[i].isProtected
    ensures i !in l.compressions
  {
  }

  lemma ProtectedPrefix(features: string -> set<string>, q: Request, i: nat)
    requires i in Protected(q.cands)
    ensures var order, k := Ranker.MmrSequence(features, q.cands, q.policy), |Protected(q.cands)|;
      && k <= |order| && Distinct(order[..k]) && i in order[..k]
      && forall j :: j in order[..k] ==> j in Protected(q.cands)
  {
    var order, k := Ranker.MmrSequence(features, q.cands, q.policy), |Protected(q.cands)|;
    var first := Ascending(|q.cands|, Protected(q.cands));
    AscendingLists(|q.cands|, Protected(q.cands));
    AscendingLength(|q.cands|, Protected(q.cands));
    assert order[..k] == first;
  }

  /** Only unprotected items of compressible types are altered, and an altered item keeps
      everything but content, level, reason and provenance and has strictly fewer tokens. */
  lemma OnlyCompressibleAltered(features: string -> set<string>, important: string -> bool, q: Request, i: nat)
    requires Built(features, important, q).Ok?
    requires i in Decisions(features, important, q, Allocated(q).value.inputBudget).selected
    ensures i < |q.cands|
    ensures var s := Decisions(features, important, q, Allocated(q).value.inputBudget).selected[i];
      var c := q.cands[i];
      || s == c
      || (&& !c.isProtected && c.itemType in q.policy.compressibleTypes
          && EstimateTokens(s.content) < EstimateTokens(c.content)
          && s.reason == "compressed_to_fit_budget"
          && s.(content := c.content, level := c.level, reason := c.reason, provenance := c.provenance) == c)
  {
    hide Consider, Ranker.MmrSequence, Ranker.Pruned, ProtectedTokens, EnvelopeOf, AllocateBudget, TokenSum,
         EstimateTokens;
    var l := DecisionsSound(features, important, q);
  }

  /** An item that fits when the loop reaches it is selected. With 32 tokens of room or
      more when it is reached, exactly the items that fit and the unprotected, compressible,
      non-blank ones are. */
  lemma AdmittedWhenReached(features: string -> set<string>, important: string -> bool, q: Request, k: nat)
    requires Built(features, important, q).Ok?
    requires k < |Ranker.MmrSequence(features, q.cands, q.policy)|
    ensures Ranker.MmrSequence(features, q.cands, q.policy)[k] < |q.cands|
    ensures var order, budget := Ranker.MmrSequence(features, q.cands, q.policy), Allocated(q).value.inputBudget;
      var c, room := q.cands[order[k]], RoomAt(important, q.policy, budget, q.cands, order, k);
      var isSelected := order[k] in Decisions(features, important, q, budget).selected;
      && (EstimateTokens(c.content) <= room ==> isSelected)
      && (room >= 32 ==>
            (isSelected <==>
               || EstimateTokens(c.content) <= room
               || (!c.isProtected && c.itemType in q.policy.compressibleTypes && !Text.Blank(c.content))))
  {
    hide Fill, Built, Ranker.MmrSequence, Ranker.Pruned, ProtectedTokens, AllocateBudget, EstimateTokens, Text.Blank,
         Usable, Ranker.OrdersAll, RoomAt;
    OrderUsable(features, q);
    BudgetPositive(q);
    SuccessMeans(features, important, q);
    UnselectedStarved(important, q.policy, Allocated(q).value.inputBudget, q.cands,
                      Ranker.MmrSequence(features, q.cands, q.policy), k);
  }

  /** What becomes of each item, exactly. When the loop reaches it, the room is the input
      budget less the tokens of the selected items before it in the order. The item is
      selected exactly when it fits into the room or, being unprotected and of a compressible
      type, can be compressed to the room; it is compressed exactly when it is selected
      without fitting, and then to that room. */
  lemma DecidedExactly(features: string -> set<string>, important: string -> bool, q: Request, k: nat)
    requires Built(features, important, q).Ok?
    requires k < |Ranker.MmrSequence(features, q.cands, q.policy)|
    ensures Ranker.MmrSequence(features, q.cands, q.policy)[k] < |q.cands|
    ensures var order, budget := Ranker.MmrSequence(features, q.cands, q.policy), Allocated(q).value.inputBudget;
      var l, i := Decisions(features, important, q, budget), order[k];
      var c, room := q.cands[i], budget - TokensOfSelected(l.selected, order, k);
      && (i in l.selected <==>
            || EstimateTokens(c.content) <= room
            || (&& !c.isProtected && c.itemType in q.policy.compressibleTypes
                && Compressor.Compress(important, c, room).Some?))
      && (i in l.compressions <==> i in l.selected && EstimateTokens(c.content) > room)
      && (i in l.compressions ==>
            && Compressor.Compress(important, c, room) == Some(l.compressions[i])
            && l.selected[i] == l.compressions[i].candidate)
      && (i in l.selected && i !in l.compressions ==> l.selected[i] == c)
  {
    hide Fill, Built, Ranker.MmrSequence, Ranker.Pruned, ProtectedTokens, AllocateBudget, EstimateTokens,
         Compressor.Compress, Usable, Ranker.OrdersAll, RoomAt, TokensOfSelected;
    OrderUsable(features, q);
    BudgetPositive(q);
    SuccessMeans(features, important, q);
    DecidedByRoom(important, q.policy, Allocated(q).value.inputBudget, q.cands,
                  Ranker.MmrSequence(features, q.cands, q.policy), k);
  }

  /** No item is rejected for the budget needlessly: one that was neither pruned by the
      policy nor selected did not fit when the loop reached it and would not fit into what
      is left, and if it is compressible and not blank there were less than 32 tokens of
      room when it was reached, and so at the end. */
  lemma NoNeedlessRejection(features: string -> set<string>, important: string -> bool, q: Request, i: nat)
    requires Built(features, important, q).Ok?
    requires i < |q.cands| && i !in Ranker.Pruned(features, q.cands, q.policy)
    requires i !in Decisions(features, important, q, Allocated(q).value.inputBudget).selected
    ensures var e := Built(features, important, q).value;
      var order := Ranker.MmrSequence(features, q.cands, q.policy);
      var left := e.allocation.inputBudget - e.tokenAfter;
      && (exists k :: 0 <= k < |order| && order[k] == i
            && left <= RoomAt(important, q.policy, e.allocation.inputBudget, q.cands, order, k)
            && Starved(important, q.policy, RoomAt(important, q.policy, e.allocation.inputBudget, q.cands, order, k),
                       q.cands[i]))
      && EstimateTokens(q.cands[i].content) > left
      && (&& !q.cands[i].isProtected && q.cands[i].itemType in q.policy.compressibleTypes
          && !Text.Blank(q.cands[i].content)
          ==> left < 32)
  {
    hide Fill, Built, Ranker.MmrSequence, Ranker.Pruned, ProtectedTokens, AllocateBudget, EstimateTokens, Text.Blank,
         Usable, Ranker.OrdersAll, RoomAt;
    SuccessMeans(features, important, q);
    var budget := Allocated(q).value.inputBudget;
    var order := Ranker.MmrSequence(features, q.cands, q.policy);
    OrderUsable(features, q);
    BudgetPositive(q);
    UnprunedOffered(features, q, i);
    var k :| 0 <= k < |order| && order[k] == i;
    UnselectedStarved(important, q.policy, budget, q.cands, order, k);
    LeftAtEnd(important, q.policy, budget, q.cands, order);
  }

  lemma LeftAtEnd(important: string -> bool, policy: Policy, budget: int, cands: seq<Candidate>, order: seq<nat>)
    ensures RoomAt(important, policy, budget, cands, order, |order|)
        == budget - Fill(important, policy, budget, cands, order).used
  {
    hide Fill;
    assert order[..|order|] == order;
  }

  lemma UnprunedOffered(features: string -> set<string>, q: Request, i: nat)
    requires i < |q.cands|
    ensures i in Ranker.MmrSequence(features, q.cands, q.policy) <==> i !in Ranker.Pruned(features, q.cands, q.policy)
  {
    hide Ranker.MmrSequence, Ranker.Pruned;
    Ranker.OrderPartitions(features, q.cands, q.policy);
  }

  /** A pruned item is never selected, and the manifest row of an unselected item names
      the policy exactly for pruned items and the budget for all others. */
  lemma RowsExplainRejections(features: string -> set<string>, important: string -> bool, q: Request, i: nat)
    requires Built(features, important, q).Ok? && i < |q.cands|
    ensures var e := Built(features, important, q).value;
      && |e.rows| == |q.cands| && e.rows[i].ordinal == i && e.rows[i].isProtected == q.cands[i].isProtected
      && (e.rows[i].isSelected <==> i in Decisions(features, important, q, e.allocation.inputBudget).selected)
      && (i in Ranker.Pruned(features, q.cands, q.policy) ==>
            !e.rows[i].isSelected && e.rows[i].reason == "context_policy_pruned")
      && (i !in Ranker.Pruned(features, q.cands, q.policy) && !e.rows[i].isSelected ==>
            e.rows[i].reason == "context_budget_pruned" && !q.cands[i].isProtected)
  {
    hide Consider, Sound, Ranker.MmrSequence, Ranker.Pruned, ProtectedTokens, AllocateBudget, EstimateTokens;
    var l := DecisionsSound(features, important, q);
    UnprunedOffered(features, q, i);
    assert i in l.selected ==> i in Elems(Ranker.MmrSequence(features, q.cands, q.policy));
    if q.cands[i].isProtected {
      ProtectedVerbatim(features, important, q, i);
    }
  }

  /** The manifest row of a candidate names its source, and points to an artifact row
      exactly for a compressed candidate; the artifact row gives its tokens before and
      after, its level, and a provenance whenever the candidate had one or a source. */
  lemma ArtifactsDocumentCompressions(features: string -> set<string>, important: string -> bool, q: Request, i: nat)
    requires Built(features, important, q).Ok? && i < |q.cands|
    ensures var e := Built(features, important, q).value;
      var c := q.cands[i];
      && |e.rows| == |q.cands| && |e.artifacts| == e.compressedCount
      && e.rows[i].itemType == c.itemType && e.rows[i].rankScore == c.rankScore
      && e.rows[i].sourceRefType == c.sourceRefType && e.rows[i].sourceRefId == c.sourceRefId
      && (e.rows[i].hasArtifact <==> i in e.artifacts)
      && (i !in e.artifacts ==> e.rows[i].level == c.level)
      && (i in e.artifacts ==>
            var a := e.artifacts[i];
            && e.rows[i].isSelected && !c.isProtected && c.itemType in q.policy.compressibleTypes
            && e.rows[i].tokenCount == a.tokenAfter < a.tokenBefore == EstimateTokens(c.content)
            && e.rows[i].level == a.level != Raw && a.validationStatus == "provenance_preserved"
            && (c.provenance != [] ==> a.provenance == c.provenance)
            && (c.provenance == [] ==>
                  forall ref :: ref in a.provenance <==> c.sourceRefType == Some(ref) || c.sourceRefId == Some(ref)))
  {
    hide Built, Decisions, Ranker.MmrSequence, Ranker.Pruned, AllocateBudget, Sound, EstimateTokens, EnvelopeOf;
    SuccessMeans(features, important, q);
    var l := DecisionsSound(features, important, q);
    CompressionsSound(q.policy, Allocated(q).value.inputBudget, q.cands, l);
    EnvelopeRow(q.cands, Allocated(q).value, Ranker.Pruned(features, q.cands, q.policy), l, i);
  }

  lemma EnvelopeRow(cands: seq<Candidate>, a: Allocation, pruned: set<nat>, l: Ledger, i: nat)
    requires i < |cands|
    ensures var e := EnvelopeOf(cands, a, pruned, l);
      && |e.rows| == |cands| && e.rows[i] == RowOf(cands, pruned, l, i)
      && |e.artifacts| == e.compressedCount && (i in e.artifacts <==> i in l.compressions)
      && (i in l.compressions ==> e.artifacts[i] == ArtifactOf(l.compressions[i]))
  {
    hide RowOf, ArtifactOf, Listed, Text.Join, Contents, TokensBefore, CountProtected, Unselected;
    assert EnvelopeOf(cands, a, pruned, l).artifacts.Keys == l.compressions.Keys;
  }

  lemma CompressionsSound(policy: Policy, budget: int, cands: seq<Candidate>, l: Ledger)
    requires Sound(policy, budget, cands, l)
    ensures forall i :: i in l.compressions ==>
        i < |cands| && i in l.selected && i in l.tokens && ItemSound(policy, cands[i], l, i)
    ensures forall i :: i in l.selected && i !in l.compressions ==> i < |cands| && l.selected[i] == cands[i]
  {
    hide EstimateTokens, TokenSum;
  }

  /** A selected unprotected item had fewer than cap-many items of its type before it. */
  lemma SelectedUnderCap(features: string -> set<string>, important: string -> bool, q: Request, i: nat)
    requires Built(features, important, q).Ok?
    requires i < |q.cands| && !q.cands[i].isProtected
    requires i in Decisions(features, important, q, Allocated(q).value.inputBudget).selected
    ensures Ranker.UnderCap(q.cands, q.policy, i)
  {
    hide Consider, Sound, ProtectedTokens, AllocateBudget, EnvelopeOf, Ranker.Chosen, Ranker.UnderCap;
    var l := DecisionsSound(features, important, q);
    SelectedChosen(features, q, i);
    Ranker.UnprunedUnderCap(features, q.cands, q.policy, i);
  }

  /** Two selected unprotected items came from contents less similar than the redundancy
      threshold; so the prompt keeps them apart if neither was compressed. When that can
      be relied on is the subject of Redundancy. */
  lemma SelectedDissimilar(features: string -> set<string>, important: string -> bool, q: Request, i: nat, j: nat)
    requires Built(features, important, q).Ok?
    requires i < |q.cands| && j < |q.cands| && i != j && !q.cands[i].isProtected && !q.cands[j].isProtected
    requires var l := Decisions(features, important, q, Allocated(q).value.inputBudget);
      i in l.selected && j in l.selected
    ensures Ranker.Similarity(features, q.cands[i].content, q.cands[j].content) < q.policy.redundancyThreshold
    ensures var l := Decisions(features, important, q, Allocated(q).value.inputBudget);
      i !in l.compressions && j !in l.compressions ==>
        Ranker.Similarity(features, l.selected[i].content, l.selected[j].content) < q.policy.redundancyThreshold
  {
    hide Consider, Sound, ProtectedTokens, AllocateBudget, EnvelopeOf, Ranker.Chosen, Ranker.Similarity, Fill;
    var l := DecisionsSound(features, important, q);
    SelectedChosen(features, q, i);
    SelectedChosen(features, q, j);
    Ranker.SelectedAreDissimilar(features, q.cands, q.policy, i, j);
    VerbatimUnlessCompressed(q.policy, Allocated(q).value.inputBudget, q.cands, l);
  }

  lemma VerbatimUnlessCompressed(policy: Policy, budget: int, cands: seq<Candidate>, l: Ledger)
    requires Sound(policy, budget, cands, l)
    ensures forall i :: i in l.selected && i !in l.compressions ==> i < |cands| && l.selected[i] == cands[i]
    ensures forall i :: i in l.selected ==> i < |cands| && l.selected[i].itemType == cands[i].itemType
                                            && l.selected[i].isProtected == cands[i].isProtected
  {
    hide EstimateTokens, TokenSum;
  }

  /** The unprotected items of a type in a list. */
  function CountOfType(cands: seq<Candidate>, t: ItemType): nat {
    if cands == [] then 0
    else
      var last := cands[|cands| - 1];
      CountOfType(cands[..|cands| - 1], t) + (if !last.isProtected && last.itemType == t then 1 else 0)
  }

  function PlacesOfType(n: nat, m: map<nat, Candidate>, t: ItemType): set<nat> {
    set i: nat | i < n && i in m && !m[i].isProtected && m[i].itemType == t
  }

  lemma PlacesStep(n: nat, m: map<nat, Candidate>, t: ItemType)
    ensures PlacesOfType(n + 1, m, t)
         == if n in m && !m[n].isProtected && m[n].itemType == t then PlacesOfType(n, m, t) + {n}
            else PlacesOfType(n, m, t)
    ensures n !in PlacesOfType(n, m, t) && PlacesOfType(0, m, t) == {}
  {
  }

  lemma {:induction false} ListedOfType(n: nat, m: map<nat, Candidate>, t: ItemType)
    ensures CountOfType(Listed(n, m), t) == |PlacesOfType(n, m, t)|
  {
    hide PlacesOfType;
    if n == 0 {
      PlacesStep(0, m, t);
    } else {
      ListedOfType(n - 1, m, t);
      PlacesStep(n - 1, m, t);
      if n - 1 in m {
        var rest := Listed(n - 1, m);
        assert (rest + [m[n - 1]])[..|rest|] == rest;
      }
    }
  }

  /** The selection has no more unprotected items of a type than its cap. */
  lemma SelectedWithinCaps(features: string -> set<string>, important: string -> bool, q: Request, t: ItemType)
    requires Built(features, important, q).Ok? && t in q.policy.maxItemsByType
    ensures CountOfType(Built(features, important, q).value.selected, t) <= Max(q.policy.maxItemsByType[t], 0)
  {
    hide Consider, Sound, ProtectedTokens, AllocateBudget, Ranker.Chosen, Ranker.MmrSequence, Fill, Listed,
         TokensBefore, RowOf, Text.Join, Contents, CountProtected;
    var l := DecisionsSound(features, important, q);
    VerbatimUnlessCompressed(q.policy, Allocated(q).value.inputBudget, q.cands, l);
    ListedOfType(|q.cands|, l.selected, t);
    Ranker.CapsHold(features, q.cands, q.policy, t);
    var taken := set i | i in Ranker.Chosen(features, q.cands, q.policy) && i < |q.cands| && q.cands[i].itemType == t;
    var shown := PlacesOfType(|q.cands|, l.selected, t);
    forall i | i in shown ensures i in taken {
      SelectedChosen(features, q, i);
    }
    SubsetSize(shown, taken);
  }

  lemma SelectedChosen(features: string -> set<string>, q: Request, i: nat)
    requires i < |q.cands| && !q.cands[i].isProtected && i in Elems(Ranker.MmrSequence(features, q.cands, q.policy))
    ensures i in Ranker.Chosen(features, q.cands, q.policy) && i !in Ranker.Pruned(features, q.cands, q.policy)
  {
    hide Ranker.Chosen;
    AscendingLists(|q.cands|, Protected(q.cands));
  }

  // ----- What is handed out -----

  lemma {:induction false} ListedInOrder(n: nat, m: map<nat, Candidate>) returns (at: seq<nat>)
    ensures Increasing(at) && (forall i: nat :: i in at <==> i < n && i in m)
    ensures |Listed(n, m)| == |at|
    ensures forall r :: 0 <= r < |at| ==> at[r] in m && Listed(n, m)[r] == m[at[r]]
  {
    at := [];
    if n > 0 {
      at := ListedInOrder(n - 1, m);
      assert forall r :: 0 <= r < |at| ==> at[r] in at;
      if n - 1 in m {
        at := at + [n - 1];
      }
    }
  }

  /** The selected items are handed out in the order of the candidates, as decided; so are
      the rejected ones, as they came; and the prompt is the selected contents joined by
      blank lines. */
  lemma HandedOut(features: string -> set<string>, important: string -> bool, q: Request)
    returns (at: seq<nat>, left: seq<nat>, parts: seq<string>)
    requires Built(features, important, q).Ok?
    ensures var e := Built(features, important, q).value;
      var l := Decisions(features, important, q, e.allocation.inputBudget);
      && Increasing(at) && (forall i: nat :: i in at <==> i < |q.cands| && i in l.selected)
      && |e.selected| == |at|
      && (forall r :: 0 <= r < |at| ==> at[r] in l.selected && e.selected[r] == l.selected[at[r]])
      && Increasing(left) && (forall i: nat :: i in left <==> i < |q.cands| && i !in l.selected)
      && |e.rejected| == |left|
      && (forall r :: 0 <= r < |left| ==> left[r] < |q.cands| && e.rejected[r] == q.cands[left[r]])
      && |parts| == |at| && (forall r :: 0 <= r < |at| ==> parts[r] == e.selected[r].content)
      && e.rendered == Text.Join("\n\n", parts)
  {
    hide Decisions, Ranker.MmrSequence, Ranker.Pruned, AllocateBudget, Listed, ProtectedTokens, Unselected, EnvelopeOf,
         Increasing, Text.Join;
    var l := Decisions(features, important, q, Allocated(q).value.inputBudget);
    at := ListedInOrder(|q.cands|, l.selected);
    left := ListedInOrder(|q.cands|, Unselected(q.cands, l));
    UnselectedAre(q.cands, l);
    EnvelopeHands(q.cands, Allocated(q).value, Ranker.Pruned(features, q.cands, q.policy), l);
    parts := Contents(Listed(|q.cands|, l.selected));
    forall r | 0 <= r < |left| ensures left[r] < |q.cands| && left[r] !in l.selected {
      assert left[r] in left;
    }
  }

  lemma EnvelopeHands(cands: seq<Candidate>, a: Allocation, pruned: set<nat>, l: Ledger)
    ensures var e := EnvelopeOf(cands, a, pruned, l);
      && e.allocation == a
      && e.selected == Listed(|cands|, l.selected)
      && e.rejected == Listed(|cands|, Unselected(cands, l))
      && e.rendered == Text.Join("\n\n", Contents(e.selected))
  {
    hide Listed, TokensBefore, RowOf, CountProtected, ArtifactOf, Unselected, Text.Join, Contents;
  }

  lemma UnselectedAre(cands: seq<Candidate>, l: Ledger)
    ensures forall i: nat :: i in Unselected(cands, l) <==> i < |cands| && i !in l.selected
    ensures forall i :: i in Unselected(cands, l) ==> i < |cands| && Unselected(cands, l)[i] == cands[i]
  {
    forall i: nat ensures i in Unselected(cands, l) <==> i < |cands| && i !in l.selected {
      assert i in Upto(|cands|) <==> i < |cands|;
    }
  }

  /** An item row shows the tokens of what was selected, or else of the candidate, and for a
      selected item the reason and level it was selected with. */
  lemma RowsShowItems(features: string -> set<string>, important: string -> bool, q: Request, i: nat)
    requires Built(features, important, q).Ok? && i < |q.cands|
    ensures var e := Built(features, important, q).value;
      var l := Decisions(features, important, q, e.allocation.inputBudget);
      && |e.rows| == |q.cands|
      && (i in l.selected ==>
            && e.rows[i].tokenCount == EstimateTokens(l.selected[i].content)
            && e.rows[i].reason == l.selected[i].reason && e.rows[i].level == l.selected[i].level)
      && (i !in l.selected ==>
            e.rows[i].tokenCount == EstimateTokens(q.cands[i].content) && e.rows[i].level == q.cands[i].level)
  {
    hide Built, Decisions, Ranker.MmrSequence, Ranker.Pruned, AllocateBudget, Sound, EstimateTokens, EnvelopeOf;
    SuccessMeans(features, important, q);
    var l := DecisionsSound(features, important, q);
    SoundPriced(q.policy, Allocated(q).value.inputBudget, q.cands, l);
    EnvelopeRow(q.cands, Allocated(q).value, Ranker.Pruned(features, q.cands, q.policy), l, i);
  }

  // ----- Whether anything was cut -----

  lemma {:induction false} ListedSize(n: nat, m: map<nat, Candidate>)
    ensures |Listed(n, m)| <= n
    ensures |Listed(n, m)| == n ==> forall i: nat :: i < n ==> i in m && Listed(n, m)[i] == m[i]
  {
    if n > 0 {
      ListedSize(n - 1, m);
    }
  }

  lemma {:induction false} ListedNone(n: nat, m: map<nat, Candidate>)
    ensures Listed(n, m) == [] <==> forall i: nat :: i < n ==> i !in m
  {
    if n > 0 {
      ListedNone(n - 1, m);
    }
  }

  /** The manifest says "not truncated" exactly when the selection is the input. */
  lemma TruncatedExactly(features: string -> set<string>, important: string -> bool, q: Request)
    requires Built(features, important, q).Ok?
    ensures var e := Built(features, important, q).value;
      !e.truncated <==> e.selected == q.cands
  {
    hide Built, Decisions, Ranker.MmrSequence, Ranker.Pruned, Sound, Allocated, EnvelopeOf, Listed;
    SuccessMeans(features, important, q);
    var l := DecisionsSound(features, important, q);
    var a := Allocated(q).value;
    CutMeans(q.cands, a, Ranker.Pruned(features, q.cands, q.policy), l);
    UncutMeans(q, a.inputBudget, l);
  }

  lemma CutMeans(cands: seq<Candidate>, a: Allocation, pruned: set<nat>, l: Ledger)
    ensures var e := EnvelopeOf(cands, a, pruned, l);
      && e.selected == Listed(|cands|, l.selected)
      && (!e.truncated <==> l.compressions == map[] && forall i: nat :: i < |cands| ==> i in l.selected)
  {
    NothingRejected(cands, l);
    hide Listed, Text.Join, Contents, TokensBefore, RowOf, CountProtected, Unselected;
  }

  lemma NothingRejected(cands: seq<Candidate>, l: Ledger)
    ensures Listed(|cands|, Unselected(cands, l)) == [] <==> forall i: nat :: i < |cands| ==> i in l.selected
  {
    var left := Unselected(cands, l);
    ListedNone(|cands|, left);
    forall i: nat | i < |cands| ensures i in left <==> i !in l.selected {
      assert i in Upto(|cands|);
    }
  }

  lemma UncutMeans(q: Request, budget: int, l: Ledger)
    requires Sound(q.policy, budget, q.cands, l)
    ensures (l.compressions == map[] && forall i: nat :: i < |q.cands| ==> i in l.selected)
       <==> Listed(|q.cands|, l.selected) == q.cands
  {
    hide EstimateTokens, TokenSum;
    var n := |q.cands|;
    ListedSize(n, l.selected);
    if l.compressions == map[] && forall i: nat :: i < n ==> i in l.selected {
      ListedAll(q.cands, n, l.selected);
      assert q.cands[..n] == q.cands;
    }
    forall i | i in l.compressions ensures i in l.selected && i < n && l.selected[i] != q.cands[i] {
    }
  }

  // ----- The counts of the manifest -----

  lemma {:induction false} ListedCounts(cands: seq<Candidate>, n: nat, m: map<nat, Candidate>)
    requires n <= |cands|
    requires forall i: nat :: i < n && i in m ==> m[i].isProtected == cands[i].isProtected
    requires forall i: nat :: i < n && cands[i].isProtected ==> i in m
    ensures CountProtected(Listed(n, m)) == CountProtected(cands[..n])
  {
    if n > 0 {
      ListedCounts(cands, n - 1, m);
      assert cands[..n] == cands[..n - 1] + [cands[n - 1]];
      CountProtectedSnoc(cands[..n - 1], cands[n - 1]);
      if n - 1 in m {
        CountProtectedSnoc(Listed(n - 1, m), m[n - 1]);
      }
    }
  }

  lemma {:induction false} CountProtectedSnoc(cands: seq<Candidate>, c: Candidate)
    ensures CountProtected(cands + [c]) == CountProtected(cands) + (if c.isProtected then 1 else 0)
  {
    if cands != [] {
      CountProtectedSnoc(cands[1..], c);
      assert (cands + [c])[1..] == cands[1..] + [c];
    } else {
      assert cands + [c] == [c];
    }
  }

  lemma {:induction false} ListedBoth(n: nat, m: map<nat, Candidate>, other: map<nat, Candidate>)
    requires forall i: nat :: i < n ==> (i in m <==> i !in other)
    ensures |Listed(n, m)| + |Listed(n, other)| == n
  {
    if n > 0 {
      ListedBoth(n - 1, m, other);
    }
  }

  /** Selected and rejected items together are as many as the candidates, and the reported
      number of protected items is the number of protected candidates. */
  lemma ManifestCounts(features: string -> set<string>, important: string -> bool, q: Request)
    requires Built(features, important, q).Ok?
    ensures var e := Built(features, important, q).value;
      && |e.selected| + |e.rejected| == |q.cands|
      && e.protectedCount == CountProtected(q.cands)
  {
    hide Consider, Ranker.MmrSequence, Ranker.Pruned, ProtectedTokens, AllocateBudget, Sound, EstimateTokens,
         TokensBefore, RowOf, Text.Join, Contents, CountProtected, Built, Decisions;
    SuccessMeans(features, important, q);
    var l := DecisionsSound(features, important, q);
    forall i: nat | i < |q.cands| && q.cands[i].isProtected ensures i in l.selected {
      ProtectedVerbatim(features, important, q, i);
    }
    ProtectionKept(q, Allocated(q).value.inputBudget, l);
    ListedCounts(q.cands, |q.cands|, l.selected);
    assert q.cands[..|q.cands|] == q.cands;
    ListedBoth(|q.cands|, l.selected, Unselected(q.cands, l));
  }

  lemma ProtectionKept(q: Request, budget: int, l: Ledger)
    requires Sound(q.policy, budget, q.cands, l)
    ensures forall i: nat :: i < |q.cands| && i in l.selected ==> l.selected[i].isProtected == q.cands[i].isProtected
  {
    hide EstimateTokens, TokenSum;
  }

  function SelectedRowTokens(rows: seq<ItemRow>, n: nat): int
    requires n <= |rows|
  {
    if n == 0 then 0
    else SelectedRowTokens(rows, n - 1) + (if rows[n - 1].isSelected then rows[n - 1].tokenCount else 0)
  }

  lemma {:induction false} RowTokensAre(cands: seq<Candidate>, pruned: set<nat>, l: Ledger, n: nat)
    requires n <= |cands| && l.tokens.Keys == l.selected.Keys
    ensures SelectedRowTokens(seq(|cands|, i requires 0 <= i < |cands| => RowOf(cands, pruned, l, i)), n)
        == TokenSum(n, l.tokens)
  {
    hide RowOf;
    if n > 0 {
      RowTokensAre(cands, pruned, l, n - 1);
      RowSays(cands, pruned, l, n - 1);
    }
  }

  lemma RowSays(cands: seq<Candidate>, pruned: set<nat>, l: Ledger, i: nat)
    requires i < |cands|
    ensures RowOf(cands, pruned, l, i).isSelected <==> i in l.selected
    ensures i in l.tokens ==> RowOf(cands, pruned, l, i).tokenCount == l.tokens[i]
  {
    hide EstimateTokens;
  }

  /** The token counts of the selected rows add up to the total of the manifest. */
  lemma RowTokensAddUp(features: string -> set<string>, important: string -> bool, q: Request)
    requires Built(features, important, q).Ok?
    ensures var e := Built(features, important, q).value;
      SelectedRowTokens(e.rows, |e.rows|) == e.tokenAfter
  {
    hide Built, Decisions, Ranker.MmrSequence, Ranker.Pruned, AllocateBudget, Sound, TokensBefore, Text.Join,
         Contents, CountProtected, Listed, RowOf, EstimateTokens;
    SuccessMeans(features, important, q);
    var l := DecisionsSound(features, important, q);
    SoundPriced(q.policy, Allocated(q).value.inputBudget, q.cands, l);
    RowTokensAre(q.cands, Ranker.Pruned(features, q.cands, q.policy), l, |q.cands|);
  }

  // ----- The rendered prompt -----

  lemma {:induction false} ContentsLength(cands: seq<Candidate>)
    ensures Text.TotalLength(Contents(cands)) <= 3 * TotalTokens(cands)
    ensures (forall i :: 0 <= i < |cands| ==> |cands[i].content| % 3 == 0)
            ==> Text.TotalLength(Contents(cands)) == 3 * TotalTokens(cands)
  {
    hide EstimateTokens;
    if cands != [] {
      var rest, last := cands[..|cands| - 1], cands[|cands| - 1];
      ContentsLength(rest);
      EstimatorsAgree(last.content);
      var t := Contents(cands);
      assert t[..|t| - 1] == Contents(rest);
    }
  }

  lemma EstimateBound(content: string, total: nat, extra: nat)
    requires |content| <= 3 * total + extra
    ensures EstimateTokens(content) <= total + CeilDiv(extra, 3)
    ensures |content| == 3 * total + extra ==> EstimateTokens(content) == total + CeilDiv(extra, 3)
  {
    hide EstimateTokens;
    EstimatorsAgree(content);
  }

  /** When the candidates together fit the input budget, nothing is compressed and nothing
      but what the policy prunes is left out. */
  lemma RoomyBuild(features: string -> set<string>, important: string -> bool, q: Request)
    requires Built(features, important, q).Ok? && TotalTokens(q.cands) <= Allocated(q).value.inputBudget
    ensures var l := Decisions(features, important, q, Allocated(q).value.inputBudget);
      && l.compressions == map[]
      && (forall i: nat :: i < |q.cands| ==> (i in l.selected <==> i !in Ranker.Pruned(features, q.cands, q.policy)))
      && (forall i :: i in l.selected ==> i < |q.cands| && l.selected[i] == q.cands[i])
  {
    hide Fill, Built, Ranker.MmrSequence, Ranker.Pruned, AllocateBudget, TokensAt, TotalTokens, Ranker.OrdersAll;
    SuccessMeans(features, important, q);
    OrderUsable(features, q);
    var order, all := Ranker.MmrSequence(features, q.cands, q.policy), Upto(|q.cands|);
    BeforeIsTotal(q.cands, |q.cands|);
    assert q.cands[..|q.cands|] == q.cands;
    AllFit(important, q.policy, Allocated(q).value.inputBudget, q.cands, order, all);
    forall i: nat | i < |q.cands| ensures i in Elems(order) <==> i !in Ranker.Pruned(features, q.cands, q.policy) {
      UnprunedOffered(features, q, i);
    }
  }

  /** The characters of the rendered prompt: the contents and two per separator. */
  function RenderedLength(selected: seq<Candidate>): nat {
    Text.TotalLength(Contents(selected)) + (if selected == [] then 0 else 2 * (|selected| - 1))
  }

  lemma EstimateExactly(content: string, bound: int)
    ensures EstimateTokens(content) <= bound <==> |content| <= 3 * bound
    ensures EstimateTokens(content) == CeilDiv(|content|, 3)
  {
    hide EstimateTokens;
    EstimatorsAgree(content);
  }

  /** What the rendered prompt costs exactly, and exactly when the reported total covers it
      and when it still fits the window beside the output reserve. */
  lemma RenderedExactly(features: string -> set<string>, important: string -> bool, q: Request)
    requires Built(features, important, q).Ok?
    ensures var e := Built(features, important, q).value;
      var n := RenderedLength(e.selected);
      && EstimateTokens(e.rendered) == CeilDiv(n, 3)
      && (EstimateTokens(e.rendered) <= e.tokenAfter <==> n <= 3 * e.tokenAfter)
      && (EstimateTokens(e.rendered) + e.allocation.outputReserve <= e.allocation.contextWindow <==>
            n <= 3 * (e.allocation.contextWindow - e.allocation.outputReserve))
  {
    hide Built, Decisions, Ranker.MmrSequence, Ranker.Pruned, AllocateBudget, EstimateTokens, Sound, Allocated;
    var l := DecisionsSound(features, important, q);
    var e := Built(features, important, q).value;
    Text.JoinLength("\n\n", Contents(e.selected));
    EstimateExactly(e.rendered, e.tokenAfter);
    EstimateExactly(e.rendered, e.allocation.contextWindow - e.allocation.outputReserve);
  }

  /** The separators that join the selected items are not counted: the estimate of the
      rendered prompt exceeds the reported total by at most two thirds of a token per
      separator, rounded up, and by exactly that when every content length is a multiple
      of three. Up to the safety margin the prompt still fits the window. */
  lemma RenderedBound(features: string -> set<string>, important: string -> bool, q: Request)
    requires Built(features, important, q).Ok?
    ensures var e := Built(features, important, q).value;
      var excess := if e.selected == [] then 0 else CeilDiv(2 * (|e.selected| - 1), 3);
      && EstimateTokens(e.rendered) <= e.tokenAfter + excess
      && ((forall i :: 0 <= i < |e.selected| ==> |e.selected[i].content| % 3 == 0) ==>
            EstimateTokens(e.rendered) == e.tokenAfter + excess)
      && (excess <= e.allocation.safetyMargin ==>
            EstimateTokens(e.rendered) + e.allocation.outputReserve <= e.allocation.contextWindow)
  {
    hide Built, Decisions, Ranker.MmrSequence, Ranker.Pruned, AllocateBudget, EstimateTokens, Sound, Allocated;
    SuccessMeans(features, important, q);
    var l := DecisionsSound(features, important, q);
    BudgetSafety(features, important, q);
    var e := Built(features, important, q).value;
    ContentsLength(e.selected);
    Text.JoinLength("\n\n", Contents(e.selected));
    EstimateBound(e.rendered, e.tokenAfter, if e.selected == [] then 0 else 2 * (|e.selected| - 1));
  }

  /** Up to 769 candidates, and beyond that as long as the safety margin has two thirds of a
      token for every separator, the rendered prompt fits the window beside the output. */
  lemma PromptFits(features: string -> set<string>, important: string -> bool, q: Request)
    requires Built(features, important, q).Ok?
    requires |q.cands| <= 769 || 2 * (|q.cands| - 1) <= 3 * Allocated(q).value.safetyMargin
    ensures var e := Built(features, important, q).value;
      EstimateTokens(e.rendered) + e.allocation.outputReserve <= e.allocation.contextWindow
  {
    hide Built, Decisions, Ranker.MmrSequence, Ranker.Pruned, AllocateBudget, EstimateTokens, Sound, Allocated,
         EnvelopeOf;
    SuccessMeans(features, important, q);
    MarginLarge(q);
    ManifestCounts(features, important, q);
    RenderedBound(features, important, q);
  }

  lemma MarginLarge(q: Request)
    ensures Allocated(q).Ok? ==> Allocated(q).value.safetyMargin >= 512
  {
  }

  /** Two protected items of three characters: the total says two tokens, the prompt that
      joins them has eight characters and takes three. */
  lemma SeparatorsAreUncounted(features: string -> set<string>, important: string -> bool, policy: Policy, c: Candidate)
    requires c.isProtected && |c.content| == 3
    ensures var r := Built(features, important, Request(policy, [c, c], 1000, None, None, None));
      r.Ok? && r.value.selected == [c, c] && r.value.tokenAfter == 2 && EstimateTokens(r.value.rendered) == 3
  {
    hide Built, Decisions, Affordable, Ranker.MmrSequence, Ranker.Pruned, AllocateBudget, EstimateTokens, EnvelopeOf,
         Listed, Sound, Text.TotalLength, TotalTokens, ProtectedTokens;
    var q := Request(policy, [c, c], 1000, None, None, None);
    EstimatorsAgree(c.content);
    PairTokens(c);
    PairAffordable();
    ProtectedTotal(q.cands);
    BuildSucceedsExactly(features, important, q);
    AllProtected(features, important, q);
    BudgetSafety(features, important, q);
    RenderedExactly(features, important, q);
    PairLength(c);
  }

  lemma PairAffordable()
    ensures Affordable(16000, 1000, None, MIN_INPUT_BUDGET)
  {
    var margin := 1600;
    assert margin >= 512 && 10 * margin >= 16000 && MIN_INPUT_BUDGET + 1000 + margin <= 16000;
  }

  lemma PairTokens(c: Candidate)
    requires c.isProtected && EstimateTokens(c.content) == 1
    ensures ProtectedTokens([c, c]) == 2 && TotalTokens([c, c]) == 2
  {
    hide EstimateTokens, TokensAt, TotalTokens;
    PairTokensAt([c, c], Protected([c, c]));
    NoTokens();
    TotalTokensSnoc([], c);
    TotalTokensSnoc([c], c);
    assert [] + [c] == [c] && [c] + [c] == [c, c];
  }

  lemma NoTokens()
    ensures TotalTokens([]) == 0
  {
  }

  lemma PairTokensAt(cands: seq<Candidate>, s: set<nat>)
    requires |cands| == 2 && 0 in s && 1 in s
    ensures TokensAt(cands, s, 2) == EstimateTokens(cands[0].content) + EstimateTokens(cands[1].content)
  {
    hide EstimateTokens;
    assert TokensAt(cands, s, 0) == 0;
    assert TokensAt(cands, s, 1) == EstimateTokens(cands[0].content);
  }

  lemma PairLength(c: Candidate)
    requires |c.content| == 3
    ensures Text.TotalLength(Contents([c, c])) == 6
  {
    var t := Contents([c, c]);
    assert t == [c.content, c.content];
    assert t[..1] == [c.content] && t[..1][..0] == [];
    assert Text.TotalLength(t[..1]) == 3;
  }

  /** When every candidate is protected, the selection is the input. */
  lemma AllProtected(features: string -> set<string>, important: string -> bool, q: Request)
    requires Built(features, important, q).Ok?
    requires forall i :: 0 <= i < |q.cands| ==> q.cands[i].isProtected
    ensures Built(features, important, q).value.selected == q.cands
  {
    hide Decisions, Ranker.MmrSequence, Ranker.Pruned, AllocateBudget, Listed, Sound, TokensBefore, Text.Join, Contents;
    var l := DecisionsSound(features, important, q);
    forall i: nat | i < |q.cands| ensures i in l.selected && l.selected[i] == q.cands[i] {
      ProtectedVerbatim(features, important, q, i);
    }
    ListedAll(q.cands, |q.cands|, l.selected);
    assert q.cands[..|q.cands|] == q.cands;
  }
}
