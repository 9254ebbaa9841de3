/** The context budget manager: the budget split, the selection loop that admits,
    compresses or rejects every candidate, and the manifest it leaves behind. */
module Manager {
  import opened Basics
  import opened Context
  import Compressor
  import Text

  const DEFAULT_CONTEXT_WINDOW := 16000
  const MIN_INPUT_BUDGET := 512

  datatype Allocation = Allocation(contextWindow: int, inputBudget: int, outputReserve: int, safetyMargin: int)

  datatype BudgetError = WindowTooSmall | BudgetInsufficient | ProtectedTooLarge

  /** math.ceil */
  function Ceiling(x: real): int {
    -((-x).Floor)
  }

  function EstimateTokens(content: string): int {
    if content == [] then 0 else Max(1, Ceiling(|content| as real / 3.0))
  }

  /** The manager's estimator and the compressor's, which are written differently, agree:
      both are the least number of tokens that cover the text at three characters each. */
  lemma EstimatorsAgree(content: string)
    ensures EstimateTokens(content) == Compressor.EstimateTokens(content)
    ensures 3 * EstimateTokens(content) - 3 < |content| <= 3 * EstimateTokens(content)
  {
    var x := |content| as real / 3.0;
    var c := Ceiling(x);
    assert c as real - 1.0 < x <= c as real;
    assert x * 3.0 == |content| as real;
    assert 3 * c - 3 < |content| <= 3 * c;
  }

  // ----- The budget split -----

  /** `value or default` for an optional number. */
  function OrElse(value: Option<int>, default: int): int {
    if value.None? || value.value == 0 then default else value.value
  }

  function SafetyMargin(window: int): int {
    Max(512, Ceiling(window as real * 0.10))
  }

  function InputShare(window: int): int {
    (window as real * 0.70).Floor
  }

  function AllocateBudget(contextWindow: Option<int>, requestedOutput: int, providerMaxOutput: Option<int>,
                          maxInput: Option<int>): Result<Allocation, BudgetError>
  {
    var window := OrElse(contextWindow, DEFAULT_CONTEXT_WINDOW);
    if window < 1024 then Err(WindowTooSmall)
    else
      var outputReserve := Min(requestedOutput, OrElse(providerMaxOutput, requestedOutput));
      var safetyMargin := SafetyMargin(window);
      var available := window - outputReserve - safetyMargin;
      var share := Min(available, InputShare(window));
      var inputBudget := if maxInput.Some? then Min(share, maxInput.value) else share;
      if inputBudget < MIN_INPUT_BUDGET then Err(BudgetInsufficient)
      else Ok(Allocation(window, inputBudget, outputReserve, safetyMargin))
  }

  /** What an input budget must respect: seventy percent of the window, a tenth of it
      (and at least 512 tokens) kept free beside the output, and the caller's own cap. */
  ghost predicate Affordable(window: int, outputReserve: int, maxInput: Option<int>, b: int) {
    && 10 * b <= 7 * window
    && (exists margin :: margin >= 512 && 10 * margin >= window && b + outputReserve + margin <= window)
    && (maxInput.Some? ==> b <= maxInput.value)
  }

  /** The split grants the largest affordable input budget, and fails exactly when the
      window is below 1024 or not even the minimum is affordable. */
  lemma AllocationIsLargest(contextWindow: Option<int>, requestedOutput: int, providerMaxOutput: Option<int>,
                            maxInput: Option<int>)
    ensures var r := AllocateBudget(contextWindow, requestedOutput, providerMaxOutput, maxInput);
      var window := OrElse(contextWindow, DEFAULT_CONTEXT_WINDOW);
      var reserve := Min(requestedOutput, OrElse(providerMaxOutput, requestedOutput));
      && (r.Ok? ==>
           && r.value.contextWindow == window && r.value.outputReserve == reserve
           && (forall m: int :: m >= r.value.safetyMargin <==> m >= 512 && 10 * m >= window)
           && r.value.inputBudget + reserve + r.value.safetyMargin <= window
           && Affordable(window, reserve, maxInput, r.value.inputBudget)
           && (forall b {:trigger Affordable(window, reserve, maxInput, b)} ::
                 Affordable(window, reserve, maxInput, b) <==> b <= r.value.inputBudget))
      && (r.Err? <==> window < 1024 || !Affordable(window, reserve, maxInput, MIN_INPUT_BUDGET))
  {
    var window := OrElse(contextWindow, DEFAULT_CONTEXT_WINDOW);
    var reserve := Min(requestedOutput, OrElse(providerMaxOutput, requestedOutput));
    hide SafetyMargin, InputShare, Affordable;
    SplitBounds(window);
    var margin, cap := SafetyMargin(window), InputShare(window);
    LargestAffordable(window, reserve, maxInput, margin, cap);
  }

  /** What the inputs of the split stand for: an absent or zero window is the default of
      16000 tokens, and an absent or zero limit of the provider does not cut the request. */
  lemma AllocationInputs(contextWindow: Option<int>, requestedOutput: int, providerMaxOutput: Option<int>,
                         maxInput: Option<int>)
    requires AllocateBudget(contextWindow, requestedOutput, providerMaxOutput, maxInput).Ok?
    ensures var a := AllocateBudget(contextWindow, requestedOutput, providerMaxOutput, maxInput).value;
      && (contextWindow in {None, Some(0)} ==> a.contextWindow == 16000)
      && (contextWindow !in {None, Some(0)} ==> contextWindow == Some(a.contextWindow))
      && (providerMaxOutput in {None, Some(0)} ==> a.outputReserve == requestedOutput)
      && (providerMaxOutput !in {None, Some(0)} ==>
            && a.outputReserve <= requestedOutput && a.outputReserve <= providerMaxOutput.value
            && a.outputReserve in {requestedOutput, providerMaxOutput.value})
  {
    hide SafetyMargin, InputShare;
  }

  lemma LargestAffordable(window: int, reserve: int, maxInput: Option<int>, margin: int, cap: int)
    requires margin >= 512 && 10 * margin >= window && (margin == 512 || 10 * (margin - 1) < window)
    requires 10 * cap <= 7 * window < 10 * (cap + 1)
    ensures var share := Min(window - reserve - margin, cap);
      var most := if maxInput.Some? then Min(share, maxInput.value) else share;
      forall b {:trigger Affordable(window, reserve, maxInput, b)} ::
        Affordable(window, reserve, maxInput, b) <==> b <= most
  {
    var share := Min(window - reserve - margin, cap);
    var most := if maxInput.Some? then Min(share, maxInput.value) else share;
    forall b ensures Affordable(window, reserve, maxInput, b) <==> b <= most {
      if b <= most {
        assert margin >= 512 && 10 * margin >= window && b + reserve + margin <= window;
      }
    }
  }

  lemma SplitBounds(window: int)
    ensures var m := SafetyMargin(window); m >= 512 && 10 * m >= window && (m == 512 || 10 * (m - 1) < window)
    ensures 10 * InputShare(window) <= 7 * window < 10 * (InputShare(window) + 1)
  {
    var tenth := window as real * 0.10;
    var share := window as real * 0.70;
    assert tenth * 10.0 == window as real;
    assert share * 10.0 == 7.0 * window as real;
    var c := Ceiling(tenth);
    assert c as real - 1.0 < tenth <= c as real;
    assert 10 * c >= window > 10 * (c - 1);
    assert 10 * share.Floor <= 7 * window < 10 * (share.Floor + 1);
  }

  // ----- Token sums -----

  function TokenSum(n: nat, m: map<nat, int>): int {
    if n == 0 then 0 else TokenSum(n - 1, m) + (if n - 1 in m then m[n - 1] else 0)
  }

  lemma {:induction false} TokenSumInsert(n: nat, m: map<nat, int>, i: nat, v: int)
    requires i !in m
    ensures TokenSum(n, m[i := v]) == TokenSum(n, m) + (if i < n then v else 0)
  {
    if n > 0 {
      TokenSumInsert(n - 1, m, i, v);
    }
  }

  lemma {:induction false} TokenSumGrows(n: nat, m: map<nat, int>, m': map<nat, int>)
    requires forall i :: i in m ==> i in m' && m[i] <= m'[i]
    requires forall i :: i in m' ==> 0 <= m'[i]
    ensures TokenSum(n, m) <= TokenSum(n, m')
  {
    if n > 0 {
      TokenSumGrows(n - 1, m, m');
    }
  }

  /** The estimates of those of the first `n` candidates whose positions are in `s`. */
  function TokensAt(cands: seq<Candidate>, s: set<nat>, n: nat): int
    requires n <= |cands|
  {
    if n == 0 then 0 else TokensAt(cands, s, n - 1) + (if n - 1 in s then EstimateTokens(cands[n - 1].content) else 0)
  }

  function ProtectedTokens(cands: seq<Candidate>): int {
    TokensAt(cands, Protected(cands), |cands|)
  }

  function TokensBefore(cands: seq<Candidate>): int {
    TokensAt(cands, Upto(|cands|), |cands|)
  }

  lemma {:induction false} TokensAtInsert(cands: seq<Candidate>, s: set<nat>, n: nat, i: nat)
    requires n <= |cands| && i !in s
    ensures TokensAt(cands, s + {i}, n)
        == TokensAt(cands, s, n) + (if i < n then EstimateTokens(cands[i].content) else 0)
  {
    hide EstimateTokens;
    if n > 0 {
      TokensAtInsert(cands, s, n - 1, i);
    }
  }

  lemma {:induction false} TokensAtGrows(cands: seq<Candidate>, s: set<nat>, t: set<nat>, n: nat)
    requires n <= |cands| && s <= t
    ensures TokensAt(cands, s, n) <= TokensAt(cands, t, n)
  {
    hide EstimateTokens;
    if n > 0 {
      TokensAtGrows(cands, s, t, n - 1);
      EstimateNonNegative(cands[n - 1].content);
    }
  }

  // ----- The selection loop -----

  /** What the loop has decided so far. */
  datatype Ledger = Ledger(
    selected: map<nat, Candidate>,
    tokens: map<nat, int>,
    compressions: map<nat, Compressor.Compressed>,
    used: int)

  const EMPTY_LEDGER := Ledger(map[], map[], map[], 0)

  /** One candidate: admitted as it is, admitted compressed, or passed over. */
  function Consider(important: string -> bool, policy: Policy, budget: int, l: Ledger, i: nat, c: Candidate): Ledger {
    var tokens := EstimateTokens(c.content);
    if l.used + tokens <= budget then
      Ledger(l.selected[i := c], l.tokens[i := tokens], l.compressions, l.used + tokens)
    else if c.isProtected || c.itemType !in policy.compressibleTypes then l
    else
      var r := Compressor.Compress(important, c, budget - l.used);
      if r.None? then l
      else
        var z := r.value;
        Ledger(l.selected[i := z.candidate], l.tokens[i := z.tokenAfter], l.compressions[i := z], l.used + z.tokenAfter)
  }

  function Fill(important: string -> bool, policy: Policy, budget: int, cands: seq<Candidate>,
                order: seq<nat>): Ledger {
    if order == [] then EMPTY_LEDGER
    else
      var before := Fill(important, policy, budget, cands, order[..|order| - 1]);
      var i := order[|order| - 1];
      if i < |cands| then Consider(important, policy, budget, before, i, cands[i]) else before
  }

  /** What every step keeps: the running total is the sum over the selected items and
      stays within the budget, and every selected item is the candidate itself or a
      strictly smaller compression of an unprotected candidate of a compressible type. */
  ghost predicate Sound(policy: Policy, budget: int, cands: seq<Candidate>, l: Ledger) {
    && l.tokens.Keys == l.selected.Keys
    && l.used == TokenSum(|cands|, l.tokens) <= budget
    && l.compressions.Keys <= l.selected.Keys
    && forall i :: i in l.selected ==> i < |cands| && ItemSound(policy, cands[i], l, i)
  }

  /** What a compression records about its input. */
  ghost predicate Documented(c: Candidate, z: Compressor.Compressed) {
    && z.tokenBefore == EstimateTokens(c.content)
    && z.candidate.level != Raw
    && (c.provenance != [] ==> z.candidate.provenance == c.provenance)
    && (c.provenance == [] ==>
          forall ref :: ref in z.candidate.provenance <==> c.sourceRefType == Some(ref) || c.sourceRefId == Some(ref))
  }

  ghost predicate ItemSound(policy: Policy, c: Candidate, l: Ledger, i: nat)
    requires i in l.selected && i in l.tokens
  {
    && l.tokens[i] == EstimateTokens(l.selected[i].content)
    && 0 <= l.tokens[i] <= EstimateTokens(c.content)
    && (i !in l.compressions ==> l.selected[i] == c)
    && (i in l.compressions ==>
          && !c.isProtected && c.itemType in policy.compressibleTypes
          && l.selected[i] == l.compressions[i].candidate
          && l.tokens[i] == l.compressions[i].tokenAfter
          && l.tokens[i] < EstimateTokens(c.content)
          && Documented(c, l.compressions[i])
          && l.selected[i].(content := c.content, level := c.level, reason := c.reason, provenance := c.provenance) == c
          && l.selected[i].reason == "compressed_to_fit_budget")
  }

  /** What is selected stays selected, unchanged. */
  ghost predicate Retains(l: Ledger, l': Ledger) {
    forall j :: j in l.selected ==> j in l'.selected && l'.selected[j] == l.selected[j]
  }

  lemma ConsiderKeepsSound(important: string -> bool, policy: Policy, budget: int, cands: seq<Candidate>, l: Ledger,
                           i: nat)
    requires Sound(policy, budget, cands, l)
    requires i < |cands| && i !in l.selected
    ensures var l' := Consider(important, policy, budget, l, i, cands[i]);
      && Sound(policy, budget, cands, l')
      && l.used <= l'.used
      && l.selected.Keys <= l'.selected.Keys <= l.selected.Keys + {i}
      && Retains(l, l')
  {
    hide Sound, EstimateTokens, Compressor.Compress;
    var c := cands[i];
    var tokens := EstimateTokens(c.content);
    if l.used + tokens <= budget {
      AdmitVerbatim(policy, budget, cands, l, i, tokens);
    } else {
      var r := Compressor.Compress(important, c, budget - l.used);
      if r.Some? && !c.isProtected && c.itemType in policy.compressibleTypes {
        AdmitCompressed(important, policy, budget, cands, l, i);
      }
    }
  }

  lemma AdmitVerbatim(policy: Policy, budget: int, cands: seq<Candidate>, l: Ledger, i: nat, tokens: int)
    requires Sound(policy, budget, cands, l)
    requires i < |cands| && i !in l.selected && tokens == EstimateTokens(cands[i].content) && l.used + tokens <= budget
    ensures Sound(policy, budget, cands,
                  Ledger(l.selected[i := cands[i]], l.tokens[i := tokens], l.compressions, l.used + tokens))
    ensures tokens >= 0
  {
    hide TokenSum, EstimateTokens;
    EstimateNonNegative(cands[i].content);
    TokenSumInsert(|cands|, l.tokens, i, tokens);
  }

  lemma AdmitCompressed(important: string -> bool, policy: Policy, budget: int, cands: seq<Candidate>, l: Ledger,
                        i: nat)
    requires Sound(policy, budget, cands, l)
    requires i < |cands| && i !in l.selected
    requires !cands[i].isProtected && cands[i].itemType in policy.compressibleTypes
    requires Compressor.Compress(important, cands[i], budget - l.used).Some?
    ensures var z := Compressor.Compress(important, cands[i], budget - l.used).value;
      && z.tokenAfter >= 0
      && Sound(policy, budget, cands,
               Ledger(l.selected[i := z.candidate], l.tokens[i := z.tokenAfter], l.compressions[i := z],
                      l.used + z.tokenAfter))
  {
    hide TokenSum, EstimateTokens, Compressor.Compress, Documented;
    var c := cands[i];
    var z := Compressor.Compress(important, c, budget - l.used).value;
    CompressionSound(important, c, budget - l.used);
    TokenSumInsert(|cands|, l.tokens, i, z.tokenAfter);
  }

  lemma CompressionSound(important: string -> bool, c: Candidate, room: int)
    requires Compressor.Compress(important, c, room).Some?
    ensures var z := Compressor.Compress(important, c, room).value;
      && 0 <= z.tokenAfter == EstimateTokens(z.candidate.content) < EstimateTokens(c.content)
      && Documented(c, z)
      && z.tokenAfter <= room
      && z.candidate.(content := c.content, level := c.level, reason := c.reason, provenance := c.provenance) == c
      && z.candidate.reason == "compressed_to_fit_budget"
  {
    hide EstimateTokens, Compressor.Output;
    Compressor.CompressedIsSmaller(important, c, room);
    Compressor.ProvenanceKept(important, c, room);
    var z := Compressor.Compress(important, c, room).value;
    EstimatorsAgree(z.candidate.content);
    EstimatorsAgree(c.content);
  }

  lemma EstimateNonNegative(content: string)
    ensures EstimateTokens(content) >= 0
  {
    EstimatorsAgree(content);
  }

  /** The order lists positions of candidates, each at most once. */
  ghost predicate Usable(cands: seq<Candidate>, order: seq<nat>) {
    Distinct(order) && forall i :: i in order ==> i < |cands|
  }

  lemma {:induction false} FillSound(important: string -> bool, policy: Policy, budget: int, cands: seq<Candidate>,
                                     order: seq<nat>)
    requires budget >= 0 && Usable(cands, order)
    ensures Sound(policy, budget, cands, Fill(important, policy, budget, cands, order))
    ensures Fill(important, policy, budget, cands, order).selected.Keys <= Elems(order)
  {
    hide Consider, Sound;
    if order == [] {
      EmptySound(policy, budget, cands);
    } else {
      var rest, last := order[..|order| - 1], order[|order| - 1];
      assert order == rest + [last];
      forall i | i in rest ensures i < |cands| {
        assert i in order;
      }
      FillSound(important, policy, budget, cands, rest);
      ElemsAppend(rest, last);
      assert last !in Elems(rest) && last in order;
      ConsiderKeepsSound(important, policy, budget, cands, Fill(important, policy, budget, cands, rest), last);
    }
  }

  lemma {:induction false} EmptySound(policy: Policy, budget: int, cands: seq<Candidate>)
    requires budget >= 0
    ensures Sound(policy, budget, cands, EMPTY_LEDGER)
  {
    EmptySum(|cands|);
  }

  lemma {:induction false} EmptySum(n: nat)
    ensures TokenSum(n, map[]) == 0
  {
    if n > 0 {
      EmptySum(n - 1);
    }
  }

  /** What refuses an item: with this much room it does not fit, and if it is unprotected,
      compressible and not blank there is too little room for any compression of it. */
  ghost predicate Starved(important: string -> bool, policy: Policy, room: int, c: Candidate) {
    && EstimateTokens(c.content) > room
    && (!c.isProtected && c.itemType in policy.compressibleTypes && !Text.Blank(c.content) ==> room < 32)
  }

  lemma PassedOver(important: string -> bool, policy: Policy, budget: int, l: Ledger, i: nat, c: Candidate)
    requires l.used <= budget
    requires i !in l.selected && i !in Consider(important, policy, budget, l, i, c).selected
    ensures Starved(important, policy, budget - l.used, c)
  {
    hide Compressor.Compress, Compressor.Output, Text.Blank, Text.Sentences, EstimateTokens;
    Compressor.CompressesExactly(important, c, budget - l.used);
    EstimatorsAgree(c.content);
  }

  /** With at least 32 tokens of room, what is taken is what is not refused. */
  lemma TakenUnstarved(important: string -> bool, policy: Policy, budget: int, l: Ledger, i: nat, c: Candidate)
    requires budget - l.used >= 32
    requires i !in l.selected && i in Consider(important, policy, budget, l, i, c).selected
    ensures !Starved(important, policy, budget - l.used, c)
  {
    hide Compressor.Compress, Compressor.Output, Text.Blank, Text.Sentences, EstimateTokens;
    Compressor.CompressesExactly(important, c, budget - l.used);
    EstimatorsAgree(c.content);
  }

  /** The room left when the loop reaches the `k`-th item of the order. */
  function RoomAt(important: string -> bool, policy: Policy, budget: int, cands: seq<Candidate>, order: seq<nat>,
                  k: nat): int
    requires k <= |order|
  {
    budget - Fill(important, policy, budget, cands, order[..k]).used
  }

  /** Whether an item ends up selected is settled when the loop reaches it. */
  lemma {:induction false} SettledWhenReached(important: string -> bool, policy: Policy, budget: int,
                                              cands: seq<Candidate>, order: seq<nat>, k: nat, n: nat)
    requires budget >= 0 && Usable(cands, order) && k < n <= |order|
    ensures order[k] in Fill(important, policy, budget, cands, order[..k + 1]).selected
       <==> order[k] in Fill(important, policy, budget, cands, order[..n]).selected
    ensures RoomAt(important, policy, budget, cands, order, n) <= RoomAt(important, policy, budget, cands, order, k)
    decreases n - k
  {
    hide Fill, Consider, Sound;
    Reach(important, policy, budget, cands, order, n - 1);
    if k < n - 1 {
      SettledWhenReached(important, policy, budget, cands, order, k, n - 1);
      assert order[k] != order[n - 1];
    }
  }

  /** One round: what is selected before and after, and the room it may use up. */
  lemma Reach(important: string -> bool, policy: Policy, budget: int, cands: seq<Candidate>, order: seq<nat>, k: nat)
    requires budget >= 0 && Usable(cands, order) && k < |order|
    ensures var before := Fill(important, policy, budget, cands, order[..k]);
      var after := Fill(important, policy, budget, cands, order[..k + 1]);
      && order[k] < |cands| && order[k] !in before.selected
      && after == Consider(important, policy, budget, before, order[k], cands[order[k]])
      && before.selected.Keys <= after.selected.Keys <= before.selected.Keys + {order[k]}
      && before.used <= after.used && before.used <= budget
  {
    hide Fill, Consider, Sound, Retains;
    FillStep(important, policy, budget, cands, order, k);
    UsablePrefix(cands, order, k);
    var before := Fill(important, policy, budget, cands, order[..k]);
    FillSound(important, policy, budget, cands, order[..k]);
    WithinBudget(policy, budget, cands, before);
    ConsiderKeepsSound(important, policy, budget, cands, before, order[k]);
  }

  lemma UsablePrefix(cands: seq<Candidate>, order: seq<nat>, k: nat)
    requires Usable(cands, order) && k < |order|
    ensures Usable(cands, order[..k]) && order[k] !in Elems(order[..k])
  {
    forall i | i in order[..k] ensures i in order {
    }
  }

  /** No item is refused for lack of room that was there: one that is not selected was
      starved when the loop reached it, and all the more at the end. Conversely, what is
      starved with 32 tokens of room or more is not selected. */
  lemma UnselectedStarved(important: string -> bool, policy: Policy, budget: int, cands: seq<Candidate>,
                          order: seq<nat>, k: nat)
    requires budget >= 0 && Usable(cands, order) && k < |order|
    ensures order[k] < |cands|
    ensures var room := RoomAt(important, policy, budget, cands, order, k);
      var left := RoomAt(important, policy, budget, cands, order, |order|);
      var isSelected := order[k] in Fill(important, policy, budget, cands, order).selected;
      && 0 <= left <= room
      && (!isSelected ==>
           Starved(important, policy, room, cands[order[k]]) && Starved(important, policy, left, cands[order[k]]))
      && (room >= 32 ==> (isSelected <==> !Starved(important, policy, room, cands[order[k]])))
  {
    hide Fill, Consider, Sound, Starved, Usable;
    var i := order[k];
    var before := Fill(important, policy, budget, cands, order[..k]);
    Reach(important, policy, budget, cands, order, k);
    SettledWhenReached(important, policy, budget, cands, order, k, |order|);
    assert order[..|order|] == order;
    FillSound(important, policy, budget, cands, order);
    WithinBudget(policy, budget, cands, Fill(important, policy, budget, cands, order));
    var room := RoomAt(important, policy, budget, cands, order, k);
    var left := RoomAt(important, policy, budget, cands, order, |order|);
    if i !in Consider(important, policy, budget, before, i, cands[i]).selected {
      PassedOver(important, policy, budget, before, i, cands[i]);
      StaysStarved(important, policy, room, left, cands[i]);
    } else if room >= 32 {
      TakenUnstarved(important, policy, budget, before, i, cands[i]);
    }
  }

  lemma WithinBudget(policy: Policy, budget: int, cands: seq<Candidate>, l: Ledger)
    requires Sound(policy, budget, cands, l)
    ensures l.used <= budget
  {
  }

  lemma StaysStarved(important: string -> bool, policy: Policy, room: int, less: int, c: Candidate)
    requires Starved(important, policy, room, c) && less <= room
    ensures Starved(important, policy, less, c)
  {
    hide EstimateTokens, Text.Blank;
  }

  /** While everything offered is part of what fits together, all of it is in, as it is. */
  lemma {:induction false} AllFit(important: string -> bool, policy: Policy, budget: int, cands: seq<Candidate>,
                                  order: seq<nat>, s: set<nat>)
    requires Distinct(order) && (forall i :: i in order ==> i in s) && forall i :: i in s ==> i < |cands|
    requires TokensAt(cands, s, |cands|) <= budget
    ensures var l := Fill(important, policy, budget, cands, order);
      && l.used == TokensAt(cands, Elems(order), |cands|)
      && l.selected.Keys == Elems(order)
      && l.compressions == map[]
      && forall i :: i in order ==> i in l.selected && l.selected[i] == cands[i]
  {
    hide EstimateTokens, Compressor.Compress;
    if order == [] {
      assert Elems(order) == {};
      NothingAt(cands, |cands|);
    } else {
      var rest, last := order[..|order| - 1], order[|order| - 1];
      assert order == rest + [last];
      forall i | i in rest ensures i in s {
        assert i in order;
      }
      AllFit(important, policy, budget, cands, rest, s);
      assert last !in rest && last in order;
      ElemsAppend(rest, last);
      TokensAtInsert(cands, Elems(rest), |cands|, last);
      TokensAtGrows(cands, Elems(order), s, |cands|);
    }
  }

  /** While only protected items have been offered, all of them are in, as they are. */
  lemma ProtectedFirst(important: string -> bool, policy: Policy, budget: int, cands: seq<Candidate>, order: seq<nat>)
    requires Distinct(order) && forall i :: i in order ==> i in Protected(cands)
    requires ProtectedTokens(cands) <= budget
    ensures var l := Fill(important, policy, budget, cands, order);
      && l.used == TokensAt(cands, Elems(order), |cands|)
      && l.selected.Keys == Elems(order)
      && forall i :: i in order ==> i in l.selected && l.selected[i] == cands[i]
  {
    hide Fill, TokensAt;
    AllFit(important, policy, budget, cands, order, Protected(cands));
  }

  lemma {:induction false} NothingAt(cands: seq<Candidate>, n: nat)
    requires n <= |cands|
    ensures TokensAt(cands, {}, n) == 0
  {
    if n > 0 {
      NothingAt(cands, n - 1);
    }
  }

  /** One round of the selection loop. */
  lemma FillStep(important: string -> bool, policy: Policy, budget: int, cands: seq<Candidate>, order: seq<nat>, k: nat)
    requires budget >= 0 && Usable(cands, order) && k < |order|
    ensures var l := Fill(important, policy, budget, cands, order[..k]);
      && order[k] < |cands|
      && Fill(important, policy, budget, cands, order[..k + 1])
         == Consider(important, policy, budget, l, order[k], cands[order[k]])
      && Retains(l, Fill(important, policy, budget, cands, order[..k + 1]))
  {
    hide Consider, Sound, Retains;
    assert order[k] in order;
    var before := order[..k];
    assert order[..k + 1][..k] == before;
    forall i | i in before ensures i < |cands| {
      assert i in order;
    }
    FillSound(important, policy, budget, cands, before);
    assert order[k] !in Elems(before);
    ConsiderKeepsSound(important, policy, budget, cands, Fill(important, policy, budget, cands, before), order[k]);
  }

  /** Later steps never touch what is already selected. */
  lemma {:induction false} FillGrows(important: string -> bool, policy: Policy, budget: int, cands: seq<Candidate>,
                                     order: seq<nat>, k: nat)
    requires budget >= 0 && Usable(cands, order) && k <= |order|
    ensures Retains(Fill(important, policy, budget, cands, order[..k]), Fill(important, policy, budget, cands, order))
    decreases |order| - k
  {
    hide Fill, Consider, Retains, Usable;
    if k == |order| {
      assert order[..k] == order;
      RetainsSelf(Fill(important, policy, budget, cands, order));
    } else {
      FillStep(important, policy, budget, cands, order, k);
      FillGrows(important, policy, budget, cands, order, k + 1);
      RetainsStep(Fill(important, policy, budget, cands, order[..k]),
                  Fill(important, policy, budget, cands, order[..k + 1]),
                  Fill(important, policy, budget, cands, order));
    }
  }

  lemma RetainsSelf(a: Ledger)
    ensures Retains(a, a)
  {
  }

  lemma RetainsStep(a: Ledger, b: Ledger, c: Ledger)
    requires Retains(a, b) && Retains(b, c)
    ensures Retains(a, c)
  {
  }

  // ----- Each decision, exactly -----

  /** The tokens of the selected items among the first `k` of an order. */
  function TokensOfSelected(selected: map<nat, Candidate>, order: seq<nat>, k: nat): int
    requires k <= |order|
  {
    if k == 0 then 0
    else
      var i := order[k - 1];
      TokensOfSelected(selected, order, k - 1) + (if i in selected then EstimateTokens(selected[i].content) else 0)
  }

  /** What becomes of an item that is offered `room` tokens. */
  ghost predicate Decided(important: string -> bool, policy: Policy, room: int, c: Candidate, l: Ledger, i: nat) {
    var isCompressible := !c.isProtected && c.itemType in policy.compressibleTypes;
    var fits := EstimateTokens(c.content) <= room;
    && (i in l.selected <==> fits || (isCompressible && Compressor.Compress(important, c, room).Some?))
    && (i in l.compressions <==> i in l.selected && !fits)
    && (i in l.selected && fits ==> l.selected[i] == c)
    && (i in l.compressions ==>
          && Compressor.Compress(important, c, room) == Some(l.compressions[i])
          && i in l.selected && l.selected[i] == l.compressions[i].candidate)
  }

  lemma DecidedAtOnce(important: string -> bool, policy: Policy, budget: int, l: Ledger, i: nat, c: Candidate)
    requires i !in l.selected && i !in l.compressions
    ensures var l' := Consider(important, policy, budget, l, i, c);
      && Decided(important, policy, budget - l.used, c, l', i)
      && l'.used == l.used + (if i in l'.selected then EstimateTokens(l'.selected[i].content) else 0)
  {
    hide EstimateTokens, Compressor.Compress;
    if Compressor.Compress(important, c, budget - l.used).Some? {
      CompressionSound(important, c, budget - l.used);
    }
  }

  ghost predicate SameAt(a: Ledger, b: Ledger, i: nat) {
    && (i in a.selected <==> i in b.selected)
    && (i in a.selected && i in b.selected ==> a.selected[i] == b.selected[i])
    && (i in a.compressions <==> i in b.compressions)
    && (i in a.compressions && i in b.compressions ==> a.compressions[i] == b.compressions[i])
  }

  lemma ConsiderElsewhere(important: string -> bool, policy: Policy, budget: int, l: Ledger, i: nat, c: Candidate,
                          j: nat)
    requires i != j
    ensures SameAt(l, Consider(important, policy, budget, l, i, c), j)
  {
    hide EstimateTokens, Compressor.Compress;
  }

  /** What is decided about an item stays so to the end. */
  lemma {:induction false} LaterSame(important: string -> bool, policy: Policy, budget: int, cands: seq<Candidate>,
                                     order: seq<nat>, k: nat, n: nat)
    requires budget >= 0 && Usable(cands, order) && k < n <= |order|
    ensures SameAt(Fill(important, policy, budget, cands, order[..k + 1]),
                   Fill(important, policy, budget, cands, order[..n]), order[k])
    decreases n - k
  {
    hide Fill, Consider, SameAt;
    if k == n - 1 {
      SameSelf(Fill(important, policy, budget, cands, order[..n]), order[k]);
    } else {
      LaterSame(important, policy, budget, cands, order, k, n - 1);
      FillStep(important, policy, budget, cands, order, n - 1);
      assert order[k] != order[n - 1];
      var before := Fill(important, policy, budget, cands, order[..n - 1]);
      ConsiderElsewhere(important, policy, budget, before, order[n - 1], cands[order[n - 1]], order[k]);
      SameTrans(Fill(important, policy, budget, cands, order[..k + 1]), before,
                Fill(important, policy, budget, cands, order[..n]), order[k]);
    }
  }

  lemma SameSelf(a: Ledger, i: nat)
    ensures SameAt(a, a, i)
  {
  }

  lemma SameTrans(a: Ledger, b: Ledger, c: Ledger, i: nat)
    requires SameAt(a, b, i) && SameAt(b, c, i)
    ensures SameAt(a, c, i)
  {
  }

  lemma DecidedCarries(important: string -> bool, policy: Policy, room: int, c: Candidate, a: Ledger, b: Ledger, i: nat)
    requires Decided(important, policy, room, c, a, i) && SameAt(a, b, i)
    ensures Decided(important, policy, room, c, b, i)
    ensures (if i in a.selected then EstimateTokens(a.selected[i].content) else 0)
         == (if i in b.selected then EstimateTokens(b.selected[i].content) else 0)
  {
    hide EstimateTokens, Compressor.Compress;
  }

  /** For every item of an order: what becomes of it is decided by the room left by the
      selected items before it, and that room is what a compression of it gets. */
  lemma {:induction false} DecidedByRoom(important: string -> bool, policy: Policy, budget: int, cands: seq<Candidate>,
                                         order: seq<nat>, k: nat)
    requires budget >= 0 && Usable(cands, order) && k <= |order|
    ensures var l := Fill(important, policy, budget, cands, order);
      && RoomAt(important, policy, budget, cands, order, k) == budget - TokensOfSelected(l.selected, order, k)
      && (k < |order| ==>
            && order[k] < |cands|
            && Decided(important, policy, budget - TokensOfSelected(l.selected, order, k), cands[order[k]], l,
                       order[k]))
  {
    hide Fill, Consider, Decided, SameAt, EstimateTokens;
    var l := Fill(important, policy, budget, cands, order);
    assert order[..|order|] == order;
    if k == 0 {
      assert order[..0] == [];
      NothingUsed(important, policy, budget, cands);
    } else {
      DecidedByRoom(important, policy, budget, cands, order, k - 1);
      Step(important, policy, budget, cands, order, k - 1);
    }
    if k < |order| {
      Step(important, policy, budget, cands, order, k);
    }
  }

  lemma NothingUsed(important: string -> bool, policy: Policy, budget: int, cands: seq<Candidate>)
    ensures Fill(important, policy, budget, cands, []).used == 0
  {
  }

  lemma Step(important: string -> bool, policy: Policy, budget: int, cands: seq<Candidate>, order: seq<nat>, k: nat)
    requires budget >= 0 && Usable(cands, order) && k < |order|
    ensures order[k] < |cands|
    ensures var l := Fill(important, policy, budget, cands, order);
      var room := RoomAt(important, policy, budget, cands, order, k);
      && Decided(important, policy, room, cands[order[k]], l, order[k])
      && RoomAt(important, policy, budget, cands, order, k + 1)
         == room - (if order[k] in l.selected then EstimateTokens(l.selected[order[k]].content) else 0)
  {
    hide Fill, Consider, Decided, SameAt, EstimateTokens, Sound;
    assert order[..|order|] == order;
    FillStep(important, policy, budget, cands, order, k);
    Reach(important, policy, budget, cands, order, k);
    var before := Fill(important, policy, budget, cands, order[..k]);
    var after := Fill(important, policy, budget, cands, order[..k + 1]);
    UsablePrefix(cands, order, k);
    FillSound(important, policy, budget, cands, order[..k]);
    CompressedSelected(policy, budget, cands, before);
    DecidedAtOnce(important, policy, budget, before, order[k], cands[order[k]]);
    LaterSame(important, policy, budget, cands, order, k, |order|);
    DecidedCarries(important, policy, budget - before.used, cands[order[k]], after,
                   Fill(important, policy, budget, cands, order), order[k]);
  }

  lemma CompressedSelected(policy: Policy, budget: int, cands: seq<Candidate>, l: Ledger)
    requires Sound(policy, budget, cands, l)
    ensures l.compressions.Keys <= l.selected.Keys
  {
  }
}
