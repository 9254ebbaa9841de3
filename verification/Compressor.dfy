/** The deterministic extractive compressor: whole sentences, the important ones first,
    as long as they fit; the start of the first sentence when none does. */
module Compressor {
  import opened Basics
  import opened Context
  import opened Text

  datatype Compressed = Compressed(candidate: Candidate, tokenBefore: nat, tokenAfter: nat)

  function EstimateTokens(content: string): nat {
    if content == [] then 0 else Max(1, (|content| + 2) / 3)
  }

  /** The room for the output in characters; never less than 96. */
  function TargetChars(targetTokens: int): int {
    Max(96, targetTokens * 3)
  }

  function Important(important: string -> bool, ss: seq<string>): set<nat> {
    set i: nat | i < |ss| && important(ss[i])
  }

  function Plain(important: string -> bool, ss: seq<string>): set<nat> {
    set i: nat | i < |ss| && !important(ss[i])
  }

  /** The sentences sorted by (not important, position). */
  function Ranked(important: string -> bool, ss: seq<string>): seq<nat> {
    Ascending(|ss|, Important(important, ss)) + Ascending(|ss|, Plain(important, ss))
  }

  function LengthAt(ss: seq<string>, i: nat): nat {
    if i < |ss| then |ss[i]| else 0
  }

  /** What one more sentence takes up: its length, and a separator unless it is the first. */
  function Cost(ss: seq<string>, chosen: seq<nat>, i: nat): nat {
    LengthAt(ss, i) + (if chosen != [] then 1 else 0)
  }

  function Used(ss: seq<string>, chosen: seq<nat>): nat {
    if chosen == [] then 0
    else
      var before := chosen[..|chosen| - 1];
      Used(ss, before) + Cost(ss, before, chosen[|chosen| - 1])
  }

  predicate Fits(ss: seq<string>, room: int, chosen: seq<nat>, i: nat) {
    Used(ss, chosen) + Cost(ss, chosen, i) <= room
  }

  /** The sentences taken when they are offered in the given order. */
  function Pick(ss: seq<string>, room: int, order: seq<nat>): seq<nat> {
    if order == [] then []
    else
      var before := Pick(ss, room, order[..|order| - 1]);
      var i := order[|order| - 1];
      if Fits(ss, room, before, i) then before + [i] else before
  }

  function Texts(ss: seq<string>, indices: seq<nat>): seq<string> {
    if indices == [] then []
    else
      var i := indices[|indices| - 1];
      Texts(ss, indices[..|indices| - 1]) + [if i < |ss| then ss[i] else []]
  }

  /** The chosen sentences in document order, joined by single spaces. */
  function Render(ss: seq<string>, chosen: set<nat>): string {
    Join(" ", Texts(ss, Ascending(|ss|, chosen)))
  }

  function Output(important: string -> bool, ss: seq<string>, room: int): string
    requires room >= 0
  {
    var chosen := Pick(ss, room, Ranked(important, ss));
    if ss == [] then []
    else if chosen == [] then Strip(ss[0][..Min(room, |ss[0]|)]) else Render(ss, Elems(chosen))
  }

  function Level(before: nat, after: nat): CompressionLevel {
    if after >= Max(1, before / 2) then Extractive else Summarized
  }

  function Provenance(c: Candidate): seq<string> {
    if c.provenance != [] then c.provenance
    else (if c.sourceRefType.Some? then [c.sourceRefType.value] else [])
         + (if c.sourceRefId.Some? then [c.sourceRefId.value] else [])
  }

  function Replaced(c: Candidate, output: string, after: nat): Candidate {
    c.(content := output,
       level := Level(EstimateTokens(c.content), after),
       reason := "compressed_to_fit_budget",
       provenance := Provenance(c))
  }

  function Compress(important: string -> bool, c: Candidate, targetTokens: int): Option<Compressed> {
    var before := EstimateTokens(c.content);
    var ss := Sentences(c.content);
    if targetTokens <= 0 || before <= targetTokens || ss == [] then None
    else
      var output := Output(important, ss, TargetChars(targetTokens));
      var after := EstimateTokens(output);
      if output == [] || after >= before || after > targetTokens then None
      else Some(Compressed(Replaced(c, output, after), before, after))
  }

  method CompressCandidate(important: string -> bool, c: Candidate, targetTokens: int) returns (r: Option<Compressed>)
    ensures r == Compress(important, c, targetTokens)
  {
    hide Sentences, Ranked, Text.Strip, Fits, Used, Texts, Text.Join, Level, Provenance, Replaced;
    var before := EstimateTokens(c.content);
    if targetTokens <= 0 || before <= targetTokens {
      return None;
    }
    var room := TargetChars(targetTokens);
    var sentences := Sentences(c.content);
    if sentences == [] {
      return None;
    }
    var ranked := Ranked(important, sentences);
    var chosen: seq<nat> := [];
    var used := 0;
    UsedStart(sentences);
    for k := 0 to |ranked|
      invariant chosen == Pick(sentences, room, ranked[..k])
      invariant used == Used(sentences, chosen)
    {
      assert ranked[..k + 1][..k] == ranked[..k];
      FitsMeans(sentences, room, chosen, ranked[k]);
      var cost := LengthAt(sentences, ranked[k]) + (if chosen != [] then 1 else 0);
      if used + cost > room {
        continue;
      }
      chosen := chosen + [ranked[k]];
      used := used + cost;
    }
    assert ranked[..|ranked|] == ranked;
    var output: string;
    if chosen == [] {
      var first := Strip(sentences[0][..Min(room, |sentences[0]|)]);
      if first == [] {
        return None;
      }
      output := first;
    } else {
      output := Render(sentences, Elems(chosen));
    }
    var after := EstimateTokens(output);
    if output == [] || after >= before || after > targetTokens {
      return None;
    }
    r := Some(Compressed(Replaced(c, output, after), before, after));
  }

  lemma UsedStart(ss: seq<string>)
    ensures Used(ss, []) == 0
  {
  }

  lemma FitsMeans(ss: seq<string>, room: int, chosen: seq<nat>, i: nat)
    ensures Fits(ss, room, chosen, i) <==> Used(ss, chosen) + Cost(ss, chosen, i) <= room
    ensures Used(ss, chosen + [i]) == Used(ss, chosen) + Cost(ss, chosen, i)
  {
    assert (chosen + [i])[..|chosen|] == chosen;
  }

  // ----- The ranking is the sort -----

  /** Every sentence is ranked once, and ranks grow with (not important, position). */
  lemma RankedIsSorted(important: string -> bool, ss: seq<string>)
    ensures var r := Ranked(important, ss);
      && Distinct(r)
      && (forall i: nat :: i in r <==> i < |ss|)
      && (forall a, b :: 0 <= a < b < |r| && r[a] < |ss| && r[b] < |ss| ==>
            || (important(ss[r[a]]) && !important(ss[r[b]]))
            || (important(ss[r[a]]) == important(ss[r[b]]) && r[a] < r[b]))
  {
    var first, second := Ascending(|ss|, Important(important, ss)), Ascending(|ss|, Plain(important, ss));
    AscendingLists(|ss|, Important(important, ss));
    AscendingLists(|ss|, Plain(important, ss));
    forall k | 0 <= k < |first| ensures first[k] in Important(important, ss) {
      assert first[k] in first;
    }
    forall k | 0 <= k < |second| ensures second[k] in Plain(important, ss) {
      assert second[k] in second;
    }
    forall i: nat ensures i in first + second <==> i < |ss| {
      assert i in first + second <==> i in first || i in second;
    }
  }

  // ----- What is picked -----

  lemma {:induction false} PickWithin(ss: seq<string>, room: int, order: seq<nat>)
    ensures forall i :: i in Pick(ss, room, order) ==> i in order
    ensures Distinct(order) ==> Distinct(Pick(ss, room, order))
  {
    hide Fits;
    if order != [] {
      var rest, last := order[..|order| - 1], order[|order| - 1];
      PickWithin(ss, room, rest);
      assert order == rest + [last];
      if Distinct(order) {
        assert last !in rest;
        DistinctAppend(Pick(ss, room, rest), last);
      }
    }
  }

  lemma {:induction false} PickBounded(ss: seq<string>, room: int, order: seq<nat>)
    ensures Used(ss, Pick(ss, room, order)) <= Max(room, 0)
  {
    if order != [] {
      var rest := order[..|order| - 1];
      PickBounded(ss, room, rest);
      FitsMeans(ss, room, Pick(ss, room, rest), order[|order| - 1]);
    }
  }

  /** What later offers add never removes what earlier offers put in. */
  lemma {:induction false} PickExtends(ss: seq<string>, room: int, a: seq<nat>, b: seq<nat>)
    ensures Pick(ss, room, a) <= Pick(ss, room, a + b)
    ensures forall k :: |Pick(ss, room, a)| <= k < |Pick(ss, room, a + b)| ==> Pick(ss, room, a + b)[k] in b
    decreases |b|
  {
    hide Fits;
    if b == [] {
      assert a + b == a;
    } else {
      var rest := b[..|b| - 1];
      PickExtends(ss, room, a, rest);
      assert (a + b)[..|a + b| - 1] == a + rest;
      assert b == rest + [b[|b| - 1]];
    }
  }

  lemma {:induction false} UsedGrows(ss: seq<string>, a: seq<nat>, b: seq<nat>)
    requires a <= b
    ensures Used(ss, a) <= Used(ss, b)
    decreases |b|
  {
    if a != b {
      assert a <= b[..|b| - 1];
      UsedGrows(ss, a, b[..|b| - 1]);
    }
  }

  /** A sentence that was offered and not picked does not fit beside the final choice. */
  lemma {:induction false} SkippedDoesNotFit(ss: seq<string>, room: int, order: seq<nat>, i: nat)
    requires i in order && i !in Pick(ss, room, order)
    ensures !Fits(ss, room, Pick(ss, room, order), i)
  {
    var rest, last := order[..|order| - 1], order[|order| - 1];
    assert order == rest + [last];
    var before, after := Pick(ss, room, rest), Pick(ss, room, order);
    assert before <= after;
    if i in rest {
      SkippedDoesNotFit(ss, room, rest, i);
    }
    UsedGrows(ss, before, after);
  }

  /** Plain sentences never displace important ones: the important sentences picked are
      those a run over the important sentences alone picks, in the same order, and they
      come first. */
  lemma ImportantNeverDisplaced(important: string -> bool, ss: seq<string>, room: int)
    ensures var alone := Pick(ss, room, Ascending(|ss|, Important(important, ss)));
      var chosen := Pick(ss, room, Ranked(important, ss));
      && alone <= chosen
      && forall k :: 0 <= k < |chosen| ==> (chosen[k] in Important(important, ss) <==> k < |alone|)
  {
    hide Pick;
    var first, second := Ascending(|ss|, Important(important, ss)), Ascending(|ss|, Plain(important, ss));
    AscendingLists(|ss|, Important(important, ss));
    AscendingLists(|ss|, Plain(important, ss));
    var alone, chosen := Pick(ss, room, first), Pick(ss, room, first + second);
    PickExtends(ss, room, first, second);
    PickWithin(ss, room, first);
    forall k | 0 <= k < |chosen| ensures chosen[k] in Important(important, ss) <==> k < |alone| {
      if k < |alone| {
        assert chosen[k] == alone[k] && alone[k] in alone;
      } else {
        assert chosen[k] in second;
      }
    }
  }

  /** The listing of a set around one of its members. */
  lemma {:induction false} AscendingAround(n: nat, s: set<nat>, i: nat) returns (after: seq<nat>)
    requires i in s && i < n
    ensures Ascending(n, s) == Ascending(i, s) + [i] + after
    ensures i !in after
  {
    if i == n - 1 {
      after := [];
    } else {
      after := AscendingAround(n - 1, s, i);
      if n - 1 in s {
        after := after + [n - 1];
      }
    }
  }

  /** Exactly when a sentence offered between others is picked. */
  lemma PickedExactly(ss: seq<string>, room: int, before: seq<nat>, i: nat, after: seq<nat>)
    requires i !in before && i !in after
    ensures i in Pick(ss, room, before + [i] + after) <==> Fits(ss, room, Pick(ss, room, before), i)
  {
    hide Pick, Fits;
    PickSnoc(ss, room, before, i);
    PickWithin(ss, room, before);
    var a, b := Pick(ss, room, before + [i]), Pick(ss, room, before + [i] + after);
    PickExtends(ss, room, before + [i], after);
    if i in a {
      var k :| 0 <= k < |a| && a[k] == i;
      assert b[k] == i;
    }
  }

  /** An important sentence is picked exactly when it fits beside the important sentences
      picked before it; plain sentences have no say. */
  lemma ImportantLostOnlyForRoom(important: string -> bool, ss: seq<string>, room: int, i: nat)
    requires i < |ss| && important(ss[i])
    ensures i in Pick(ss, room, Ranked(important, ss))
       <==> Fits(ss, room, Pick(ss, room, Ascending(i, Important(important, ss))), i)
    ensures i !in Pick(ss, room, Ranked(important, ss))
       <==> i !in Pick(ss, room, Ascending(|ss|, Important(important, ss)))
    ensures i !in Pick(ss, room, Ranked(important, ss))
        ==> !Fits(ss, room, Pick(ss, room, Ascending(|ss|, Important(important, ss))), i)
  {
    hide Pick, Fits;
    var first := Ascending(|ss|, Important(important, ss));
    AscendingLists(|ss|, Important(important, ss));
    AscendingLists(i, Important(important, ss));
    var after := AscendingAround(|ss|, Important(important, ss), i);
    PickedExactly(ss, room, Ascending(i, Important(important, ss)), i, after);
    ImportantNeverDisplaced(important, ss, room);
    var alone, chosen := Pick(ss, room, first), Pick(ss, room, Ranked(important, ss));
    if i in alone {
      var k :| 0 <= k < |alone| && alone[k] == i;
      assert chosen[k] == i;
    } else {
      SkippedDoesNotFit(ss, room, first, i);
      forall k | 0 <= k < |chosen| ensures chosen[k] != i {
        assert k < |alone| ==> chosen[k] == alone[k] && alone[k] in alone;
        assert i in Important(important, ss);
      }
    }
  }

  lemma PickSnoc(ss: seq<string>, room: int, order: seq<nat>, i: nat)
    ensures Pick(ss, room, order + [i])
         == if Fits(ss, room, Pick(ss, room, order), i) then Pick(ss, room, order) + [i] else Pick(ss, room, order)
  {
    assert (order + [i])[..|order|] == order;
  }

  /** When everything offered fits together, everything is picked. */
  lemma {:induction false} PickAll(ss: seq<string>, room: int, order: seq<nat>)
    requires Used(ss, order) <= room
    ensures Pick(ss, room, order) == order
  {
    if order != [] {
      var rest, last := order[..|order| - 1], order[|order| - 1];
      assert order == rest + [last];
      UsedGrows(ss, rest, order);
      PickAll(ss, room, rest);
    }
  }

  // ----- The size of the output -----

  function LengthSum(ss: seq<string>, n: nat, s: set<nat>): nat {
    if n == 0 then 0 else LengthSum(ss, n - 1, s) + (if n - 1 in s then LengthAt(ss, n - 1) else 0)
  }

  lemma {:induction false} LengthSumInsert(ss: seq<string>, n: nat, s: set<nat>, x: nat)
    requires x !in s
    ensures LengthSum(ss, n, s + {x}) == LengthSum(ss, n, s) + (if x < n then LengthAt(ss, x) else 0)
  {
    if n > 0 {
      LengthSumInsert(ss, n - 1, s, x);
    }
  }

  lemma TextsSnoc(ss: seq<string>, indices: seq<nat>, i: nat)
    ensures Texts(ss, indices + [i]) == Texts(ss, indices) + [if i < |ss| then ss[i] else []]
  {
    assert (indices + [i])[..|indices|] == indices;
  }

  lemma TotalLengthSnoc(parts: seq<string>, p: string)
    ensures TotalLength(parts + [p]) == TotalLength(parts) + |p|
  {
    assert (parts + [p])[..|parts|] == parts;
  }

  lemma {:induction false} TextsLength(ss: seq<string>, n: nat, s: set<nat>)
    ensures TotalLength(Texts(ss, Ascending(n, s))) == LengthSum(ss, n, s)
    ensures |Texts(ss, Ascending(n, s))| == |Ascending(n, s)|
  {
    hide TotalLength, Texts;
    if n == 0 {
      NoTexts(ss);
    } else {
      TextsLength(ss, n - 1, s);
      if n - 1 in s {
        var below := Ascending(n - 1, s);
        TextsSnoc(ss, below, n - 1);
        TotalLengthSnoc(Texts(ss, below), if n - 1 < |ss| then ss[n - 1] else []);
      }
    }
  }

  lemma NoTexts(ss: seq<string>)
    ensures Texts(ss, []) == [] && TotalLength([]) == 0
  {
  }

  /** What the loop counts as used is, for distinct sentences in any order, their lengths
      and one separator fewer than there are sentences. */
  lemma {:induction false} UsedIsLength(ss: seq<string>, chosen: seq<nat>)
    requires Distinct(chosen) && forall i :: i in chosen ==> i < |ss|
    ensures Used(ss, chosen) == LengthSum(ss, |ss|, Elems(chosen)) + (if chosen == [] then 0 else |chosen| - 1)
  {
    hide LengthSum;
    if chosen == [] {
      LengthSumEmpty(ss, |ss|);
      assert Elems(chosen) == {};
    } else {
      var rest, last := chosen[..|chosen| - 1], chosen[|chosen| - 1];
      assert chosen == rest + [last];
      forall i | i in rest ensures i in chosen {
      }
      UsedIsLength(ss, rest);
      ElemsAppend(rest, last);
      LengthSumInsert(ss, |ss|, Elems(rest), last);
    }
  }

  lemma {:induction false} LengthSumEmpty(ss: seq<string>, n: nat)
    ensures LengthSum(ss, n, {}) == 0
  {
    if n > 0 {
      LengthSumEmpty(ss, n - 1);
    }
  }

  /** The loop's running count is the length of the text it stands for. */
  lemma UsedIsOutputLength(important: string -> bool, ss: seq<string>, room: int)
    requires room >= 0
    ensures var chosen: seq<nat> := Pick(ss, room, Ranked(important, ss));
      |Render(ss, Elems(chosen))| == Used(ss, chosen) <= room
  {
    hide Pick, Ranked;
    var order := Ranked(important, ss);
    var chosen: seq<nat> := Pick(ss, room, order);
    RankedIsSorted(important, ss);
    PickWithin(ss, room, order);
    PickBounded(ss, room, order);
    forall i | i in chosen ensures i < |ss| {
      assert i in order;
    }
    UsedIsLength(ss, chosen);
    DistinctSize(chosen);
    AscendingLength(|ss|, Elems(chosen));
    TextsLength(ss, |ss|, Elems(chosen));
    var parts := Texts(ss, Ascending(|ss|, Elems(chosen)));
    JoinLength(" ", parts);
    assert |parts| == |chosen|;
  }

  /** The length of the given sentences joined by single spaces. */
  function JoinedSize(ss: seq<string>, s: set<nat>): nat {
    LengthSum(ss, |ss|, s) + (if s == {} then 0 else |s| - 1)
  }

  lemma UsedIsJoinedSize(ss: seq<string>, chosen: seq<nat>)
    requires Distinct(chosen) && forall i :: i in chosen ==> i < |ss|
    ensures Used(ss, chosen) == JoinedSize(ss, Elems(chosen))
  {
    hide LengthSum;
    UsedIsLength(ss, chosen);
    DistinctSize(chosen);
    assert chosen != [] ==> chosen[0] in Elems(chosen);
  }

  /** No important sentence is lost exactly when all of them together fit. */
  lemma ImportantSurviveExactly(important: string -> bool, ss: seq<string>, room: nat)
    ensures Important(important, ss) <= Elems(Pick(ss, room, Ranked(important, ss)))
       <==> JoinedSize(ss, Important(important, ss)) <= room
  {
    hide Pick, JoinedSize, Ranked, Fits;
    var keys := Important(important, ss);
    var first := Ascending(|ss|, keys);
    var alone: seq<nat>, chosen: seq<nat> := Pick(ss, room, first), Pick(ss, room, Ranked(important, ss));
    AscendingLists(|ss|, keys);
    PickWithin(ss, room, first);
    assert Elems(first) == keys;
    UsedIsJoinedSize(ss, first);
    if JoinedSize(ss, keys) <= room {
      PickAll(ss, room, first);
    }
    forall i | i in keys ensures i in chosen <==> i in alone {
      ImportantLostOnlyForRoom(important, ss, room, i);
    }
    if keys <= Elems(chosen) {
      assert Elems(alone) == keys;
      UsedIsJoinedSize(ss, alone);
      PickBounded(ss, room, first);
    }
  }

  /** The output is never empty and never longer than the room. */
  lemma OutputFits(important: string -> bool, ss: seq<string>, room: int)
    requires ss != [] && AllStripped(ss) && room > 0
    ensures 0 < |Output(important, ss, room)| <= room
  {
    hide Pick, Ranked, Render, Text.Strip, IsSpace, LengthSum;
    var chosen := Pick(ss, room, Ranked(important, ss));
    if chosen == [] {
      PrefixNotBlank(ss[0], Min(room, |ss[0]|));
      StripExact(ss[0][..Min(room, |ss[0]|)]);
    } else {
      UsedIsOutputLength(important, ss, room);
      RankedIsSorted(important, ss);
      PickWithin(ss, room, Ranked(important, ss));
      assert chosen[0] in chosen;
      UsedGrows(ss, chosen[..1], chosen);
      assert chosen[..1][..0] == [];
      assert Used(ss, chosen[..1]) == |ss[chosen[0]]|;
    }
  }

  // ----- The contract of compression -----

  /** A result is smaller than the input and within the target; it keeps everything but
      content, level, reason and provenance. */
  lemma CompressedIsSmaller(important: string -> bool, c: Candidate, targetTokens: int)
    requires Compress(important, c, targetTokens).Some?
    ensures var r := Compress(important, c, targetTokens).value;
      && r.tokenBefore == EstimateTokens(c.content) > r.tokenAfter
      && 0 < r.tokenAfter == EstimateTokens(r.candidate.content) <= targetTokens
      && r.candidate.(content := c.content, level := c.level, reason := c.reason, provenance := c.provenance) == c
      && r.candidate.content == Output(important, Sentences(c.content), TargetChars(targetTokens))
  {
    hide Sentences, Output, Provenance;
  }

  /** A result can always be traced back: it keeps the provenance of the input, or names
      the input's source when there was none. */
  lemma ProvenanceKept(important: string -> bool, c: Candidate, targetTokens: int)
    requires Compress(important, c, targetTokens).Some?
    ensures var p := Compress(important, c, targetTokens).value.candidate.provenance;
      && (c.provenance != [] ==> p == c.provenance)
      && (c.provenance == [] ==>
            && (forall ref :: ref in p <==> c.sourceRefType == Some(ref) || c.sourceRefId == Some(ref))
            && (c.sourceRefType.Some? && c.sourceRefId.Some? ==> p == [c.sourceRefType.value, c.sourceRefId.value])
            && |p| <= 2)
  {
    hide Sentences, Output, EstimateTokens;
  }

  /** A result counts as an extract exactly when it has at least half the tokens of the
      input, rounded down, and as a summary otherwise. */
  lemma LevelTellsHalf(important: string -> bool, c: Candidate, targetTokens: int)
    requires Compress(important, c, targetTokens).Some?
    ensures var z := Compress(important, c, targetTokens).value;
      && (z.candidate.level == Extractive <==> 2 * z.tokenAfter + 1 >= z.tokenBefore)
      && (z.candidate.level == Summarized <==> 2 * z.tokenAfter + 1 < z.tokenBefore)
  {
    hide Sentences, Output, Provenance, EstimateTokens;
    CompressedIsSmaller(important, c, targetTokens);
  }

  /** The output is made of whole sentences in document order, or is the stripped start
      of the first sentence when no sentence fits. */
  lemma OutputIsExtract(important: string -> bool, ss: seq<string>, room: int)
    requires ss != [] && room >= 0
    ensures var out := Output(important, ss, room);
      || (exists kept: seq<nat> :: kept != [] && Increasing(kept) && (forall i :: i in kept ==> i < |ss|)
            && out == Join(" ", Texts(ss, kept)))
      || ((forall i: nat :: i < |ss| ==> |ss[i]| > room) && out == Strip(ss[0][..room]))
  {
    hide Ranked, Text.Strip, Text.Join, Texts, Pick;
    var order := Ranked(important, ss);
    var chosen := Pick(ss, room, order);
    RankedIsSorted(important, ss);
    PickWithin(ss, room, order);
    if chosen != [] {
      var kept := Ascending(|ss|, Elems(chosen));
      AscendingLists(|ss|, Elems(chosen));
      assert chosen[0] in kept;
      assert Output(important, ss, room) == Join(" ", Texts(ss, kept));
    } else {
      forall i: nat | i < |ss| ensures |ss[i]| > room {
        SkippedDoesNotFit(ss, room, order, i);
        UsedStart(ss);
      }
    }
  }

  /** Exactly when an input is compressed. From 32 target tokens on the last demand always
      holds; below, it can fail whatever the target is (FloorMattersExactly). */
  lemma CompressesExactly(important: string -> bool, c: Candidate, targetTokens: int)
    ensures Compress(important, c, targetTokens).Some? <==>
      && 0 < targetTokens < EstimateTokens(c.content)
      && !Blank(c.content)
      && |Output(important, Sentences(c.content), TargetChars(targetTokens))| <= targetTokens * 3
    ensures targetTokens >= 32 ==>
      (Compress(important, c, targetTokens).Some? <==> targetTokens < EstimateTokens(c.content) && !Blank(c.content))
  {
    hide Sentences, Output, Blank, Replaced;
    SentencesLoseOnlySpace(c.content);
    var ss := Sentences(c.content);
    if ss != [] {
      OutputFits(important, ss, TargetChars(targetTokens));
    }
  }

  lemma AllPicked(important: string -> bool, ss: seq<string>, room: nat)
    requires JoinedSize(ss, Upto(|ss|)) <= room
    ensures Elems(Pick(ss, room, Ranked(important, ss))) == Upto(|ss|)
  {
    hide Pick, Ranked, JoinedSize;
    var order := Ranked(important, ss);
    RankedIsSorted(important, ss);
    assert Elems(order) == Upto(|ss|);
    UsedIsJoinedSize(ss, order);
    PickAll(ss, room, order);
  }

  /** When everything fits, the output is as long as everything. */
  lemma AllOutput(important: string -> bool, ss: seq<string>, room: nat)
    requires ss != [] && JoinedSize(ss, Upto(|ss|)) <= room
    ensures |Output(important, ss, room)| == JoinedSize(ss, Upto(|ss|))
  {
    hide Pick, Ranked, Render, JoinedSize, Text.Strip;
    AllPicked(important, ss, room);
    RankedIsSorted(important, ss);
    var chosen: seq<nat> := Pick(ss, room, Ranked(important, ss));
    PickWithin(ss, room, Ranked(important, ss));
    assert 0 in Upto(|ss|);
    assert chosen != [];
    UsedIsJoinedSize(ss, chosen);
    UsedIsOutputLength(important, ss, room);
  }

  /** When all sentences fit into the room, only their joined length decides. */
  lemma CompressesWhenAllFits(important: string -> bool, c: Candidate, targetTokens: int)
    requires JoinedSize(Sentences(c.content), Upto(|Sentences(c.content)|)) <= TargetChars(targetTokens)
    ensures Compress(important, c, targetTokens).Some? <==>
      && 0 < targetTokens < EstimateTokens(c.content)
      && !Blank(c.content)
      && JoinedSize(Sentences(c.content), Upto(|Sentences(c.content)|)) <= targetTokens * 3
  {
    hide Sentences, Output, Blank, JoinedSize, EstimateTokens, Compress;
    CompressesExactly(important, c, targetTokens);
    SentencesLoseOnlySpace(c.content);
    if !Blank(c.content) {
      AllOutput(important, Sentences(c.content), TargetChars(targetTokens));
    }
  }

  /** Below 32 tokens the floor of 96 characters lets the choice overshoot the target, so
      nothing is returned although a single sentence would have been short enough. */
  lemma FloorCanOvershoot(important: string -> bool, c: Candidate)
    requires c.content == seq(94, _ => 'a') + "\n" + "b"
    ensures Compress(important, c, 31) == None && 31 < EstimateTokens(c.content)
    ensures exists s :: s in Sentences(c.content) && 0 < EstimateTokens(s) <= 31
  {
    hide Sentences, Output, JoinedSize;
    var x := seq(94, _ => 'a');
    TwoSentences(x, "b");
    PairSize(x, "b");
    AllOutput(important, [x, "b"], 96);
    assert "b" in Sentences(c.content) && EstimateTokens("b") == 1;
  }

  lemma PairSize(x: string, y: string)
    ensures JoinedSize([x, y], Upto(2)) == |x| + 1 + |y|
  {
    assert LengthSum([x, y], 0, Upto(2)) == 0;
    assert LengthSum([x, y], 1, Upto(2)) == |x|;
    assert LengthSum([x, y], 2, Upto(2)) == |x| + |y|;
  }

  lemma SingleSize(x: string)
    ensures JoinedSize([x], Upto(1)) == |x|
  {
    assert LengthSum([x], 0, Upto(1)) == 0;
    assert LengthSum([x], 1, Upto(1)) == |x|;
  }

  /** The floor matters exactly below 32 target tokens: from there on every oversized,
      non-blank input is compressed, and for every smaller target some such input is not. */
  lemma FloorMattersExactly(important: string -> bool, targetTokens: int)
    requires targetTokens > 0
    ensures targetTokens >= 32 <==>
      forall c: Candidate :: targetTokens < EstimateTokens(c.content) && !Blank(c.content)
                             ==> Compress(important, c, targetTokens).Some?
  {
    hide Compress, Blank, EstimateTokens;
    if targetTokens >= 32 {
      forall c: Candidate | targetTokens < EstimateTokens(c.content) && !Blank(c.content)
        ensures Compress(important, c, targetTokens).Some?
      {
        CompressesExactly(important, c, targetTokens);
      }
    } else {
      var c := Candidate(SourceChunk, seq(96, _ => 'a'), 0.0, None, None, false, Raw, "", []);
      TooLongForTarget(important, c, targetTokens);
    }
  }

  lemma TooLongForTarget(important: string -> bool, c: Candidate, targetTokens: int)
    requires 0 < targetTokens < 32 && c.content == seq(96, _ => 'a')
    ensures targetTokens < EstimateTokens(c.content) && !Blank(c.content) &&
        Compress(important, c, targetTokens) == None
  {
    hide Sentences, Output, JoinedSize, Blank;
    OneSentence(c.content);
    SingleSize(c.content);
    AllOutput(important, [c.content], 96);
    SentencesLoseOnlySpace(c.content);
  }

  /** A single word that is too long for the target is cut off at three characters a token. */
  lemma LongWordIsCut(important: string -> bool, c: Candidate, targetTokens: int)
    requires Unbroken(c.content) && targetTokens >= 32 && |c.content| > 3 * targetTokens
    ensures Compress(important, c, targetTokens).Some?
    ensures Compress(important, c, targetTokens).value.candidate.content == c.content[..3 * targetTokens]
  {
    hide Sentences, Output, Provenance, Text.Strip, IsSpace, EndsSentence;
    OneSentence(c.content);
    NoneFits(important, c.content, 3 * targetTokens);
    StripUnbroken(c.content[..3 * targetTokens]);
  }

  lemma NoneFits(important: string -> bool, x: string, room: nat)
    requires |x| > room
    ensures Output(important, [x], room) == Strip(x[..room])
  {
    hide Ranked, Pick, Fits, Used, Text.Strip, Render;
    var order := Ranked(important, [x]);
    RankedIsSorted(important, [x]);
    PickWithin([x], room, order);
    var chosen := Pick([x], room, order);
    if chosen != [] {
      assert chosen[0] in chosen && chosen[0] in order;
      PickBounded([x], room, order);
      UsedFirst([x], chosen);
    }
  }

  lemma UsedFirst(ss: seq<string>, chosen: seq<nat>)
    requires chosen != []
    ensures Used(ss, chosen) >= LengthAt(ss, chosen[0])
  {
    UsedGrows(ss, chosen[..1], chosen);
    assert chosen[..1][..0] == [];
    assert Used(ss, chosen[..1]) == LengthAt(ss, chosen[0]);
  }

  // ----- Whether key figures survive -----

  /** The sentences that a compression keeps. */
  function KeptSentences(important: string -> bool, content: string, targetTokens: int): set<nat> {
    var ss := Sentences(content);
    Elems(Pick(ss, TargetChars(targetTokens), Ranked(important, ss)))
  }

  /** A result is made of the kept sentences, if there are any, and they include every
      important one exactly when the important ones together fit into the room. */
  lemma KeyFiguresSurviveExactly(important: string -> bool, c: Candidate, targetTokens: int)
    requires Compress(important, c, targetTokens).Some?
    ensures var ss, kept := Sentences(c.content), KeptSentences(important, c.content, targetTokens);
      && (kept != {} ==> Compress(important, c, targetTokens).value.candidate.content == Render(ss, kept))
      && (Important(important, ss) <= kept <==> JoinedSize(ss, Important(important, ss)) <= Max(96, 3 * targetTokens))
  {
    hide Sentences, Pick, Ranked, JoinedSize, Render, Text.Strip, Important;
    CompressedIsSmaller(important, c, targetTokens);
    ImportantSurviveExactly(important, Sentences(c.content), TargetChars(targetTokens));
  }

  predicate HasDigit(s: string) {
    exists k :: 0 <= k < |s| && '0' <= s[k] <= '9'
  }

  /** The promise that key figures survive compression fails: a line of 97 digits gives way
      to the plain line after it. */
  lemma ImportantSentenceCanBeLost(c: Candidate)
    requires c.content == seq(97, _ => '1') + "\n" + "a"
    ensures Sentences(c.content) == [seq(97, _ => '1'), "a"]
    ensures HasDigit(seq(97, _ => '1')) && !HasDigit("a")
    ensures Compress(HasDigit, c, 32).Some? && Compress(HasDigit, c, 32).value.candidate.content == "a"
  {
    hide Sentences, Output, Provenance;
    var x := seq(97, _ => '1');
    assert x[0] == '1';
    TwoSentences(x, "a");
    OnlySecondFits(HasDigit, x, "a", 96);
  }

  lemma OnlySecondFits(important: string -> bool, x: string, y: string, room: nat)
    requires |y| <= room < |x|
    ensures Output(important, [x, y], room) == y
  {
    hide Ranked, Pick, Text.Strip, Render;
    RankedPair(important, [x, y]);
    PickSecond([x, y], room);
    assert Elems([1]) == {1};
    RenderSecond(x, y);
  }

  lemma RenderSecond(x: string, y: string)
    ensures Render([x, y], {1}) == y
  {
    hide Ascending, Texts, Text.Join;
    SecondListed();
    NoTexts([x, y]);
    TextsSnoc([x, y], [], 1);
    assert [] + [1] == [1] && [] + [y] == [y];
    JoinOne(y);
  }

  lemma SecondListed()
    ensures Ascending(2, {1}) == [1]
  {
    assert Ascending(0, {1}) == [];
    assert Ascending(1, {1}) == [];
  }

  lemma JoinOne(y: string)
    ensures Join(" ", [y]) == y
  {
  }

  lemma PickSecond(ss: seq<string>, room: nat)
    requires |ss| == 2 && |ss[1]| <= room < |ss[0]|
    ensures Pick(ss, room, [0, 1]) == [1] && Pick(ss, room, [1, 0]) == [1]
  {
    hide Pick, Fits, Used;
    PickPair(ss, room);
    UsedStart(ss);
    FitsMeans(ss, room, [], 0);
    FitsMeans(ss, room, [], 1);
    FitsMeans(ss, room, [1], 0);
  }

  lemma RankedPair(important: string -> bool, ss: seq<string>)
    requires |ss| == 2
    ensures Ranked(important, ss) == [0, 1] || Ranked(important, ss) == [1, 0]
  {
    hide Distinct;
    RankedIsSorted(important, ss);
    var r := Ranked(important, ss);
    DistinctSize(r);
    assert Elems(r) == Upto(2);
    assert |r| == 2;
    assert r[0] in r && r[1] in r;
  }

  lemma PickPair(ss: seq<string>, room: int)
    ensures Pick(ss, room, [0, 1])
         == (if Fits(ss, room, [], 0) then [0] else [])
              + (if Fits(ss, room, if Fits(ss, room, [], 0) then [0] else [], 1) then [1] else [])
    ensures Pick(ss, room, [1, 0])
         == (if Fits(ss, room, [], 1) then [1] else [])
              + (if Fits(ss, room, if Fits(ss, room, [], 1) then [1] else [], 0) then [0] else [])
  {
    hide Fits;
    PickSnoc(ss, room, [], 0);
    PickSnoc(ss, room, [0], 1);
    PickSnoc(ss, room, [], 1);
    PickSnoc(ss, room, [1], 0);
    assert [] + [0] == [0] && [0] + [1] == [0, 1] && [1] + [0] == [1, 0];
  }

  /** When every sentence is kept, only white space is lost. */
  lemma KeepingAllLosesOnlySpace(content: string)
    ensures var ss := Sentences(content); Solid(Render(ss, Upto(|ss|))) == Solid(content)
  {
    hide Sentences, Solid, Text.Join;
    var ss := Sentences(content);
    SentencesLoseOnlySpace(content);
    TextsOfAll(ss, |ss|, Upto(|ss|));
    assert ss[..|ss|] == ss;
    BlankSpace();
    JoinSolid(" ", ss);
  }

  lemma BlankSpace()
    ensures Blank(" ")
  {
    assert " "[1..] == [];
  }

  lemma {:induction false} TextsOfAll(ss: seq<string>, n: nat, all: set<nat>)
    requires n <= |ss| && forall i: nat :: i < n ==> i in all
    ensures Texts(ss, Ascending(n, all)) == ss[..n]
  {
    hide Texts;
    if n == 0 {
      NoTexts(ss);
    } else {
      TextsOfAll(ss, n - 1, all);
      TextsSnoc(ss, Ascending(n - 1, all), n - 1);
      assert ss[..n] == ss[..n - 1] + [ss[n - 1]];
    }
  }
}
