/** Windows and blocks of a source text that keep their offsets, ranked against the
    research objectives. `terms` is the term extractor, `matches` are the matches of the
    block-boundary expression in the text. */
module SourceSelector {
  import opened Basics
  import opened Greedy
  import Text

  datatype Span = Span(start: nat, end: nat)

  datatype SourceWindow = SourceWindow(start: nat, end: nat, content: string, score: real,
                                       heading: Option<string>, charStart: int, charEnd: int)

  datatype SelectorError = PositiveSizesRequired

  function Slice(text: string, s: Span): string {
    if s.start <= s.end <= |text| then text[s.start..s.end] else []
  }

  function Slices(text: string, spans: seq<Span>): seq<string> {
    seq(|spans|, i requires 0 <= i < |spans| => Slice(text, spans[i]))
  }

  function Concat(parts: seq<string>): string {
    if parts == [] then [] else parts[0] + Concat(parts[1..])
  }

  // ----- Cutting a text into windows -----

  predicate BreakAt(text: string, p: int) {
    0 <= p <= |text| - 2 && text[p] == '\n' && text[p + 1] == '\n'
  }

  /** text.rfind("\n\n", lo, hi) */
  function LastBreak(text: string, lo: nat, hi: nat): int {
    if hi < lo + 2 then -1
    else if BreakAt(text, hi - 2) then hi - 2
    else LastBreak(text, lo, hi - 1)
  }

  /** The last paragraph break that lies inside [lo, hi), or -1 when there is none. */
  lemma {:induction false} LastBreakIsLast(text: string, lo: nat, hi: nat)
    requires hi <= |text|
    ensures var r := LastBreak(text, lo, hi); r == -1 || (lo <= r <= hi - 2 && BreakAt(text, r))
    ensures forall p :: BreakAt(text, p) && lo <= p <= hi - 2 ==> p <= LastBreak(text, lo, hi)
  {
    if hi >= lo + 2 && !BreakAt(text, hi - 2) {
      LastBreakIsLast(text, lo, hi - 1);
    }
  }

  /** Where the window that begins at `start` ends: after `size` characters, or just past
      the last paragraph break in its second half when text remains. */
  function WindowEnd(text: string, size: nat, start: nat): nat
    requires start < |text|
  {
    var end := Min(|text|, start + size);
    var boundary := LastBreak(text, start + size / 2, end);
    if boundary > start && end < |text| then boundary + 2 else end
  }

  lemma WindowBounds(text: string, size: nat, start: nat)
    requires start < |text| && size > 0
    ensures var end := WindowEnd(text, size, start);
      && start < end <= |text| && end - start <= size
      && (end < |text| ==> 2 * (end - start) > size)
  {
    LastBreakIsLast(text, start + size / 2, Min(|text|, start + size));
  }

  /** Before the end of the text, a window is cut short exactly to end with the last
      paragraph break of its second half, and has the full size when there is none; the
      rest of the text is one window once it is no longer than the size. */
  ghost predicate EndsAtBreak(text: string, size: nat, w: Span) {
    && (w.start + size >= |text| ==> w.end == |text|)
    && (w.start + size < |text| ==>
          && w.start < w.end <= w.start + size
          && (forall p: nat :: w.start + size / 2 <= p <= w.start + size - 2 && text[p] == text[p + 1] == '\n' ==>
                p + 2 <= w.end)
          && (w.end < w.start + size ==>
                w.start + size / 2 <= w.end - 2 && text[w.end - 2] == text[w.end - 1] == '\n'))
  }

  lemma WindowEndsAtBreak(text: string, size: nat, start: nat)
    requires start < |text| && size > 0
    ensures EndsAtBreak(text, size, Span(start, WindowEnd(text, size, start)))
  {
    WindowBounds(text, size, start);
    LastBreakIsLast(text, start + size / 2, Min(|text|, start + size));
    forall p: nat | start + size < |text| && start + size / 2 <= p <= start + size - 2 && text[p] == text[p + 1] == '\n'
      ensures BreakAt(text, p)
    {
    }
  }

  /** Every window of a text ends where it should. */
  lemma {:induction false} WindowsEndAtBreaks(text: string, size: nat, start: nat)
    requires size > 0 && start <= |text|
    ensures forall k :: 0 <= k < |Windows(text, size, start)| ==> EndsAtBreak(text, size, Windows(text, size, start)[k])
    decreases |text| - start
  {
    hide WindowEnd, EndsAtBreak;
    if start < |text| {
      WindowBounds(text, size, start);
      WindowEndsAtBreak(text, size, start);
      WindowsEndAtBreaks(text, size, WindowEnd(text, size, start));
    }
  }

  /** The windows of the text from `start` on. */
  function Windows(text: string, size: nat, start: nat): seq<Span>
    requires size > 0 && start <= |text|
    decreases |text| - start
  {
    if start == |text| then []
    else
      var end := WindowEnd(text, size, start);
      WindowBounds(text, size, start);
      [Span(start, end)] + Windows(text, size, end)
  }

  method CutWindows(text: string, size: nat) returns (spans: seq<Span>)
    requires size > 0
    ensures spans == Windows(text, size, 0)
  {
    hide LastBreak;
    spans := [];
    var start := 0;
    while start < |text|
      invariant start <= |text|
      invariant spans + Windows(text, size, start) == Windows(text, size, 0)
      decreases |text| - start
    {
      WindowBounds(text, size, start);
      ghost var before := spans;
      var end := Min(|text|, start + size);
      var boundary := LastBreak(text, start + size / 2, end);
      if boundary > start && end < |text| {
        end := boundary + 2;
      }
      spans := spans + [Span(start, end)];
      assert before + ([Span(start, end)] + Windows(text, size, end)) == spans + Windows(text, size, end);
      start := end;
    }
  }

  /** Spans that follow each other without a gap from `start` to `end`. */
  ghost predicate Contiguous(spans: seq<Span>, start: nat, end: nat) {
    if spans == [] then start == end
    else spans[0].start == start <= spans[0].end && Contiguous(spans[1..], spans[0].end, end)
  }

  /** The windows follow each other without a gap and together are the text. */
  lemma {:induction false} WindowsTile(text: string, size: nat, start: nat)
    requires size > 0 && start <= |text|
    ensures Contiguous(Windows(text, size, start), start, |text|)
    ensures Concat(Slices(text, Windows(text, size, start))) == text[start..]
    decreases |text| - start
  {
    hide WindowEnd;
    if start < |text| {
      WindowBounds(text, size, start);
      var end := WindowEnd(text, size, start);
      WindowsTile(text, size, end);
      var rest, spans := Windows(text, size, end), Windows(text, size, start);
      assert spans[1..] == rest;
      assert Slices(text, spans)[1..] == Slices(text, rest);
      assert text[start..] == text[start..end] + text[end..];
    }
  }

  /** Slices without a gap between them, put together again. */
  lemma {:induction false} ContiguousRebuilds(text: string, spans: seq<Span>, start: nat, end: nat)
    requires Contiguous(spans, start, end) && end <= |text|
    ensures start <= end && Concat(Slices(text, spans)) == text[start..end]
  {
    if spans != [] {
      var next := spans[0].end;
      ContiguousRebuilds(text, spans[1..], next, end);
      assert Slices(text, spans)[1..] == Slices(text, spans[1..]);
      assert text[start..end] == text[start..next] + text[next..end];
    }
  }

  /** No window is empty or longer than the size, and all but the last are longer than
      half of it. */
  ghost predicate Sized(spans: seq<Span>, size: nat) {
    && (forall k :: 0 <= k < |spans| ==> 0 < spans[k].end - spans[k].start <= size)
    && (forall k :: 0 <= k < |spans| - 1 ==> 2 * (spans[k].end - spans[k].start) > size)
  }

  lemma {:induction false} WindowSizes(text: string, size: nat, start: nat)
    requires size > 0 && start <= |text|
    ensures Sized(Windows(text, size, start), size)
    decreases |text| - start
  {
    hide WindowEnd;
    if start < |text| {
      WindowBounds(text, size, start);
      WindowSizes(text, size, WindowEnd(text, size, start));
    }
  }

  /** Fewer than 1 + 2 * length / size windows are cut. */
  lemma {:induction false} WindowCount(text: string, size: nat, start: nat)
    requires size > 0 && start < |text|
    ensures size * (|Windows(text, size, start)| - 1) < 2 * (|text| - start)
    decreases |text| - start
  {
    hide WindowEnd;
    WindowBounds(text, size, start);
    var end := WindowEnd(text, size, start);
    var n := |Windows(text, size, end)|;
    assert |Windows(text, size, start)| == 1 + n;
    if end < |text| {
      WindowCount(text, size, end);
      assert size * n == size * (n - 1) + size;
    }
  }

  lemma {:induction false} StartsGrow(spans: seq<Span>, start: nat, end: nat, i: nat, j: nat)
    requires Contiguous(spans, start, end) && i < j < |spans|
    requires forall k :: 0 <= k < |spans| ==> spans[k].start < spans[k].end
    ensures start <= spans[i].start < spans[i].end <= spans[j].start
  {
    var rest := spans[1..];
    if i > 0 {
      StartsGrow(rest, spans[0].end, end, i - 1, j - 1);
    } else if j > 1 {
      StartsGrow(rest, spans[0].end, end, 0, j - 1);
    }
  }

  lemma {:induction false} EndsWithin(spans: seq<Span>, start: nat, end: nat)
    requires Contiguous(spans, start, end)
    ensures forall k :: 0 <= k < |spans| ==> spans[k].start <= spans[k].end <= end
    ensures start <= end
  {
    if spans != [] {
      EndsWithin(spans[1..], spans[0].end, end);
    }
  }

  // ----- Relevance -----

  /** len(tokens & query) / max(1, len(query)) */
  function Share(tokens: set<string>, query: set<string>): real {
    |tokens * query| as real / Max(1, |query|) as real
  }

  /** The best share over all queries, 0 without queries. */
  function Relevance(tokens: set<string>, queries: seq<set<string>>): real {
    if queries == [] then 0.0
    else MaxReal(Relevance(tokens, queries[..|queries| - 1]), Share(tokens, queries[|queries| - 1]))
  }

  lemma ShareInRange(tokens: set<string>, query: set<string>)
    ensures 0.0 <= Share(tokens, query) <= 1.0
    ensures query != {} ==> Share(tokens, query) * |query| as real == |tokens * query| as real
    ensures query != {} ==> (Share(tokens, query) == 1.0 <==> query <= tokens)
  {
    SubsetSize(tokens * query, query);
    QuotientBounds(|tokens * query|, Max(1, |query|));
    assert tokens * query == query <==> query <= tokens;
    assert query != {} ==> |query| > 0;
  }

  /** The relevance is the largest share, between 0 and 1, and 1 exactly when some
      non-empty query is contained in the terms. */
  lemma {:induction false} RelevanceIsBestShare(tokens: set<string>, queries: seq<set<string>>)
    ensures 0.0 <= Relevance(tokens, queries) <= 1.0
    ensures forall k :: 0 <= k < |queries| ==> Share(tokens, queries[k]) <= Relevance(tokens, queries)
    ensures || Relevance(tokens, queries) == 0.0
            || exists k :: 0 <= k < |queries| && Share(tokens, queries[k]) == Relevance(tokens, queries)
  {
    hide Share;
    if queries != [] {
      var n := |queries| - 1;
      RelevanceIsBestShare(tokens, queries[..n]);
      ShareInRange(tokens, queries[n]);
      if Relevance(tokens, queries) != 0.0 && Relevance(tokens, queries) != Share(tokens, queries[n]) {
        var k :| 0 <= k < n && Share(tokens, queries[..n][k]) == Relevance(tokens, queries[..n]);
        assert queries[..n][k] == queries[k];
      }
      forall k | 0 <= k < |queries| ensures Share(tokens, queries[k]) <= Relevance(tokens, queries) {
        if k < n {
          assert queries[..n][k] == queries[k];
        }
      }
    }
  }

  /** The term sets of the objectives that are not blank. */
  function Queries(terms: string -> set<string>, objectives: seq<string>): seq<set<string>> {
    if objectives == [] then []
    else (if Text.Strip(objectives[0]) != [] then [terms(objectives[0])] else []) + Queries(terms, objectives[1..])
  }

  /** A query for each objective that is not blank, and no other. */
  lemma {:induction false} QueriesAre(terms: string -> set<string>, objectives: seq<string>)
    ensures forall q :: q in Queries(terms, objectives) <==>
      exists o :: o in objectives && !Text.Blank(o) && terms(o) == q
  {
    hide Text.Strip, Text.Blank;
    if objectives != [] {
      QueriesAre(terms, objectives[1..]);
      Text.StripExact(objectives[0]);
      assert objectives == [objectives[0]] + objectives[1..];
    }
  }

  /** The share of common terms among all terms of two parts, 0 without any. */
  function TermOverlap(terms: string -> set<string>, parts: seq<string>, i: nat): nat -> real {
    (j: nat) => if i < |parts| && j < |parts| then Jaccard(terms(parts[i]), terms(parts[j])) else 0.0
  }

  /** The order in which parts are taken: each has the largest (0.7 relevance - 0.3 overlap,
      -position) among the parts not taken before it, where the overlap is the largest one
      with those taken before, `x` for the one taken and `y` for the other one. */
  lemma TakenByRelevance(terms: string -> set<string>, parts: seq<string>, queries: seq<set<string>>, limit: int,
                         k: nat, j: nat, x: real, y: real)
    requires limit >= 0
    requires var s := Selection(TermPool(terms, parts, queries), None, limit, Upto(|parts|));
      && k < |s| && j < |parts| && j !in s[..k]
      && IsLargest(s[..k], TermOverlap(terms, parts, s[k]), x) && IsLargest(s[..k], TermOverlap(terms, parts, j), y)
    ensures var i := Selection(TermPool(terms, parts, queries), None, limit, Upto(|parts|))[k];
      && i < |parts|
      && var a := 0.7 * Relevance(terms(parts[i]), queries) - 0.3 * x;
         var b := 0.7 * Relevance(terms(parts[j]), queries) - 0.3 * y;
         i == j || a > b || (a == b && i < j)
  {
    hide Selection, Relevance, Penalty, IsLargest, TermOverlap, TermPool, ScoreOf, WinnersInTurn;
    var p := TermPool(terms, parts, queries);
    var s := Selection(p, None, limit, Upto(|parts|));
    WinnersInRange(p, limit, |parts|);
    assert s[k] in s;
    forall c | c in s[..k] ensures c in s {
    }
    OverlapOfTerms(terms, parts, queries, s[k], s[..k]);
    OverlapOfTerms(terms, parts, queries, j, s[..k]);
    PenaltyIsLargest(p, s[k], s[..k], TermOverlap(terms, parts, s[k]), x);
    PenaltyIsLargest(p, j, s[..k], TermOverlap(terms, parts, j), y);
    ScoreOfPart(terms, parts, queries, s[k], s[..k], x);
    ScoreOfPart(terms, parts, queries, j, s[..k], y);
    SelectionTakesBest(p, None, limit, Upto(|parts|), k, j);
  }

  lemma OverlapOfTerms(terms: string -> set<string>, parts: seq<string>, queries: seq<set<string>>, i: nat, s: seq<nat>)
    requires i < |parts| && forall c :: c in s ==> c < |parts|
    ensures forall c :: c in s ==> TermOverlap(terms, parts, i)(c) == Overlap(TermPool(terms, parts, queries), i, c)
  {
  }

  lemma ScoreOfPart(terms: string -> set<string>, parts: seq<string>, queries: seq<set<string>>, i: nat, s: seq<nat>,
                    x: real)
    requires i < |parts| && Penalty(TermPool(terms, parts, queries), i, s) == x
    ensures ScoreOf(TermPool(terms, parts, queries), s, i)
         == Score(0.7 * Relevance(terms(parts[i]), queries) - 0.3 * x, 0.0, -(i as int))
  {
    hide Penalty, Relevance;
  }

  function TermPool(terms: string -> set<string>, parts: seq<string>, queries: seq<set<string>>): Pool {
    Pool(0.7, 0.3,
         seq(|parts|, i requires 0 <= i < |parts| => Relevance(terms(parts[i]), queries)),
         seq(|parts|, _ => 0.0),
         seq(|parts|, i requires 0 <= i < |parts| => terms(parts[i])))
  }

  // ----- Ranked windows -----

  function RankedWindows(text: string, spans: seq<Span>, winners: seq<nat>): seq<SourceWindow>
    requires forall i :: i in winners ==> i < |spans|
  {
    seq(|winners|, r requires 0 <= r < |winners| =>
      assert winners[r] in winners;
      var s := spans[winners[r]];
      SourceWindow(s.start, s.end, Slice(text, s), 1.0 - r as real / Max(1, |winners|) as real, None, -1, -1))
  }

  ghost function WindowWinners(terms: string -> set<string>, text: string, objectives: seq<string>, size: nat,
                               limit: int): seq<nat>
    requires size > 0
  {
    var spans := Windows(text, size, 0);
    Selection(TermPool(terms, Slices(text, spans), Queries(terms, objectives)), None, limit, Upto(|spans|))
  }

  /** Windows are taken by relevance to the non-blank objectives, less overlap. */
  lemma WindowsTakenByRelevance(terms: string -> set<string>, text: string, objectives: seq<string>, size: nat,
                                limit: int, k: nat, j: nat, x: real, y: real)
    requires size > 0 && limit > 0
    requires var s := WindowWinners(terms, text, objectives, size, limit);
      var parts := Slices(text, Windows(text, size, 0));
      && k < |s| && j < |parts| && j !in s[..k]
      && IsLargest(s[..k], TermOverlap(terms, parts, s[k]), x) && IsLargest(s[..k], TermOverlap(terms, parts, j), y)
    ensures var i := WindowWinners(terms, text, objectives, size, limit)[k];
      var parts, queries := Slices(text, Windows(text, size, 0)), Queries(terms, objectives);
      && i < |parts|
      && var a := 0.7 * Relevance(terms(parts[i]), queries) - 0.3 * x;
         var b := 0.7 * Relevance(terms(parts[j]), queries) - 0.3 * y;
         i == j || a > b || (a == b && i < j)
  {
    hide Selection, Relevance, IsLargest, TermOverlap, TermPool, Windows;
    TakenByRelevance(terms, Slices(text, Windows(text, size, 0)), Queries(terms, objectives), limit, k, j, x, y);
  }

  method RankSourceWindows(terms: string -> set<string>, text: string, objectives: seq<string>, windowChars: int,
                           limit: int)
    returns (r: Result<seq<SourceWindow>, SelectorError>)
    ensures r.Err? <==> windowChars <= 0 || limit <= 0
    ensures r.Ok? ==>
      var spans, winners := Windows(text, windowChars, 0), WindowWinners(terms, text, objectives, windowChars, limit);
      (forall i :: i in winners ==> i < |spans|) && r.value == RankedWindows(text, spans, winners)
  {
    if windowChars <= 0 || limit <= 0 {
      return Err(PositiveSizesRequired);
    }
    var windows := CutWindows(text, windowChars);
    var pool := TermPool(terms, Slices(text, windows), Queries(terms, objectives));
    var winners := Select(pool, None, limit, Upto(|windows|));
    WinnersInRange(pool, limit, |windows|);
    r := Ok(RankedWindows(text, windows, winners));
  }

  lemma WinnersInRange(pool: Pool, limit: int, n: nat)
    requires limit >= 0
    ensures forall i :: i in Selection(pool, None, limit, Upto(n)) ==> i < n
  {
    hide Selection, WinnersInTurn;
    UnprunedSelection(pool, limit, Upto(n));
    assert forall i :: i in Selection(pool, None, limit, Upto(n)) ==> i in Elems(Selection(pool, None, limit, Upto(n)));
  }

  /** Exact slices of the text with scores that fall strictly from 1 and stay above 0, no
      two from the same place. */
  ghost predicate ProperRanking(text: string, out: seq<SourceWindow>) {
    && (forall r :: 0 <= r < |out| ==>
          && out[r].start < out[r].end <= |text| && out[r].content == text[out[r].start..out[r].end]
          && 0.0 < out[r].score <= 1.0)
    && (forall a, b :: 0 <= a < b < |out| ==> out[a].score > out[b].score && out[a].start != out[b].start)
  }

  /** The windows reported are the winners, in the order taken, with scores that fall from 1
      by equal steps. */
  lemma RankedAsTaken(text: string, spans: seq<Span>, winners: seq<nat>, r: nat)
    requires (forall i :: i in winners ==> i < |spans|) && r < |winners|
    ensures var w := RankedWindows(text, spans, winners)[r];
      && winners[r] < |spans| && w.start == spans[winners[r]].start && w.end == spans[winners[r]].end
      && w.score * |winners| as real == (|winners| - r) as real
      && w.heading == None && w.charStart == w.charEnd == -1
  {
    assert winners[r] in winners;
    var q := r as real / |winners| as real;
    assert q * |winners| as real == r as real;
    assert (1.0 - q) * |winners| as real == |winners| as real - r as real;
  }

  /** The ranking lists min(limit, n) of the n windows, and all of them when limit >= n. */
  lemma RankingIsProper(terms: string -> set<string>, text: string, objectives: seq<string>, size: nat, limit: int)
    requires size > 0 && limit > 0
    ensures var spans, winners := Windows(text, size, 0), WindowWinners(terms, text, objectives, size, limit);
      && (forall i :: i in winners ==> i < |spans|)
      && |winners| == Min(limit, |spans|)
      && ProperRanking(text, RankedWindows(text, spans, winners))
      && (limit >= |spans| ==> Elems(winners) == Upto(|spans|))
  {
    hide Selection, WinnersInTurn, Distinct, ProperRanking, RankedWindows;
    var spans := Windows(text, size, 0);
    var pool := TermPool(terms, Slices(text, spans), Queries(terms, objectives));
    WinnersInRange(pool, limit, |spans|);
    UnprunedSelection(pool, limit, Upto(|spans|));
    RankedProperly(text, size, WindowWinners(terms, text, objectives, size, limit));
  }

  lemma RankedProperly(text: string, size: nat, winners: seq<nat>)
    requires size > 0
    requires Distinct(winners) && forall i :: i in winners ==> i < |Windows(text, size, 0)|
    ensures ProperRanking(text, RankedWindows(text, Windows(text, size, 0), winners))
  {
    hide Windows, Contiguous;
    var spans := Windows(text, size, 0);
    WindowsTile(text, size, 0);
    WindowSizes(text, size, 0);
    EndsWithin(spans, 0, |text|);
    var out := RankedWindows(text, spans, winners);
    forall r | 0 <= r < |out|
      ensures out[r].start < out[r].end <= |text| && out[r].content == text[out[r].start..out[r].end]
      ensures 0.0 < out[r].score <= 1.0
    {
      assert winners[r] in winners;
      RankScore(r, |out|);
    }
    forall a, b | 0 <= a < b < |out| ensures out[a].score > out[b].score && out[a].start != out[b].start {
      var i, j := winners[a], winners[b];
      assert i in winners && j in winners && i != j;
      ScoresFall(a, b, |out|);
      StartsGrow(spans, 0, |text|, if i < j then i else j, if i < j then j else i);
    }
  }

  lemma RankScore(r: nat, n: nat)
    requires r < n
    ensures 0.0 < 1.0 - r as real / Max(1, n) as real <= 1.0
  {
    var q := r as real / n as real;
    assert q * n as real == r as real;
  }

  lemma ScoresFall(a: nat, b: nat, n: nat)
    requires a < b < n
    ensures 1.0 - a as real / Max(1, n) as real > 1.0 - b as real / Max(1, n) as real
  {
    var p, q := a as real / n as real, b as real / n as real;
    assert p * n as real == a as real && q * n as real == b as real;
    assert (q - p) * n as real > 0.0;
  }
}
