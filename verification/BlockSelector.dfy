/** Block-aware selection: the text is cut at the matches of the boundary expression, the
    blocks are ranked, and the winners are returned with their neighbours in text order. */
module BlockSelector {
  import opened Basics
  import opened Greedy
  import opened SourceSelector
  import Text

  // ----- Cutting a text into blocks -----

  /** What a scan for matches yields: spans in order, not overlapping, possibly empty. */
  ghost predicate Matches(matches: seq<Span>, start: nat, n: nat) {
    if matches == [] then start <= n
    else start <= matches[0].start <= matches[0].end && Matches(matches[1..], matches[0].end, n)
  }

  /** The non-empty stretches between the matches. */
  function Blocks(matches: seq<Span>, start: nat, n: nat): seq<Span> {
    if matches == [] then (if start < n then [Span(start, n)] else [])
    else
      var rest := Blocks(matches[1..], matches[0].end, n);
      if matches[0].start > start then [Span(start, matches[0].start)] + rest else rest
  }

  method SplitBlocks(text: string, matches: seq<Span>) returns (blocks: seq<Span>)
    requires Matches(matches, 0, |text|)
    ensures blocks == Blocks(matches, 0, |text|)
  {
    blocks := [];
    if text == [] {
      NoBlocks(matches, 0);
      return;
    }
    var start: nat := 0;
    for k := 0 to |matches|
      invariant Matches(matches[k..], start, |text|)
      invariant blocks + Blocks(matches[k..], start, |text|) == Blocks(matches, 0, |text|)
    {
      var end: nat := matches[k].start;
      ghost var before, rest := blocks, Blocks(matches[k + 1..], matches[k].end, |text|);
      assert matches[k..][1..] == matches[k + 1..];
      if end > start {
        blocks := blocks + [Span(start, end)];
        assert before + ([Span(start, end)] + rest) == blocks + rest;
      }
      start := matches[k].end;
    }
    if start < |text| {
      blocks := blocks + [Span(start, |text|)];
    }
  }

  lemma {:induction false} NoBlocks(matches: seq<Span>, start: nat)
    requires Matches(matches, start, 0)
    ensures Blocks(matches, start, 0) == []
  {
    if matches != [] {
      MatchesBound(matches[1..], matches[0].end, 0);
      NoBlocks(matches[1..], matches[0].end);
    }
  }

  lemma {:induction false} MatchesBound(matches: seq<Span>, start: nat, n: nat)
    requires Matches(matches, start, n)
    ensures start <= n
    ensures forall k :: 0 <= k < |matches| ==> start <= matches[k].start <= matches[k].end <= n
  {
    if matches != [] {
      MatchesBound(matches[1..], matches[0].end, n);
    }
  }

  /** Two span lists merged by position; at equal starts the second list goes first. */
  function Interleave(a: seq<Span>, b: seq<Span>): seq<Span> {
    if a == [] then b
    else if b == [] then a
    else if a[0].start < b[0].start then [a[0]] + Interleave(a[1..], b)
    else [b[0]] + Interleave(a, b[1..])
  }

  /** Non-empty spans inside [lo, hi). */
  ghost predicate Inside(spans: seq<Span>, lo: nat, hi: nat) {
    forall k :: 0 <= k < |spans| ==> lo <= spans[k].start < spans[k].end <= hi
  }

  lemma {:induction false} BlocksBound(matches: seq<Span>, start: nat, n: nat)
    requires Matches(matches, start, n)
    ensures Inside(Blocks(matches, start, n), start, n)
  {
    MatchesBound(matches, start, n);
    if matches != [] {
      BlocksBound(matches[1..], matches[0].end, n);
      assert matches[0].start <= n;
    }
  }

  /** Blocks and separators, interleaved, follow each other without a gap or an overlap. */
  lemma {:induction false} BlocksAndSeparatorsTile(matches: seq<Span>, start: nat, n: nat)
    requires Matches(matches, start, n)
    ensures Contiguous(Interleave(Blocks(matches, start, n), matches), start, n)
  {
    if matches != [] {
      var m, later := matches[0], matches[1..];
      var rest := Blocks(later, m.end, n);
      BlocksAndSeparatorsTile(later, m.end, n);
      BlocksBound(later, m.end, n);
      var tail := Interleave(rest, later);
      assert Interleave(rest, matches) == [m] + tail;
      assert ([m] + tail)[1..] == tail;
      if m.start > start {
        var b := Span(start, m.start);
        assert ([b] + rest)[1..] == rest;
        assert Interleave([b] + rest, matches) == [b] + ([m] + tail);
        assert ([b] + ([m] + tail))[1..] == [m] + tail;
      }
    }
  }

  /** Put together again, blocks and separators are the text. */
  lemma BlocksRebuildText(text: string, matches: seq<Span>)
    requires Matches(matches, 0, |text|)
    ensures Concat(Slices(text, Interleave(Blocks(matches, 0, |text|), matches))) == text
  {
    BlocksAndSeparatorsTile(matches, 0, |text|);
    ContiguousRebuilds(text, Interleave(Blocks(matches, 0, |text|), matches), 0, |text|);
  }

  /** Blocks come in text order and do not overlap. */
  ghost predicate Ordered(spans: seq<Span>) {
    forall i, j :: 0 <= i < j < |spans| ==> spans[i].end <= spans[j].start
  }

  lemma {:induction false} BlocksInOrder(matches: seq<Span>, start: nat, n: nat)
    requires Matches(matches, start, n)
    ensures Ordered(Blocks(matches, start, n))
  {
    if matches != [] {
      BlocksInOrder(matches[1..], matches[0].end, n);
      BlocksBound(matches[1..], matches[0].end, n);
      OrderedAfter(Span(start, matches[0].start), Blocks(matches[1..], matches[0].end, n), matches[0].end, n);
    }
  }

  lemma OrderedAfter(first: Span, rest: seq<Span>, lo: nat, hi: nat)
    requires Ordered(rest) && Inside(rest, lo, hi) && first.end <= lo
    ensures Ordered([first] + rest)
  {
  }

  /** No boundary lies inside a block. */
  ghost predicate NoneInside(blocks: seq<Span>, matches: seq<Span>) {
    forall k, j :: 0 <= k < |blocks| && 0 <= j < |matches| ==>
      matches[j].end <= blocks[k].start || blocks[k].end <= matches[j].start
  }

  ghost predicate BoundaryBetween(matches: seq<Span>, before: Span, after: Span) {
    exists j :: 0 <= j < |matches| && before.end <= matches[j].start && matches[j].end <= after.start
  }

  /** Blocks are cut at boundaries and nowhere else: none has a boundary inside, and
      between any two consecutive ones there is a boundary. */
  lemma {:induction false} BlocksAreMaximal(matches: seq<Span>, start: nat, n: nat)
    requires Matches(matches, start, n)
    ensures var blocks := Blocks(matches, start, n);
      && NoneInside(blocks, matches)
      && forall k :: 0 <= k < |blocks| - 1 ==> BoundaryBetween(matches, blocks[k], blocks[k + 1])
  {
    hide BoundaryBetween, Matches;
    MatchesBound(matches, start, n);
    MatchesTail(matches, start, n);
    if matches != [] {
      var m, later := matches[0], matches[1..];
      BlocksAreMaximal(later, m.end, n);
      MatchesBound(later, m.end, n);
      BlocksBound(later, m.end, n);
      var blocks, rest := Blocks(matches, start, n), Blocks(later, m.end, n);
      var shift := |blocks| - |rest|;
      forall k | 0 <= k < |blocks| - 1 ensures BoundaryBetween(matches, blocks[k], blocks[k + 1]) {
        if k < shift {
          FirstBoundary(matches, blocks[k], blocks[k + 1]);
        } else {
          LaterBoundary(matches, rest[k - shift], rest[k - shift + 1]);
        }
      }
      forall k, j | 0 <= k < |blocks| && 0 <= j < |matches|
        ensures matches[j].end <= blocks[k].start || blocks[k].end <= matches[j].start
      {
        if k >= shift && j > 0 {
          assert blocks[k] == rest[k - shift] && matches[j] == later[j - 1];
        }
      }
    }
  }

  lemma MatchesTail(matches: seq<Span>, start: nat, n: nat)
    requires Matches(matches, start, n)
    ensures matches != [] ==> Matches(matches[1..], matches[0].end, n)
  {
  }

  lemma FirstBoundary(matches: seq<Span>, before: Span, after: Span)
    requires matches != [] && before.end <= matches[0].start && matches[0].end <= after.start
    ensures BoundaryBetween(matches, before, after)
  {
  }

  lemma LaterBoundary(matches: seq<Span>, before: Span, after: Span)
    requires matches != [] && BoundaryBetween(matches[1..], before, after)
    ensures BoundaryBetween(matches, before, after)
  {
    var j :| 0 <= j < |matches[1..]| && before.end <= matches[1..][j].start && matches[1..][j].end <= after.start;
    assert matches[j + 1] == matches[1..][j];
  }

  // ----- Headings -----

  /** The first 80 characters of the stripped text. */
  function Clip(s: string): string {
    var t := Text.Strip(s);
    if |t| <= 80 then t else t[..80]
  }

  /** The nearest block before `index` that is a heading. */
  function NearestHeading(isHeading: string -> bool, contents: seq<string>, index: nat): (r: Option<nat>)
    requires index <= |contents|
    ensures r.Some? ==> r.value < index
  {
    if index == 0 then None
    else if isHeading(contents[index - 1]) then Some(index - 1)
    else NearestHeading(isHeading, contents, index - 1)
  }

  /** The heading reported for a block: its own first line if that is a heading; otherwise
      the nearest heading block before it, but only at a distance of at most three blocks,
      although it is described as the nearest preceding one. */
  function Heading(isHeading: string -> bool, firstLine: string -> string, contents: seq<string>,
                   index: nat): Option<string>
    requires index < |contents|
  {
    if isHeading(firstLine(contents[index])) then Some(Clip(firstLine(contents[index])))
    else
      var h := NearestHeading(isHeading, contents, index);
      if h.Some? && index - h.value <= 3 then Some(Clip(contents[h.value])) else None
  }

  /** What the description promises: the nearest heading before, at any distance. */
  function PromisedHeading(isHeading: string -> bool, firstLine: string -> string, contents: seq<string>,
                           index: nat): Option<string>
    requires index < |contents|
  {
    if isHeading(firstLine(contents[index])) then Some(Clip(firstLine(contents[index])))
    else
      var h := NearestHeading(isHeading, contents, index);
      if h.Some? then Some(Clip(contents[h.value])) else None
  }

  /** The heading reported: the block's own first line when that is a heading, otherwise the
      last heading among the three blocks before it, and none without one there; in either
      case stripped and cut off at 80 characters. */
  lemma HeadingExactly(isHeading: string -> bool, firstLine: string -> string, contents: seq<string>, index: nat)
    requires index < |contents|
    ensures var h := Heading(isHeading, firstLine, contents, index);
      && (isHeading(firstLine(contents[index])) ==> h.Some? && Clipped(firstLine(contents[index]), h.value))
      && (!isHeading(firstLine(contents[index])) ==>
            && (h.Some? <==> exists j :: Max(index - 3, 0) <= j < index && isHeading(contents[j]))
            && (forall j :: Max(index - 3, 0) <= j < index && isHeading(contents[j])
                            && (forall i :: j < i < index ==> !isHeading(contents[i])) ==>
                  h.Some? && Clipped(contents[j], h.value)))
  {
    hide Text.Strip;
    NearestIsNearest(isHeading, contents, index);
  }

  /** The stripped text, or its first 80 characters when it is longer. */
  ghost predicate Clipped(s: string, r: string) {
    && r <= Text.Strip(s) && |r| <= 80
    && (|Text.Strip(s)| <= 80 ==> r == Text.Strip(s))
    && (|Text.Strip(s)| > 80 ==> |r| == 80)
  }

  /** The promise is kept exactly when the block starts with a heading, no block before is
      one, or one of the last three is. */
  lemma HeadingKeepsPromiseExactly(isHeading: string -> bool, firstLine: string -> string, contents: seq<string>,
                                   index: nat)
    requires index < |contents|
    ensures Heading(isHeading, firstLine, contents, index) == PromisedHeading(isHeading, firstLine, contents, index)
       <==> (|| isHeading(firstLine(contents[index]))
             || (forall j :: 0 <= j < index ==> !isHeading(contents[j]))
             || (exists j :: Max(index - 3, 0) <= j < index && isHeading(contents[j])))
  {
    NearestIsNearest(isHeading, contents, index);
  }

  /** A heading four blocks before is described as the block's heading, and missed. What is
      asked of the heading test and the first line holds of the program's own. */
  lemma HeadingCanBeMissed(isHeading: string -> bool, firstLine: string -> string)
    requires isHeading("# Title") && !isHeading("One. Two") && firstLine("One. Two") == "One. Two"
    ensures var contents := ["# Title", "One. Two", "One. Two", "One. Two", "One. Two"];
      && Heading(isHeading, firstLine, contents, 4) == None
      && PromisedHeading(isHeading, firstLine, contents, 4) == Some(Clip("# Title"))
      && Heading(isHeading, firstLine, contents, 3) == Some(Clip("# Title"))
  {
    hide Clip;
    var contents := ["# Title", "One. Two", "One. Two", "One. Two", "One. Two"];
    NearestIsNearest(isHeading, contents, 4);
    NearestIsNearest(isHeading, contents, 3);
  }

  lemma {:induction false} NearestIsNearest(isHeading: string -> bool, contents: seq<string>, index: nat)
    requires index <= |contents|
    ensures var h := NearestHeading(isHeading, contents, index);
      && (h.Some? ==> h.value < index && isHeading(contents[h.value]))
      && forall j :: 0 <= j < index && isHeading(contents[j]) ==> h.Some? && j <= h.value
  {
    if index > 0 && !isHeading(contents[index - 1]) {
      NearestIsNearest(isHeading, contents, index - 1);
    }
  }

  method BlockHeading(isHeading: string -> bool, firstLine: string -> string, contents: seq<string>, index: nat)
    returns (r: Option<string>)
    requires index < |contents|
    ensures r == Heading(isHeading, firstLine, contents, index)
  {
    var line := firstLine(contents[index]);
    if isHeading(line) {
      return Some(Clip(line));
    }
    var i := index;
    while i > 0
      invariant 0 <= i <= index && index - i <= 2
      invariant forall j :: i <= j < index ==> !isHeading(contents[j])
      decreases i
    {
      NearestIs(isHeading, contents, index, i - 1);
      i := i - 1;
      if isHeading(contents[i]) {
        return Some(Clip(contents[i]));
      }
      if i < index - 2 {
        break;
      }
    }
    NoneNear(isHeading, contents, index, i);
    r := None;
  }

  lemma NearestIs(isHeading: string -> bool, contents: seq<string>, index: nat, i: nat)
    requires i < index <= |contents|
    requires forall j :: i < j < index ==> !isHeading(contents[j])
    ensures isHeading(contents[i]) ==> NearestHeading(isHeading, contents, index) == Some(i)
  {
  }

  lemma NoneNear(isHeading: string -> bool, contents: seq<string>, index: nat, i: nat)
    requires i <= index <= |contents|
    requires forall j :: i <= j < index ==> !isHeading(contents[j])
    ensures NearestHeading(isHeading, contents, index) == NearestHeading(isHeading, contents, i)
    decreases index
  {
    if i < index {
      NoneNear(isHeading, contents, index - 1, i);
    }
  }

  // ----- Neighbourhoods -----

  /** The positions below `n` at a distance of at most `d` from `i`. */
  function Ring(i: nat, d: nat, n: nat): (r: set<nat>)
    ensures forall j: nat :: j in r <==> j < n && j <= i + d && i <= j + d
  {
    set j | j in Upto(n) && j <= i + d && i <= j + d
  }

  function Around(n: nat, winners: seq<nat>, d: nat): set<nat> {
    if winners == [] then {}
    else Around(n, winners[..|winners| - 1], d) + Ring(winners[|winners| - 1], d, n)
  }

  lemma {:induction false} AroundMembers(n: nat, winners: seq<nat>, d: nat)
    ensures forall j: nat :: j in Around(n, winners, d) <==>
        j < n && exists i: nat :: i in winners && j in Ring(i, d, n)
  {
    hide Ring;
    if winners != [] {
      var rest, last := winners[..|winners| - 1], winners[|winners| - 1];
      AroundMembers(n, rest, d);
      assert winners == rest + [last];
      forall j: nat | j in Around(n, winners, d) ensures exists i: nat :: i in winners && j in Ring(i, d, n) {
        if j in Ring(last, d, n) {
          assert last in winners;
        } else {
          assert j in Around(n, rest, d);
          var i: nat :| i in rest && j in Ring(i, d, n);
          assert i in winners;
        }
      }
      forall j: nat | j < n && exists i: nat :: i in winners && j in Ring(i, d, n) ensures j in Around(n, winners, d) {
        var i: nat :| i in winners && j in Ring(i, d, n);
        assert i in rest || i == last;
      }
    }
  }

  lemma {:induction false} RingSize(i: nat, d: nat, n: nat)
    ensures |Ring(i, d, n)| <= 2 * d + 1
  {
    hide Ring;
    if d == 0 {
      SubsetSize(Ring(i, 0, n), {i});
    } else {
      RingSize(i, d - 1, n);
      RingStep(i, d, n);
      UnionSize(Ring(i, d - 1, n), if i >= d && i - d < n then {i - d} else {});
      UnionSize(Ring(i, d - 1, n) + (if i >= d && i - d < n then {i - d} else {}), if i + d < n then {i + d} else {});
    }
  }

  lemma UnionSize(a: set<nat>, b: set<nat>)
    ensures |a + b| <= |a| + |b|
  {
  }

  lemma {:induction false} AroundSize(n: nat, winners: seq<nat>, d: nat)
    ensures |Around(n, winners, d)| <= |winners| * (2 * d + 1)
    ensures |Around(n, winners, d)| <= n
  {
    hide Ring;
    AroundMembers(n, winners, d);
    SubsetSize(Around(n, winners, d), Upto(n));
    if winners != [] {
      var rest, last := winners[..|winners| - 1], winners[|winners| - 1];
      AroundSize(n, rest, d);
      RingSize(last, d, n);
      UnionSize(Around(n, rest, d), Ring(last, d, n));
      OneMore(|rest|, 2 * d + 1);
    }
  }

  lemma OneMore(k: nat, c: nat)
    ensures (k + 1) * c == k * c + c
  {
  }

  /** The neighbour expansion: both neighbours at every distance, clipped to the text. */
  method Expand(selected: seq<nat>, n: nat, neighbours: nat) returns (expanded: set<nat>)
    requires forall i :: i in selected ==> i < n
    ensures expanded == Around(n, selected, neighbours)
  {
    hide Ring;
    expanded := Elems(selected);
    for k := 0 to |selected|
      invariant expanded == Elems(selected) + Around(n, selected[..k], neighbours)
    {
      var i := selected[k];
      assert i in selected;
      ghost var before := expanded;
      CenterOnly(i, n);
      assert before == before + {i};
      for distance := 1 to neighbours + 1
        invariant expanded == before + Ring(i, distance - 1, n)
      {
        RingStep(i, distance, n);
        ghost var inner := Ring(i, distance - 1, n);
        if i - distance >= 0 {
          expanded := expanded + {i - distance};
        }
        if i + distance < n {
          expanded := expanded + {i + distance};
        }
        Regroup(before, inner, if i >= distance && i - distance < n then {i - distance} else {},
                if i + distance < n then {i + distance} else {});
      }
      assert selected[..k + 1][..k] == selected[..k];
      Regroup(Elems(selected), Around(n, selected[..k], neighbours), Ring(i, neighbours, n), {});
    }
    assert selected[..|selected|] == selected;
    CentersInside(n, selected, neighbours);
  }

  lemma Regroup(a: set<nat>, b: set<nat>, c: set<nat>, d: set<nat>)
    ensures a + (b + c + d) == a + b + c + d
    ensures d == {} ==> a + b + c + d == a + b + c
  {
  }

  lemma CenterOnly(i: nat, n: nat)
    requires i < n
    ensures Ring(i, 0, n) == {i}
  {
  }

  lemma RingStep(i: nat, d: nat, n: nat)
    requires d > 0
    ensures Ring(i, d, n)
        == Ring(i, d - 1, n) + (if i >= d && i - d < n then {i - d} else {}) + (if i + d < n then {i + d} else {})
  {
    hide Ring, Upto;
    var left: set<nat> := if i >= d && i - d < n then {i - d} else {};
    var right: set<nat> := if i + d < n then {i + d} else {};
    forall j: nat ensures j in Ring(i, d, n) <==> j in Ring(i, d - 1, n) || j in left || j in right {
    }
  }

  lemma CentersInside(n: nat, winners: seq<nat>, d: nat)
    requires forall i :: i in winners ==> i < n
    ensures Elems(winners) <= Around(n, winners, d)
  {
    AroundMembers(n, winners, d);
    forall i | i in winners ensures i in Around(n, winners, d) {
      assert i in Ring(i, d, n);
    }
  }

  // ----- Selecting blocks -----

  ghost function BlockWinners(terms: string -> set<string>, contents: seq<string>, queries: seq<set<string>>,
                              limit: int): seq<nat> {
    Selection(TermPool(terms, contents, queries), None, limit, Upto(|contents|))
  }

  /** The positions returned: the first blocks when there is no query, otherwise the
      winners with their neighbours, in text order. */
  ghost function Positions(terms: string -> set<string>, contents: seq<string>, queries: seq<set<string>>, limit: int,
                           neighbours: int): seq<nat> {
    var n := |contents|;
    if queries == [] then Ascending(Min(Max(limit, 0), n), Upto(n))
    else Ascending(n, Around(n, BlockWinners(terms, contents, queries, limit), Max(neighbours, 0)))
  }

  /** What is returned for the block at a position. */
  ghost predicate Reported(isHeading: string -> bool, firstLine: string -> string, terms: string -> set<string>,
                           queries: seq<set<string>>, contents: seq<string>, blocks: seq<Span>, i: nat, w: SourceWindow)
    requires i < |contents| && |contents| == |blocks|
  {
    w == SourceWindow(blocks[i].start, blocks[i].end, contents[i],
                      if queries == [] then 1.0 else Relevance(terms(contents[i]), queries),
                      Heading(isHeading, firstLine, contents, i), blocks[i].start, blocks[i].end)
  }

  ghost predicate ReportsAll(isHeading: string -> bool, firstLine: string -> string, terms: string -> set<string>,
                             queries: seq<set<string>>, contents: seq<string>, blocks: seq<Span>,
                             positions: seq<nat>, out: seq<SourceWindow>)
    requires |contents| == |blocks|
  {
    && |out| == |positions|
    && forall r :: 0 <= r < |out| ==>
         && positions[r] < |contents|
         && Reported(isHeading, firstLine, terms, queries, contents, blocks, positions[r], out[r])
  }

  method SelectRelevantBlocks(terms: string -> set<string>, isHeading: string -> bool, firstLine: string -> string,
                              text: string, matches: seq<Span>, objectives: seq<string>, limit: int, neighbours: int)
    returns (r: Result<seq<SourceWindow>, SelectorError>)
    requires Matches(matches, 0, |text|)
    ensures r.Err? <==> limit <= 0
    ensures r.Ok? ==>
      var blocks, queries := Blocks(matches, 0, |text|), Queries(terms, objectives);
      var contents := Slices(text, blocks);
      ReportsAll(isHeading, firstLine, terms, queries, contents, blocks,
                 Positions(terms, contents, queries, limit, neighbours), r.value)
  {
    hide Matches, Blocks, Queries, Selection, Around, TermPool, ReportsAll;
    if limit <= 0 {
      return Err(PositiveSizesRequired);
    }
    var blocks := SplitBlocks(text, matches);
    var contents := Slices(text, blocks);
    var queries := Queries(terms, objectives);
    var n := |blocks|;
    var positions: seq<nat>;
    if queries == [] {
      positions := Ascending(Min(limit, n), Upto(n));
      AscendingLists(Min(limit, n), Upto(n));
    } else {
      var pool := TermPool(terms, contents, queries);
      var selected := Select(pool, None, limit, Upto(n));
      WinnersInRange(pool, limit, n);
      var expanded: set<nat>;
      if neighbours > 0 {
        expanded := Expand(selected, n, neighbours);
      } else {
        expanded := Elems(selected);
        AroundZero(n, selected);
      }
      positions := Ascending(n, expanded);
      AscendingLists(n, expanded);
    }
    var out := Report(isHeading, firstLine, terms, queries, contents, blocks, positions);
    r := Ok(out);
  }

  method Report(isHeading: string -> bool, firstLine: string -> string, terms: string -> set<string>,
                queries: seq<set<string>>, contents: seq<string>, blocks: seq<Span>, positions: seq<nat>)
    returns (out: seq<SourceWindow>)
    requires |contents| == |blocks| && forall i :: i in positions ==> i < |contents|
    ensures ReportsAll(isHeading, firstLine, terms, queries, contents, blocks, positions, out)
  {
    hide Heading, Relevance;
    out := [];
    for k := 0 to |positions|
      invariant ReportsAll(isHeading, firstLine, terms, queries, contents, blocks, positions[..k], out)
    {
      var i := positions[k];
      assert i in positions;
      var heading := BlockHeading(isHeading, firstLine, contents, i);
      var score := if queries == [] then 1.0 else Relevance(terms(contents[i]), queries);
      var w := SourceWindow(blocks[i].start, blocks[i].end, contents[i], score, heading,
                            blocks[i].start, blocks[i].end);
      assert Reported(isHeading, firstLine, terms, queries, contents, blocks, i, w);
      assert positions[..k + 1] == positions[..k] + [i];
      out := out + [w];
    }
    assert positions[..|positions|] == positions;
  }

  lemma AroundZero(n: nat, winners: seq<nat>)
    requires forall i :: i in winners ==> i < n
    ensures Around(n, winners, 0) == Elems(winners)
  {
    AroundMembers(n, winners, 0);
  }

  // ----- What a selection guarantees -----

  /** Blocks are taken by relevance to the queries, less overlap. */
  lemma BlocksTakenByRelevance(terms: string -> set<string>, contents: seq<string>, queries: seq<set<string>>,
                               limit: int, k: nat, j: nat, x: real, y: real)
    requires limit > 0
    requires var s := BlockWinners(terms, contents, queries, limit);
      && k < |s| && j < |contents| && j !in s[..k]
      && IsLargest(s[..k], TermOverlap(terms, contents, s[k]), x)
      && IsLargest(s[..k], TermOverlap(terms, contents, j), y)
    ensures var i := BlockWinners(terms, contents, queries, limit)[k];
      && i < |contents|
      && var a := 0.7 * Relevance(terms(contents[i]), queries) - 0.3 * x;
         var b := 0.7 * Relevance(terms(contents[j]), queries) - 0.3 * y;
         i == j || a > b || (a == b && i < j)
  {
    hide Selection, Relevance, IsLargest, TermOverlap, TermPool;
    TakenByRelevance(terms, contents, queries, limit, k, j, x, y);
  }

  /** The winners of a non-empty query: min(limit, n) different positions. */
  lemma WinnerFacts(terms: string -> set<string>, contents: seq<string>, queries: seq<set<string>>, limit: int)
    requires limit > 0
    ensures var winners := BlockWinners(terms, contents, queries, limit);
      && |winners| == |Elems(winners)| == Min(limit, |contents|)
      && Elems(winners) <= Upto(|contents|)
      && (limit >= |contents| ==> Elems(winners) == Upto(|contents|))
      && (forall i :: i in winners ==> i < |contents|)
  {
    hide Selection, TermPool, WinnersInTurn, Distinct;
    UnprunedSelection(TermPool(terms, contents, queries), limit, Upto(|contents|));
    WinnersInRange(TermPool(terms, contents, queries), limit, |contents|);
    DistinctSize(BlockWinners(terms, contents, queries, limit));
  }

  /** Positions grow strictly, so blocks come in text order. With a query they are exactly
      the winners' neighbourhoods. */
  lemma PositionsAreNeighbourhoods(terms: string -> set<string>, contents: seq<string>, queries: seq<set<string>>,
                                   limit: int, neighbours: int)
    requires limit > 0
    ensures var out := Positions(terms, contents, queries, limit, neighbours);
      && Increasing(out)
      && (queries == [] ==> Elems(out) == Upto(Min(limit, |contents|)))
      && (queries != [] ==> forall j: nat :: j in out <==>
            && j < |contents|
            && exists i: nat :: i in BlockWinners(terms, contents, queries, limit)
                                && j in Ring(i, Max(neighbours, 0), |contents|))
  {
    hide BlockWinners, Ring, Around;
    var n := |contents|;
    if queries == [] {
      AscendingLists(Min(limit, n), Upto(n));
    } else {
      AscendingLists(n, Around(n, BlockWinners(terms, contents, queries, limit), Max(neighbours, 0)));
      AroundMembers(n, BlockWinners(terms, contents, queries, limit), Max(neighbours, 0));
    }
  }

  /** What is returned are non-empty, disjoint pieces of the text, in text order. */
  ghost predicate ProperSelection(text: string, out: seq<SourceWindow>) {
    && (forall r :: 0 <= r < |out| ==>
          out[r].start < out[r].end <= |text| && out[r].content == text[out[r].start..out[r].end])
    && (forall a, b :: 0 <= a < b < |out| ==> out[a].end <= out[b].start)
  }

  lemma SelectionIsProper(terms: string -> set<string>, isHeading: string -> bool, firstLine: string -> string,
                          text: string, matches: seq<Span>, queries: seq<set<string>>, limit: int, neighbours: int,
                          out: seq<SourceWindow>)
    requires Matches(matches, 0, |text|) && limit > 0
    requires var blocks := Blocks(matches, 0, |text|);
      var contents := Slices(text, blocks);
      ReportsAll(isHeading, firstLine, terms, queries, contents, blocks,
                 Positions(terms, contents, queries, limit, neighbours), out)
    ensures ProperSelection(text, out)
  {
    hide Matches, Blocks, Positions, Heading, Relevance;
    var blocks := Blocks(matches, 0, |text|);
    BlocksBound(matches, 0, |text|);
    BlocksInOrder(matches, 0, |text|);
    var positions := Positions(terms, Slices(text, blocks), queries, limit, neighbours);
    PositionsAreNeighbourhoods(terms, Slices(text, blocks), queries, limit, neighbours);
    forall r | 0 <= r < |out|
      ensures out[r].start == blocks[positions[r]].start && out[r].end == blocks[positions[r]].end
    {
      assert Reported(isHeading, firstLine, terms, queries, Slices(text, blocks), blocks, positions[r], out[r]);
    }
  }

  /** Each block is returned with its relevance, 1 when there is no query, its heading, and
      its offsets once more. */
  lemma ReportedWith(isHeading: string -> bool, firstLine: string -> string, terms: string -> set<string>,
                     queries: seq<set<string>>, contents: seq<string>, blocks: seq<Span>, positions: seq<nat>,
                     out: seq<SourceWindow>, r: nat)
    requires |contents| == |blocks| && r < |positions|
    requires ReportsAll(isHeading, firstLine, terms, queries, contents, blocks, positions, out)
    ensures |out| == |positions| && positions[r] < |contents|
    ensures out[r].score == if queries == [] then 1.0 else Relevance(terms(contents[positions[r]]), queries)
    ensures out[r].heading == Heading(isHeading, firstLine, contents, positions[r])
    ensures out[r].charStart == out[r].start && out[r].charEnd == out[r].end
  {
    hide Heading, Relevance;
    assert Reported(isHeading, firstLine, terms, queries, contents, blocks, positions[r], out[r]);
  }

  /** At most limit * (2 * neighbours + 1) blocks are returned, and at most all; without
      neighbours there are min(limit, n), and with limit >= n every block is returned. */
  lemma PositionCount(terms: string -> set<string>, contents: seq<string>, queries: seq<set<string>>, limit: int,
                      neighbours: int)
    requires limit > 0
    ensures Counted(Positions(terms, contents, queries, limit, neighbours), |contents|, limit,
                    if queries == [] then 0 else Max(neighbours, 0))
  {
    hide BlockWinners, Around, Counted;
    var n, d := |contents|, Max(neighbours, 0);
    if queries == [] {
      FirstBlocks(n, limit);
    } else {
      WinnerFacts(terms, contents, queries, limit);
      AroundCount(n, BlockWinners(terms, contents, queries, limit), limit, d);
    }
  }

  /** The size of a selection among `n` blocks with neighbours up to distance `d`. */
  ghost predicate Counted(out: seq<nat>, n: nat, limit: nat, d: nat) {
    && |out| <= Min(n, limit * (2 * d + 1))
    && (d == 0 ==> |out| == Min(limit, n))
    && (limit >= n ==> forall j: nat :: j < n ==> j in out)
  }

  lemma FirstBlocks(n: nat, limit: nat)
    ensures Counted(Ascending(Min(limit, n), Upto(n)), n, limit, 0)
  {
    AscendingCong(Min(limit, n), Upto(n), Upto(Min(limit, n)));
    AscendingLength(Min(limit, n), Upto(Min(limit, n)));
    AscendingLists(Min(limit, n), Upto(n));
  }

  lemma AroundCount(n: nat, winners: seq<nat>, limit: nat, d: nat)
    requires |winners| == |Elems(winners)| == Min(limit, n)
    requires limit >= n ==> Elems(winners) == Upto(n)
    requires forall i :: i in winners ==> i < n
    ensures Counted(Ascending(n, Around(n, winners, d)), n, limit, d)
  {
    hide Around, Elems, Ascending, Upto;
    AroundBelow(n, winners, d);
    AroundSize(n, winners, d);
    AscendingLists(n, Around(n, winners, d));
    AscendingLength(n, Around(n, winners, d));
    AtMost(|winners|, limit, 2 * d + 1);
    CentersInside(n, winners, d);
    if d == 0 {
      AroundZero(n, winners);
    }
  }

  lemma AroundBelow(n: nat, winners: seq<nat>, d: nat)
    ensures forall j :: j in Around(n, winners, d) ==> j < n
  {
    AroundMembers(n, winners, d);
  }

  lemma AtMost(a: nat, b: nat, c: nat)
    requires a <= b
    ensures a * c <= b * c
  {
    assert (b - a) * c >= 0;
  }

  /** With neighbours, the limit is exceeded exactly when it cuts anything off. */
  lemma NeighboursExceedLimit(terms: string -> set<string>, contents: seq<string>, queries: seq<set<string>>,
                              limit: int, neighbours: int)
    requires limit > 0 && neighbours > 0 && queries != []
    ensures |Positions(terms, contents, queries, limit, neighbours)| > limit <==> limit < |contents|
  {
    hide Around, Ring, BlockWinners;
    var n := |contents|;
    PositionCount(terms, contents, queries, limit, neighbours);
    if limit < n {
      var winners := BlockWinners(terms, contents, queries, limit);
      WinnerFacts(terms, contents, queries, limit);
      CentersInside(n, winners, neighbours);
      AroundBelow(n, winners, neighbours);
      AscendingLength(n, Around(n, winners, neighbours));
      SubsetSize(Elems(winners), Around(n, winners, neighbours));
      assert |Upto(n)| == n;
      var j := Border(n, winners);
      BorderInside(n, winners, neighbours, j);
      assert j !in Elems(winners);
    }
  }

  /** A non-empty set of positions that is not all of them has an outside neighbour. */
  lemma Border(n: nat, winners: seq<nat>) returns (j: nat)
    requires winners != [] && Elems(winners) <= Upto(n) && Elems(winners) != Upto(n)
    ensures j < n && j !in winners && ((j > 0 && j - 1 in winners) || j + 1 in winners)
  {
    assert winners[0] in Elems(winners);
    var outside: nat :| outside in Upto(n) && outside !in Elems(winners);
    if 0 in winners {
      j := 1;
      while j in winners
        invariant 0 < j <= outside && j - 1 in winners
        decreases outside - j
      {
        assert j != outside;
        j := j + 1;
      }
    } else {
      j := winners[0] - 1;
      while j in winners
        invariant j < n && j + 1 in winners
        decreases j
      {
        j := j - 1;
      }
    }
  }

  lemma BorderInside(n: nat, winners: seq<nat>, d: nat, j: nat)
    requires d > 0 && j < n && ((j > 0 && j - 1 in winners) || j + 1 in winners)
    ensures j in Around(n, winners, d)
  {
    AroundMembers(n, winners, d);
    var i := if j > 0 && j - 1 in winners then j - 1 else j + 1;
    assert i in winners && j in Ring(i, d, n);
  }
}
