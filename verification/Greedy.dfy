/** The greedy maximal-marginal-relevance choice that the context ranker and both
    source selectors repeat: take the item with the largest score, where the score
    of an item falls with its overlap with what was taken before, ties going to the
    smaller index. Each caller builds a `Pool` with its own weights and features. */
module Greedy {
  import opened Basics

  /** `fit` weighs relevance and `spread` weighs overlap; `second` is the second
      component of the score tuple; the third component is the negated index. */
  datatype Pool = Pool(fit: real, spread: real, relevance: seq<real>, second: seq<real>, features: seq<set<string>>)

  /** Jaccard similarity of two feature sets, 0 when either is empty. */
  function Jaccard(a: set<string>, b: set<string>): (r: real)
    ensures 0.0 <= r <= 1.0
    ensures r == 1.0 <==> a == b && a != {}
    ensures r == 0.0 <==> a !! b
    ensures r * |a + b| as real == |a * b| as real
  {
    if a == {} || b == {} then 0.0
    else
      assert a <= a + b;
      SubsetSize(a, a + b); SubsetSize(a * b, a + b); SubsetSize(a * b, a); SubsetSize(b, a + b); SubsetSize(a * b, b);
      assert |a| > 0;
      QuotientBounds(|a * b|, |a + b|);
      (|a * b|) as real / |a + b| as real
  }

  lemma QuotientBounds(p: nat, q: nat)
    requires p <= q && q > 0
    ensures 0.0 <= p as real / q as real <= 1.0
    ensures p as real / q as real == 1.0 <==> p == q
    ensures p as real / q as real == 0.0 <==> p == 0
  {
    var r := p as real / q as real;
    assert r * q as real == p as real;
  }

  lemma JaccardSymmetric(a: set<string>, b: set<string>)
    ensures Jaccard(a, b) == Jaccard(b, a)
  {
    assert a * b == b * a && a + b == b + a;
  }

  function At(s: seq<real>, i: nat): real {
    if i < |s| then s[i] else 0.0
  }

  /** Overlap of two items of the pool. Positions outside it have no features. */
  function Overlap(p: Pool, i: nat, j: nat): (r: real)
    ensures 0.0 <= r <= 1.0
  {
    if i < |p.features| && j < |p.features| then Jaccard(p.features[i], p.features[j]) else 0.0
  }

  /** The largest overlap of item `i` with the chosen items, 0 when none is chosen. */
  function Penalty(p: Pool, i: nat, chosen: seq<nat>): real {
    if chosen == [] then 0.0
    else MaxReal(Penalty(p, i, chosen[..|chosen| - 1]), Overlap(p, i, chosen[|chosen| - 1]))
  }

  lemma {:induction false} PenaltyIsMaximum(p: Pool, i: nat, chosen: seq<nat>)
    ensures 0.0 <= Penalty(p, i, chosen) <= 1.0
    ensures forall j :: j in chosen ==> Overlap(p, i, j) <= Penalty(p, i, chosen)
    ensures chosen != [] ==> exists j :: j in chosen && Overlap(p, i, j) == Penalty(p, i, chosen)
  {
    if chosen != [] {
      var rest, last := chosen[..|chosen| - 1], chosen[|chosen| - 1];
      PenaltyIsMaximum(p, i, rest);
      assert chosen == rest + [last];
      assert last in chosen;
    }
  }

  /** The score tuple (marginal relevance, second component, -index). */
  datatype Score = Score(marginal: real, second: real, tie: int)

  function ScoreOf(p: Pool, chosen: seq<nat>, i: nat): Score {
    Score(p.fit * At(p.relevance, i) - p.spread * Penalty(p, i, chosen), At(p.second, i), -(i as int))
  }

  /** Tuples are compared component by component. */
  predicate Above(a: Score, b: Score) {
    || a.marginal > b.marginal
    || (a.marginal == b.marginal && a.second > b.second)
    || (a.marginal == b.marginal && a.second == b.second && a.tie > b.tie)
  }

  /** Choosing more items never raises the score of an item. */
  lemma {:induction false} MarginalNeverRises(p: Pool, i: nat, chosen: seq<nat>, more: seq<nat>)
    requires p.spread >= 0.0 && chosen <= more
    ensures ScoreOf(p, more, i).marginal <= ScoreOf(p, chosen, i).marginal
  {
    hide Penalty, At;
    PenaltyGrows(p, i, chosen, more);
    Weighing(p.spread, Penalty(p, i, chosen), Penalty(p, i, more));
  }

  lemma Weighing(w: real, a: real, b: real)
    ensures w >= 0.0 && a <= b ==> w * a <= w * b
    ensures w > 0.0 && a < b ==> w * a < w * b
  {
    if w >= 0.0 && a <= b {
      assert w * (b - a) >= 0.0;
    }
    if w > 0.0 && a < b {
      assert w * (b - a) > 0.0;
    }
  }

  lemma {:induction false} PenaltyGrows(p: Pool, i: nat, chosen: seq<nat>, more: seq<nat>)
    requires chosen <= more
    ensures Penalty(p, i, chosen) <= Penalty(p, i, more)
    decreases |more|
  {
    if chosen != more {
      PenaltyGrows(p, i, chosen, more[..|more| - 1]);
    }
  }

  ghost predicate IsWinner(p: Pool, chosen: seq<nat>, pool: set<nat>, w: nat) {
    w in pool && forall j :: j in pool && j != w ==> Above(ScoreOf(p, chosen, w), ScoreOf(p, chosen, j))
  }

  /** A winner stays one when a single item joins the pool, unless that item beats it. */
  lemma Challenge(p: Pool, chosen: seq<nat>, pool: set<nat>, w: nat, x: nat)
    requires IsWinner(p, chosen, pool, w) && x !in pool
    ensures IsWinner(p, chosen, pool + {x}, if Above(ScoreOf(p, chosen, x), ScoreOf(p, chosen, w)) then x else w)
  {
    var sx, sw := ScoreOf(p, chosen, x), ScoreOf(p, chosen, w);
    assert sx.tie != sw.tie;
    forall j | j in pool && j != w && Above(sx, sw) ensures Above(sx, ScoreOf(p, chosen, j)) {
      assert Above(sw, ScoreOf(p, chosen, j));
    }
  }

  /** Whether a visited item is taken: always without a threshold; with one, when
      nothing was taken yet or its largest overlap stays below the threshold. */
  predicate Novel(p: Pool, threshold: Option<real>, chosen: seq<nat>, w: nat) {
    threshold.None? || chosen == [] || Penalty(p, w, chosen) < threshold.value
  }

  /** The items taken among those visited. */
  function Kept(p: Pool, threshold: Option<real>, visits: seq<nat>): seq<nat> {
    if visits == [] then []
    else
      var before := Kept(p, threshold, visits[..|visits| - 1]);
      var w := visits[|visits| - 1];
      if Novel(p, threshold, before, w) then before + [w] else before
  }

  /** Every visit goes to the winner among the items not visited yet, given what was
      taken before it, and happens only while fewer than `limit` items are taken. */
  ghost predicate GreedySteps(p: Pool, threshold: Option<real>, limit: int, pool: set<nat>, visits: seq<nat>) {
    forall k :: 0 <= k < |visits| ==>
      && |Kept(p, threshold, visits[..k])| < limit
      && IsWinner(p, Kept(p, threshold, visits[..k]), pool - Elems(visits[..k]), visits[k])
  }

  /** ... and the visits go on until the pool or the limit is exhausted. */
  ghost predicate GreedyOrder(p: Pool, threshold: Option<real>, limit: int, pool: set<nat>, visits: seq<nat>) {
    && GreedySteps(p, threshold, limit, pool, visits)
    && (pool - Elems(visits) == {} || |Kept(p, threshold, visits)| >= limit)
  }

  /** `max(pool, key=score)`: the scan visits the pool in an arbitrary order. */
  method PickWinner(p: Pool, chosen: seq<nat>, pool: set<nat>) returns (w: nat)
    requires pool != {}
    ensures w in pool && IsWinner(p, chosen, pool, w)
  {
    w :| w in pool;
    var rest := pool - {w};
    while rest != {}
      invariant rest <= pool
      invariant IsWinner(p, chosen, pool - rest, w)
      decreases rest
    {
      var j :| j in rest;
      Challenge(p, chosen, pool - rest, w, j);
      assert pool - (rest - {j}) == pool - rest + {j};
      if Above(ScoreOf(p, chosen, j), ScoreOf(p, chosen, w)) {
        w := j;
      }
      rest := rest - {j};
    }
    assert pool - rest == pool;
  }

  lemma {:induction false} WinnerExists(p: Pool, chosen: seq<nat>, pool: set<nat>)
    requires pool != {}
    ensures exists w :: IsWinner(p, chosen, pool, w)
    decreases pool
  {
    var x :| x in pool;
    if pool == {x} {
      assert IsWinner(p, chosen, pool, x);
    } else {
      WinnerExists(p, chosen, pool - {x});
      var w :| IsWinner(p, chosen, pool - {x}, w);
      Challenge(p, chosen, pool - {x}, w, x);
      assert pool - {x} + {x} == pool;
    }
  }

  lemma WinnerUnique(p: Pool, chosen: seq<nat>, pool: set<nat>, v: nat, w: nat)
    requires IsWinner(p, chosen, pool, v) && IsWinner(p, chosen, pool, w)
    ensures v == w
  {
  }

  /** One more visit to a winner keeps the steps greedy. */
  lemma StepExtends(p: Pool, threshold: Option<real>, limit: int, pool: set<nat>, visits: seq<nat>, w: nat)
    requires GreedySteps(p, threshold, limit, pool, visits)
    requires |Kept(p, threshold, visits)| < limit
    requires IsWinner(p, Kept(p, threshold, visits), pool - Elems(visits), w)
    ensures GreedySteps(p, threshold, limit, pool, visits + [w])
    ensures Kept(p, threshold, visits + [w])
         == if Novel(p, threshold, Kept(p, threshold, visits), w) then Kept(p, threshold, visits) + [w]
            else Kept(p, threshold, visits)
  {
    var v := visits + [w];
    assert v[..|v| - 1] == visits;
    forall k | 0 <= k < |v|
      ensures |Kept(p, threshold, v[..k])| < limit
           && IsWinner(p, Kept(p, threshold, v[..k]), pool - Elems(v[..k]), v[k])
    {
      if k < |visits| {
        assert v[..k] == visits[..k];
      }
    }
  }

  lemma NoRounds(p: Pool, threshold: Option<real>, limit: int, pool: set<nat>)
    ensures GreedySteps(p, threshold, limit, pool, [])
    ensures Kept(p, threshold, []) == [] && Elems([]) == {}
  {
  }

  /** One round of a selection loop, seen from the values it maintains. */
  lemma RoundDone(p: Pool, threshold: Option<real>, limit: int, pool: set<nat>, visits: seq<nat>, best: nat)
    requires GreedySteps(p, threshold, limit, pool, visits)
    requires |Kept(p, threshold, visits)| < limit
    requires IsWinner(p, Kept(p, threshold, visits), pool - Elems(visits), best)
    ensures var taken, taken' := Kept(p, threshold, visits), Kept(p, threshold, visits + [best]);
      && GreedySteps(p, threshold, limit, pool, visits + [best])
      && pool - Elems(visits + [best]) == pool - Elems(visits) - {best}
      && taken' == (if Novel(p, threshold, taken, best) then taken + [best] else taken)
      && Elems(visits + [best]) - Elems(taken')
         == if Novel(p, threshold, taken, best) then Elems(visits) - Elems(taken)
            else Elems(visits) - Elems(taken) + {best}
  {
    hide GreedySteps, Kept, Novel, ScoreOf, Above;
    KeptWithin(p, threshold, visits);
    StepExtends(p, threshold, limit, pool, visits, best);
    var taken := Kept(p, threshold, visits);
    ElemsAppend(visits, best);
    ElemsAppend(taken, best);
    AddBoth(pool, Elems(visits), Elems(taken), best);
  }

  lemma {:induction false} GreedyExists(p: Pool, threshold: Option<real>, limit: int, pool: set<nat>, prefix: seq<nat>)
    requires GreedySteps(p, threshold, limit, pool, prefix)
    ensures exists visits :: GreedyOrder(p, threshold, limit, pool, visits)
    decreases pool - Elems(prefix)
  {
    if pool - Elems(prefix) == {} || |Kept(p, threshold, prefix)| >= limit {
      assert GreedyOrder(p, threshold, limit, pool, prefix);
    } else {
      WinnerExists(p, Kept(p, threshold, prefix), pool - Elems(prefix));
      var w :| IsWinner(p, Kept(p, threshold, prefix), pool - Elems(prefix), w);
      StepExtends(p, threshold, limit, pool, prefix, w);
      assert Elems(prefix + [w]) == Elems(prefix) + {w};
      GreedyExists(p, threshold, limit, pool, prefix + [w]);
    }
  }

  /** Two greedy orders agree as far as both go. */
  lemma {:induction false} StepsAgree(p: Pool, threshold: Option<real>, limit: int, pool: set<nat>,
                                      v: seq<nat>, w: seq<nat>, k: nat)
    requires GreedySteps(p, threshold, limit, pool, v) && GreedySteps(p, threshold, limit, pool, w)
    requires k <= |v| && k <= |w|
    ensures v[..k] == w[..k]
  {
    hide IsWinner, Kept;
    if k > 0 {
      StepsAgree(p, threshold, limit, pool, v, w, k - 1);
      assert v[..k] == v[..k - 1] + [v[k - 1]] && w[..k] == w[..k - 1] + [w[k - 1]];
      WinnerUnique(p, Kept(p, threshold, v[..k - 1]), pool - Elems(v[..k - 1]), v[k - 1], w[k - 1]);
    }
  }

  /** The greedy order is determined by the pool alone: no two lists that take a
      maximal item at every step and stop for the same reason can differ. */
  lemma GreedyOrderUnique(p: Pool, threshold: Option<real>, limit: int, pool: set<nat>, v: seq<nat>, w: seq<nat>)
    requires GreedyOrder(p, threshold, limit, pool, v) && GreedyOrder(p, threshold, limit, pool, w)
    ensures v == w
  {
    hide Kept;
    var n := Min(|v|, |w|);
    StepsAgree(p, threshold, limit, pool, v, w, n);
    NoFurther(p, threshold, limit, pool, v, w);
    NoFurther(p, threshold, limit, pool, w, v);
    assert v[..|v|] == v && w[..|w|] == w;
  }

  lemma StepPossible(p: Pool, threshold: Option<real>, limit: int, pool: set<nat>, w: seq<nat>, k: nat)
    requires GreedySteps(p, threshold, limit, pool, w) && k < |w|
    ensures pool - Elems(w[..k]) != {} && |Kept(p, threshold, w[..k])| < limit
  {
    assert IsWinner(p, Kept(p, threshold, w[..k]), pool - Elems(w[..k]), w[k]);
  }

  /** Nothing continues a finished greedy order. */
  lemma NoFurther(p: Pool, threshold: Option<real>, limit: int, pool: set<nat>, v: seq<nat>, w: seq<nat>)
    requires GreedyOrder(p, threshold, limit, pool, v) && GreedySteps(p, threshold, limit, pool, w)
    ensures |v| <= |w| && w[..|v|] == v ==> w == v
  {
    if |v| < |w| {
      StepPossible(p, threshold, limit, pool, w, |v|);
    }
    assert w[..|w|] == w;
  }

  /** The order of visits, and the items taken, that every greedy run produces. */
  ghost function Visits(p: Pool, threshold: Option<real>, limit: int, pool: set<nat>): (v: seq<nat>)
    ensures GreedyOrder(p, threshold, limit, pool, v)
  {
    GreedyExists(p, threshold, limit, pool, []);
    var v :| GreedyOrder(p, threshold, limit, pool, v);
    v
  }

  ghost function Selection(p: Pool, threshold: Option<real>, limit: int, pool: set<nat>): seq<nat> {
    Kept(p, threshold, Visits(p, threshold, limit, pool))
  }

  /** The selection loop: at each round the winner is taken or, when it is too close to
      something taken before, dropped. */
  method Select(p: Pool, threshold: Option<real>, limit: int, pool: set<nat>) returns (selected: seq<nat>)
    ensures selected == Selection(p, threshold, limit, pool)
  {
    hide *;
    selected := [];
    var remaining := pool;
    ghost var visits: seq<nat> := [];
    NoRounds(p, threshold, limit, pool);
    while remaining != {} && |selected| < limit
      invariant remaining == pool - Elems(visits)
      invariant GreedySteps(p, threshold, limit, pool, visits)
      invariant selected == Kept(p, threshold, visits)
      decreases remaining
    {
      var winner := PickWinner(p, selected, remaining);
      RoundDone(p, threshold, limit, pool, visits, winner);
      if Novel(p, threshold, selected, winner) {
        selected := selected + [winner];
      }
      visits := visits + [winner];
      remaining := remaining - {winner};
    }
    Finished(p, threshold, limit, pool, visits);
    IsSelection(p, threshold, limit, pool, visits);
  }

  lemma Finished(p: Pool, threshold: Option<real>, limit: int, pool: set<nat>, visits: seq<nat>)
    requires GreedySteps(p, threshold, limit, pool, visits)
    requires pool - Elems(visits) == {} || |Kept(p, threshold, visits)| >= limit
    ensures GreedyOrder(p, threshold, limit, pool, visits)
  {
  }

  lemma IsSelection(p: Pool, threshold: Option<real>, limit: int, pool: set<nat>, visits: seq<nat>)
    requires GreedyOrder(p, threshold, limit, pool, visits)
    ensures Kept(p, threshold, visits) == Selection(p, threshold, limit, pool)
  {
    GreedyOrderUnique(p, threshold, limit, pool, visits, Visits(p, threshold, limit, pool));
  }

  // ----- What a greedy selection guarantees -----

  /** Each item taken was the winner of a visit made when exactly the items taken before it
      had been taken. */
  lemma {:induction false} KeptVisit(p: Pool, threshold: Option<real>, v: seq<nat>, k: nat) returns (n: nat)
    requires k < |Kept(p, threshold, v)|
    ensures n < |v| && v[n] == Kept(p, threshold, v)[k]
    ensures Kept(p, threshold, v[..n]) == Kept(p, threshold, v)[..k]
  {
    var rest := v[..|v| - 1];
    if k < |Kept(p, threshold, rest)| {
      n := KeptVisit(p, threshold, rest, k);
      assert rest[..n] == v[..n];
    } else {
      n := |v| - 1;
    }
  }

  /** Each item taken has the largest score among all items that were still to be had: those
      of the pool not taken before it and, under a threshold, still novel. */
  lemma SelectionTakesBest(p: Pool, threshold: Option<real>, limit: int, pool: set<nat>, k: nat, j: nat)
    requires k < |Selection(p, threshold, limit, pool)|
    requires var before := Selection(p, threshold, limit, pool)[..k];
      j in pool && j !in before && Novel(p, threshold, before, j)
    ensures var s := Selection(p, threshold, limit, pool);
      s[k] == j || Above(ScoreOf(p, s[..k], s[k]), ScoreOf(p, s[..k], j))
  {
    hide ScoreOf, Above;
    var v := Visits(p, threshold, limit, pool);
    var n := KeptVisit(p, threshold, v, k);
    var before := Kept(p, threshold, v[..n]);
    if j in v[..n] {
      DroppedNotNovel(p, threshold, v[..n], j);
    }
    assert IsWinner(p, before, pool - Elems(v[..n]), v[n]);
  }

  lemma DroppedNotNovel(p: Pool, threshold: Option<real>, v: seq<nat>, j: nat)
    requires j in v && j !in Kept(p, threshold, v)
    ensures !Novel(p, threshold, Kept(p, threshold, v), j)
  {
    if threshold.None? {
      KeptAll(p, v);
      assert false;
    } else {
      DroppedHasWitness(p, threshold.value, v, j);
      PenaltyIsMaximum(p, j, Kept(p, threshold, v));
    }
  }

  /** `x` is the largest of the overlaps that `overlap` gives with the chosen items, 0 when
      none is chosen. */
  ghost predicate IsLargest(chosen: seq<nat>, overlap: nat -> real, x: real) {
    if chosen == [] then x == 0.0
    else (exists c :: c in chosen && overlap(c) == x) && forall c :: c in chosen ==> overlap(c) <= x
  }

  lemma PenaltyIsLargest(p: Pool, i: nat, chosen: seq<nat>, overlap: nat -> real, x: real)
    requires IsLargest(chosen, overlap, x)
    requires forall c :: c in chosen ==> overlap(c) == Overlap(p, i, c)
    ensures Penalty(p, i, chosen) == x
  {
    hide Overlap;
    PenaltyIsMaximum(p, i, chosen);
  }

  lemma {:induction false} VisitsDistinct(p: Pool, threshold: Option<real>, limit: int, pool: set<nat>, v: seq<nat>)
    requires GreedySteps(p, threshold, limit, pool, v)
    ensures Elems(v) <= pool && |Elems(v)| == |v|
    ensures Distinct(v)
  {
    forall k | 0 <= k < |v| ensures v[k] in pool && v[k] !in v[..k] {
      assert IsWinner(p, Kept(p, threshold, v[..k]), pool - Elems(v[..k]), v[k]);
    }
    forall a, b | 0 <= a < b < |v| ensures v[a] != v[b] {
      assert v[b] !in v[..b];
      assert v[a] == v[..b][a];
    }
    DistinctSize(v);
  }

  /** Items taken are visited items, in the order of the visits. */
  lemma {:induction false} KeptWithin(p: Pool, threshold: Option<real>, v: seq<nat>)
    ensures forall x :: x in Kept(p, threshold, v) ==> x in v
    ensures |Kept(p, threshold, v)| <= |v|
  {
    if v != [] {
      var rest := v[..|v| - 1];
      KeptWithin(p, threshold, rest);
      assert v == rest + [v[|v| - 1]];
      forall x | x in Kept(p, threshold, v) ensures x in v {
        assert x in Kept(p, threshold, rest) || x == v[|v| - 1];
      }
    }
  }

  lemma {:induction false} KeptDistinct(p: Pool, threshold: Option<real>, v: seq<nat>)
    requires Distinct(v)
    ensures Distinct(Kept(p, threshold, v))
  {
    if v != [] {
      var rest, last := v[..|v| - 1], v[|v| - 1];
      KeptDistinct(p, threshold, rest);
      KeptWithin(p, threshold, rest);
      assert last !in rest;
      DistinctAppend(Kept(p, threshold, rest), last);
    }
  }

  /** Without a threshold every visited item is taken. */
  lemma {:induction false} KeptAll(p: Pool, v: seq<nat>)
    ensures Kept(p, None, v) == v
  {
    if v != [] {
      KeptAll(p, v[..|v| - 1]);
      assert v == v[..|v| - 1] + [v[|v| - 1]];
    }
  }

  /** Any two taken items overlap strictly less than the threshold. */
  lemma {:induction false} TakenAreNovel(p: Pool, t: real, v: seq<nat>)
    ensures Spread(p, t, Kept(p, Some(t), v))
  {
    if v != [] {
      var rest := v[..|v| - 1];
      TakenAreNovel(p, t, rest);
      PenaltyIsMaximum(p, v[|v| - 1], Kept(p, Some(t), rest));
    }
  }

  ghost predicate Spread(p: Pool, t: real, s: seq<nat>) {
    forall a, b :: 0 <= a < b < |s| ==> Overlap(p, s[b], s[a]) < t
  }

  /** A visited item that was not taken overlaps a taken one at least by the threshold. */
  lemma {:induction false} DroppedHasWitness(p: Pool, t: real, v: seq<nat>, x: nat)
    requires x in v && x !in Kept(p, Some(t), v)
    ensures exists y :: y in Kept(p, Some(t), v) && Overlap(p, x, y) >= t
  {
    var rest, last := v[..|v| - 1], v[|v| - 1];
    assert v == rest + [last];
    var before := Kept(p, Some(t), rest);
    if x in rest {
      DroppedHasWitness(p, t, rest, x);
      var y :| y in before && Overlap(p, x, y) >= t;
      assert y in Kept(p, Some(t), v);
    } else {
      assert x == last && !Novel(p, Some(t), before, last);
      PenaltyIsMaximum(p, x, before);
      var y :| y in before && Overlap(p, x, y) == Penalty(p, x, before);
      assert y in Kept(p, Some(t), v);
    }
  }

  /** With a limit and no threshold, the selection takes min(limit, |pool|) distinct items
      of the pool, each the winner among those left. */
  ghost predicate WinnersInTurn(p: Pool, pool: set<nat>, s: seq<nat>) {
    forall k :: 0 <= k < |s| ==> IsWinner(p, s[..k], pool - Elems(s[..k]), s[k])
  }

  lemma UnprunedSteps(p: Pool, limit: int, pool: set<nat>, s: seq<nat>)
    ensures GreedySteps(p, None, limit, pool, s)
       <==> WinnersInTurn(p, pool, s) && (|s| <= limit || s == [])
  {
    forall k | 0 <= k <= |s| ensures Kept(p, None, s[..k]) == s[..k] {
      KeptAll(p, s[..k]);
    }
    if GreedySteps(p, None, limit, pool, s) && s != [] {
      assert |Kept(p, None, s[..|s| - 1])| < limit;
    }
  }

  lemma UnprunedSelection(p: Pool, limit: int, pool: set<nat>)
    requires limit >= 0
    ensures var s := Selection(p, None, limit, pool);
      && WinnersInTurn(p, pool, s)
      && |s| == Min(limit, |pool|)
      && Distinct(s)
      && Elems(s) <= pool
      && (limit >= |pool| ==> Elems(s) == pool)
  {
    var v := Visits(p, None, limit, pool);
    KeptAll(p, v);
    UnprunedOrder(p, limit, pool, v);
  }

  lemma UnprunedOrder(p: Pool, limit: int, pool: set<nat>, v: seq<nat>)
    requires limit >= 0 && GreedyOrder(p, None, limit, pool, v)
    ensures WinnersInTurn(p, pool, v) && Distinct(v) && Elems(v) <= pool
    ensures |v| == Min(limit, |pool|)
    ensures limit >= |pool| ==> Elems(v) == pool
  {
    hide GreedySteps, Kept, WinnersInTurn, Distinct;
    KeptAll(p, v);
    UnprunedSteps(p, limit, pool, v);
    VisitsDistinct(p, None, limit, pool, v);
    SubsetSize(Elems(v), pool);
    if pool - Elems(v) == {} {
      NothingLeft(pool, Elems(v));
    }
  }

  /** The first item taken has the largest relevance, then the largest second component,
      and among equals the smallest index. */
  lemma FirstIsMostRelevant(p: Pool, threshold: Option<real>, limit: int, pool: set<nat>, j: nat)
    requires p.fit > 0.0 && limit > 0 && j in pool
    ensures var s := Selection(p, threshold, limit, pool);
      && s != [] && s[0] in pool
      && (j != s[0] ==>
            || At(p.relevance, s[0]) > At(p.relevance, j)
            || (At(p.relevance, s[0]) == At(p.relevance, j)
                && (At(p.second, s[0]) > At(p.second, j) || (At(p.second, s[0]) == At(p.second, j) && s[0] < j))))
  {
    hide ScoreOf, Above;
    var v := Visits(p, threshold, limit, pool);
    NoRounds(p, threshold, limit, pool);
    assert v != [];
    assert v[..0] == [];
    assert IsWinner(p, [], pool - Elems([]), v[0]);
    FirstKept(p, threshold, v);
    var w := v[0];
    if j != w {
      assert Above(ScoreOf(p, [], w), ScoreOf(p, [], j));
      FirstScores(p, w, j);
    }
  }

  lemma FirstScores(p: Pool, w: nat, j: nat)
    requires p.fit > 0.0 && Above(ScoreOf(p, [], w), ScoreOf(p, [], j))
    ensures || At(p.relevance, w) > At(p.relevance, j)
            || (At(p.relevance, w) == At(p.relevance, j)
                && (At(p.second, w) > At(p.second, j) || (At(p.second, w) == At(p.second, j) && w < j)))
  {
    hide At;
    Weighing(p.fit, At(p.relevance, w), At(p.relevance, j));
    Weighing(p.fit, At(p.relevance, j), At(p.relevance, w));
  }

  /** The first item visited is taken. */
  lemma {:induction false} FirstKept(p: Pool, threshold: Option<real>, v: seq<nat>)
    requires v != []
    ensures Kept(p, threshold, v) != [] && Kept(p, threshold, v)[0] == v[0]
  {
    if |v| > 1 {
      FirstKept(p, threshold, v[..|v| - 1]);
    } else {
      assert v[..0] == [];
    }
  }

  /** The converse: a list of that length that takes a winner at every step is the selection. */
  lemma UnprunedSelectionUnique(p: Pool, limit: int, pool: set<nat>, s: seq<nat>)
    requires limit >= 0 && |s| == Min(limit, |pool|)
    requires WinnersInTurn(p, pool, s)
    ensures s == Selection(p, None, limit, pool)
  {
    KeptAll(p, s);
    UnprunedSteps(p, limit, pool, s);
    VisitsDistinct(p, None, limit, pool, s);
    SubsetSize(Elems(s), pool);
    GreedyOrderUnique(p, None, limit, pool, s, Visits(p, None, limit, pool));
  }
}
