/** Closure of gap requirements and the split of the coverage shortfall over its causes,
    before rounding. */
module CoverageLoss {
  import opened Basics

  datatype GapRow = GapRow(dimensionKey: Option<string>,
                           requiredEvidence: int, requiredSources: int,
                           currentEvidence: int, currentSources: int,
                           currentCoverage: real, requiredCoverage: Option<real>)

  datatype State = Closed | Open | Partial

  datatype Cause = MissingCandidateEvidence | MissingIndependentSource | CoverageBelowRequired

  const TOLERANCE := 0.000000001

  function EffectiveState(r: GapRow): State {
    var coverageFull := r.requiredCoverage.None? || r.currentCoverage >= r.requiredCoverage.value - TOLERANCE;
    if coverageFull && r.currentEvidence >= r.requiredEvidence && r.currentSources >= r.requiredSources then Closed
    else if r.currentCoverage <= TOLERANCE && r.currentEvidence == 0 then Open
    else Partial
  }

  /** The unmet criteria of a requirement. */
  function Causes(r: GapRow): set<Cause> {
    (if r.currentEvidence < r.requiredEvidence then {MissingCandidateEvidence} else {})
    + (if r.currentSources < r.requiredSources then {MissingIndependentSource} else {})
    + (if r.requiredCoverage.Some? && r.currentCoverage < r.requiredCoverage.value - TOLERANCE
       then {CoverageBelowRequired} else {})
  }

  method BlockingCauses(r: GapRow) returns (causes: seq<Cause>)
    ensures forall c :: c in causes <==> c in Causes(r)
    ensures MissingCandidateEvidence in causes <==> r.currentEvidence < r.requiredEvidence
    ensures MissingIndependentSource in causes <==> r.currentSources < r.requiredSources
    ensures CoverageBelowRequired in causes <==>
      r.requiredCoverage.Some? && r.currentCoverage + TOLERANCE < r.requiredCoverage.value
    ensures forall i, j :: 0 <= i < j < |causes| ==> causes[i] != causes[j]
  {
    causes := [];
    if r.currentEvidence < r.requiredEvidence {
      causes := causes + [MissingCandidateEvidence];
    }
    if r.currentSources < r.requiredSources {
      causes := causes + [MissingIndependentSource];
    }
    if r.requiredCoverage.Some? && r.currentCoverage < r.requiredCoverage.value - TOLERANCE {
      causes := causes + [CoverageBelowRequired];
    }
  }

  function One(b: bool): nat {
    if b then 1 else 0
  }

  lemma CauseCount(s: set<Cause>)
    ensures |s|
        == One(MissingCandidateEvidence in s) + One(MissingIndependentSource in s) + One(CoverageBelowRequired in s)
  {
    var a, b, c := MissingCandidateEvidence, MissingIndependentSource, CoverageBelowRequired;
    var t := (if a in s then {a} else {}) + (if b in s then {b} else {}) + (if c in s then {c} else {});
    forall x ensures x in s <==> x in t {
      assert x == a || x == b || x == c;
    }
    assert s == t;
  }

  /** A requirement contributes a cause exactly when it is not closed. */
  lemma ClosedExactly(r: GapRow)
    ensures Causes(r) == {} <==> EffectiveState(r) == Closed
  {
    assert r.currentEvidence < r.requiredEvidence ==> MissingCandidateEvidence in Causes(r);
    assert r.currentSources < r.requiredSources ==> MissingIndependentSource in Causes(r);
    assert r.requiredCoverage.Some? && r.currentCoverage < r.requiredCoverage.value - TOLERANCE ==>
        CoverageBelowRequired in Causes(r);
  }

  /** What blocks a requirement, by what it lacks, and what its state says. */
  lemma CausesAndState(r: GapRow)
    ensures MissingCandidateEvidence in Causes(r) <==> r.currentEvidence < r.requiredEvidence
    ensures MissingIndependentSource in Causes(r) <==> r.currentSources < r.requiredSources
    ensures CoverageBelowRequired in Causes(r) <==>
      r.requiredCoverage.Some? && r.currentCoverage + 0.000000001 < r.requiredCoverage.value
    ensures EffectiveState(r) == Closed <==>
      && r.currentEvidence >= r.requiredEvidence && r.currentSources >= r.requiredSources
      && (r.requiredCoverage.Some? ==> r.currentCoverage + 0.000000001 >= r.requiredCoverage.value)
    ensures EffectiveState(r) == Open <==>
      EffectiveState(r) != Closed && r.currentEvidence == 0 && r.currentCoverage <= 0.000000001
  {
  }

  // ----- The definition of the loss -----

  function Dimension(r: GapRow): string {
    OrNone(r.dimensionKey)
  }

  function Shortfall(r: GapRow): real {
    if r.requiredCoverage.None? || r.requiredCoverage.value == 0.0 then 0.0
    else MaxReal(r.requiredCoverage.value - r.currentCoverage, 0.0)
  }

  /** How far a requirement's coverage is from what it requires, if it requires any. */
  ghost predicate ShortfallIs(r: GapRow, x: real) {
    && x >= 0.0
    && (r.requiredCoverage.None? ==> x == 0.0)
    && (r.requiredCoverage.Some? && r.requiredCoverage.value != 0.0 ==>
          && r.currentCoverage + x >= r.requiredCoverage.value
          && (x > 0.0 ==> r.currentCoverage + x == r.requiredCoverage.value))
    && (r.requiredCoverage == Some(0.0) ==> x == 0.0)
  }

  lemma ShortfallExactly(r: GapRow)
    ensures ShortfallIs(r, Shortfall(r))
  {
  }

  function Dimensions(rows: seq<GapRow>): set<string> {
    set r | r in rows :: Dimension(r)
  }

  predicate Blocks(r: GapRow, dim: string) {
    Dimension(r) == dim && EffectiveState(r) != Closed
  }

  function BlockedDimensions(rows: seq<GapRow>): set<string> {
    set r | r in rows && EffectiveState(r) != Closed :: Dimension(r)
  }

  /** All causes of the requirements of a dimension. */
  function CausesOf(rows: seq<GapRow>, dim: string): set<Cause> {
    set r, c | r in rows && Dimension(r) == dim && c in Causes(r) :: c
  }

  /** The worst shortfall among the blocked requirements of a dimension. */
  function Worst(rows: seq<GapRow>, dim: string): real {
    if rows == [] then 0.0
    else
      var last := rows[|rows| - 1];
      var before := Worst(rows[..|rows| - 1], dim);
      if Blocks(last, dim) then MaxReal(before, Shortfall(last)) else before
  }

  lemma {:induction false} WorstIsMaximum(rows: seq<GapRow>, dim: string)
    ensures Worst(rows, dim) >= 0.0
    ensures forall r :: r in rows && Blocks(r, dim) ==> Shortfall(r) <= Worst(rows, dim)
    ensures Worst(rows, dim) == 0.0 || exists r :: r in rows && Blocks(r, dim) && Shortfall(r) == Worst(rows, dim)
  {
    hide Blocks, Shortfall;
    if rows != [] {
      var rest, last := rows[..|rows| - 1], rows[|rows| - 1];
      assert rows == rest + [last];
      assert forall r :: r in rows <==> r in rest || r == last;
      WorstIsMaximum(rest, dim);
    }
  }

  /** A dimension's shortfall is spread over the number of dimensions, since the aggregate
      is their mean. */
  function Points(rows: seq<GapRow>, dim: string): real {
    Worst(rows, dim) / Max(|Dimensions(rows)|, 1) as real
  }

  /** The share of a dimension's points that goes to one of its causes. */
  function ShareOf(rows: seq<GapRow>, cause: Cause, dim: string): real {
    if cause in CausesOf(rows, dim) then Points(rows, dim) * (1.0 / |CausesOf(rows, dim)| as real) else 0.0
  }

  function PointsIn(rows: seq<GapRow>): string -> real {
    d => Points(rows, d)
  }

  function ShareIn(rows: seq<GapRow>, cause: Cause): string -> real {
    d => ShareOf(rows, cause, d)
  }

  ghost function TotalGap(rows: seq<GapRow>): real {
    SumOver(BlockedDimensions(rows), PointsIn(rows))
  }

  ghost function Impact(rows: seq<GapRow>, cause: Cause): real {
    SumOver(BlockedDimensions(rows), ShareIn(rows, cause))
  }

  // ----- The counts -----

  function ClosedFlags(rows: seq<GapRow>): seq<bool> {
    seq(|rows|, i requires 0 <= i < |rows| => EffectiveState(rows[i]) == Closed)
  }

  function UncoveredFlags(rows: seq<GapRow>): seq<bool> {
    seq(|rows|, i requires 0 <= i < |rows| => Causes(rows[i]) != {})
  }

  function CauseFlags(rows: seq<GapRow>, cause: Cause): seq<bool> {
    seq(|rows|, i requires 0 <= i < |rows| => cause in Causes(rows[i]))
  }

  function CountAt(counts: map<Cause, nat>, c: Cause): nat {
    if c in counts then counts[c] else 0
  }

  /** The uncovered requirements and how many of them each cause blocks. */
  ghost predicate Counted(rows: seq<GapRow>, uncovered: nat, counts: map<Cause, nat>) {
    && uncovered == CountTrue(UncoveredFlags(rows))
    && forall c :: CountAt(counts, c) == CountTrue(CauseFlags(rows, c))
  }

  lemma NothingCounted()
    ensures Counted([], 0, map[])
  {
  }

  lemma CountRow(rows: seq<GapRow>, r: GapRow, uncovered: nat, counts: map<Cause, nat>, counts': map<Cause, nat>)
    requires Counted(rows, uncovered, counts)
    requires forall c :: CountAt(counts', c) == CountAt(counts, c) + (if c in Causes(r) then 1 else 0)
    ensures Counted(rows + [r], uncovered + (if Causes(r) != {} then 1 else 0), counts')
  {
    hide Causes, CountAt, CountTrue;
    var all := rows + [r];
    assert UncoveredFlags(all) == UncoveredFlags(rows) + [Causes(r) != {}];
    CountTrueSnoc(UncoveredFlags(rows), Causes(r) != {});
    forall c ensures CountAt(counts', c) == CountTrue(CauseFlags(all, c)) {
      assert CauseFlags(all, c) == CauseFlags(rows, c) + [c in Causes(r)];
      CountTrueSnoc(CauseFlags(rows, c), c in Causes(r));
    }
  }

  /** One more for each of the causes. */
  method Tally(counts: map<Cause, nat>, blocking: seq<Cause>) returns (r: map<Cause, nat>)
    requires forall i, j :: 0 <= i < j < |blocking| ==> blocking[i] != blocking[j]
    ensures forall c :: CountAt(r, c) == CountAt(counts, c) + (if c in blocking then 1 else 0)
  {
    r := counts;
    for k := 0 to |blocking|
      invariant forall c :: CountAt(r, c) == CountAt(counts, c) + (if c in blocking[..k] then 1 else 0)
    {
      assert blocking[k] !in blocking[..k];
      assert blocking[..k + 1] == blocking[..k] + [blocking[k]];
      r := r[blocking[k] := CountAt(r, blocking[k]) + 1];
    }
    assert blocking[..|blocking|] == blocking;
  }

  /** Every requirement is closed or counted as uncovered, and never both. */
  lemma ClosedOrUncovered(rows: seq<GapRow>)
    ensures CountTrue(ClosedFlags(rows)) + CountTrue(UncoveredFlags(rows)) == |rows|
  {
    hide Causes, EffectiveState, CountTrue;
    forall i | 0 <= i < |rows| ensures ClosedFlags(rows)[i] <==> !UncoveredFlags(rows)[i] {
      ClosedExactly(rows[i]);
    }
    CountTrueSplits(ClosedFlags(rows), UncoveredFlags(rows), Truths(|rows|));
    CountTruths(|rows|);
  }

  /** No cause blocks more requirements than are uncovered, and together the causes block
      at least as many. */
  lemma {:induction false} CausesCoverUncovered(rows: seq<GapRow>)
    ensures forall c :: CountTrue(CauseFlags(rows, c)) <= CountTrue(UncoveredFlags(rows))
    ensures CountTrue(UncoveredFlags(rows))
         <= CountTrue(CauseFlags(rows, MissingCandidateEvidence))
              + CountTrue(CauseFlags(rows, MissingIndependentSource))
            + CountTrue(CauseFlags(rows, CoverageBelowRequired))
  {
    hide Causes;
    if rows != [] {
      var rest, last := rows[..|rows| - 1], rows[|rows| - 1];
      CausesCoverUncovered(rest);
      assert UncoveredFlags(rows)[..|rest|] == UncoveredFlags(rest);
      forall c ensures CauseFlags(rows, c)[..|rest|] == CauseFlags(rest, c) {
      }
      CauseCount(Causes(last));
      if Causes(last) != {} {
        var c :| c in Causes(last);
        assert c == MissingCandidateEvidence || c == MissingIndependentSource || c == CoverageBelowRequired;
      }
    }
  }

  /** A cause that no requirement has moves nothing, so the causes listed with a count
      account for the whole shortfall. */
  lemma UnlistedHasNoImpact(rows: seq<GapRow>, c: Cause)
    requires CountTrue(CauseFlags(rows, c)) == 0
    ensures Impact(rows, c) == 0.0
  {
    hide Causes, Dimension, Points, BlockedDimensions, SumOver, Scale, CountTrue;
    forall d ensures c !in CausesOf(rows, d) {
      if c in CausesOf(rows, d) {
        var i :| 0 <= i < |rows| && c in Causes(rows[i]);
        assert CauseFlags(rows, c)[i];
        CountTrueSome(CauseFlags(rows, c), i);
      }
    }
    forall d ensures ShareIn(rows, c)(d) == 0.0 {
    }
    SumBounds(BlockedDimensions(rows), ShareIn(rows, c), 0.0, 0.0);
    ScaleIsProduct(0.0, |BlockedDimensions(rows)|);
  }

  // ----- The computation -----

  /** What the pass over the requirements collects. */
  ghost predicate Collected(rows: seq<GapRow>, allDims: set<string>, shortfalls: map<string, real>,
                            causes: map<string, set<Cause>>) {
    && allDims == Dimensions(rows)
    && shortfalls.Keys == causes.Keys == BlockedDimensions(rows)
    && forall d :: d in causes ==> causes[d] == CausesOf(rows, d) && shortfalls[d] == Worst(rows, d)
  }

  lemma NothingCollected()
    ensures Collected([], {}, map[], map[])
  {
  }

  lemma CausesOfSnoc(rows: seq<GapRow>, r: GapRow, d: string)
    ensures CausesOf(rows + [r], d) == CausesOf(rows, d) + (if Dimension(r) == d then Causes(r) else {})
  {
    hide Causes, Dimension;
    assert forall x :: x in rows + [r] <==> x in rows || x == r;
    forall c ensures c in CausesOf(rows + [r], d) <==> c in CausesOf(rows, d) || (Dimension(r) == d && c in Causes(r)) {
      if Dimension(r) == d && c in Causes(r) {
        assert r in rows + [r];
      }
    }
  }

  lemma DimensionsSnoc(rows: seq<GapRow>, r: GapRow)
    ensures Dimensions(rows + [r]) == Dimensions(rows) + {Dimension(r)}
    ensures BlockedDimensions(rows + [r])
        == BlockedDimensions(rows) + (if EffectiveState(r) != Closed then {Dimension(r)} else {})
  {
    hide Dimension, EffectiveState;
    assert forall x :: x in rows + [r] <==> x in rows || x == r;
    assert r in rows + [r];
  }

  lemma WorstSnoc(rows: seq<GapRow>, r: GapRow, d: string)
    ensures Worst(rows + [r], d) == if Blocks(r, d) then MaxReal(Worst(rows, d), Shortfall(r)) else Worst(rows, d)
  {
    assert (rows + [r])[..|rows|] == rows;
  }

  lemma {:induction false} UnblockedIsClean(rows: seq<GapRow>, d: string)
    requires d !in BlockedDimensions(rows)
    ensures CausesOf(rows, d) == {} && Worst(rows, d) == 0.0
  {
    hide Causes, Dimension, EffectiveState;
    WorstIsMaximum(rows, d);
    forall r | r in rows && Dimension(r) == d ensures Causes(r) == {} && !Blocks(r, d) {
      ClosedExactly(r);
    }
  }

  /** One requirement of the pass. */
  lemma Collect(rows: seq<GapRow>, r: GapRow, allDims: set<string>, shortfalls: map<string, real>,
                causes: map<string, set<Cause>>)
    requires Collected(rows, allDims, shortfalls, causes)
    ensures EffectiveState(r) == Closed ==> Collected(rows + [r], allDims + {Dimension(r)}, shortfalls, causes)
    ensures EffectiveState(r) != Closed ==>
      var d := Dimension(r);
      Collected(rows + [r], allDims + {d},
                shortfalls[d := MaxReal(if d in shortfalls then shortfalls[d] else 0.0, Shortfall(r))],
                causes[d := (if d in causes then causes[d] else {}) + Causes(r)])
  {
    hide Dimensions, BlockedDimensions, CausesOf, Worst, Shortfall, Causes, Dimension, EffectiveState;
    DimensionsSnoc(rows, r);
    ClosedExactly(r);
    var dim := Dimension(r);
    if dim !in causes {
      UnblockedIsClean(rows, dim);
    }
    forall d ensures CausesOf(rows + [r], d) == CausesOf(rows, d) + (if dim == d then Causes(r) else {})
                  && Worst(rows + [r], d)
                     == if Blocks(r, d) then MaxReal(Worst(rows, d), Shortfall(r)) else Worst(rows, d) {
      CausesOfSnoc(rows, r, d);
      WorstSnoc(rows, r, d);
    }
  }

  method CollectLoss(rows: seq<GapRow>)
    returns (allDims: set<string>, shortfalls: map<string, real>, causes: map<string, set<Cause>>,
             uncovered: nat, counts: map<Cause, nat>)
    ensures Collected(rows, allDims, shortfalls, causes)
    ensures Counted(rows, uncovered, counts)
  {
    hide Collected, Counted, CountAt, Causes, Dimension, EffectiveState;
    allDims, shortfalls, causes, uncovered, counts := {}, map[], map[], 0, map[];
    NothingCollected();
    NothingCounted();
    for k := 0 to |rows|
      invariant Collected(rows[..k], allDims, shortfalls, causes)
      invariant Counted(rows[..k], uncovered, counts)
    {
      var req := rows[k];
      assert rows[..k + 1] == rows[..k] + [req];
      Collect(rows[..k], req, allDims, shortfalls, causes);
      ClosedExactly(req);
      var dim := Dimension(req);
      allDims := allDims + {dim};
      var blocking := BlockingCauses(req);
      Listed(blocking, Causes(req));
      ghost var counted := counts;
      if blocking == [] {
        CountRow(rows[..k], req, uncovered, counted, counts);
        continue;
      }
      uncovered := uncovered + 1;
      counts := Tally(counts, blocking);
      CountRow(rows[..k], req, uncovered - 1, counted, counts);
      var required := req.requiredCoverage;
      var shortfall := if required.Some? && required.value != 0.0 then required.value - req.currentCoverage else 0.0;
      assert MaxReal(shortfall, 0.0) == Shortfall(req);
      var before := if dim in shortfalls then shortfalls[dim] else 0.0;
      shortfalls := shortfalls[dim := MaxReal(before, MaxReal(shortfall, 0.0))];
      causes := causes[dim := (if dim in causes then causes[dim] else {}) + (set c | c in blocking)];
    }
    assert rows[..|rows|] == rows;
  }

  lemma Listed(blocking: seq<Cause>, causes: set<Cause>)
    requires forall c :: c in blocking <==> c in causes
    ensures (set c | c in blocking) == causes
    ensures blocking == [] <==> causes == {}
  {
    if blocking != [] {
      assert blocking[0] in causes;
    }
  }

  function ImpactAt(impact: map<Cause, real>, c: Cause): real {
    if c in impact then impact[c] else 0.0
  }

  /** Adding the same amount to every cause of a set, in any order. */
  method Spread(impact: map<Cause, real>, blocking: set<Cause>, amount: real) returns (r: map<Cause, real>)
    ensures forall c :: ImpactAt(r, c) == ImpactAt(impact, c) + (if c in blocking then amount else 0.0)
  {
    r := impact;
    var rest := blocking;
    while rest != {}
      invariant rest <= blocking
      invariant forall c :: ImpactAt(r, c) == ImpactAt(impact, c) + (if c in blocking - rest then amount else 0.0)
      decreases rest
    {
      var cause :| cause in rest;
      r := r[cause := ImpactAt(r, cause) + amount];
      rest := rest - {cause};
    }
  }

  /** The totals of the second pass over the dimensions visited so far. */
  ghost predicate Totals(rows: seq<GapRow>, visited: set<string>, totalGap: real, impact: map<Cause, real>) {
    && totalGap == SumOver(visited, PointsIn(rows))
    && forall c :: ImpactAt(impact, c) == SumOver(visited, ShareIn(rows, c))
  }

  lemma NoTotals(rows: seq<GapRow>)
    ensures Totals(rows, {}, 0.0, map[])
  {
  }

  lemma TotalsStep(rows: seq<GapRow>, visited: set<string>, totalGap: real, impact: map<Cause, real>,
                   dim: string, impact': map<Cause, real>)
    requires Totals(rows, visited, totalGap, impact) && dim !in visited
    requires forall c :: ImpactAt(impact', c) == ImpactAt(impact, c) + ShareOf(rows, c, dim)
    ensures Totals(rows, visited + {dim}, totalGap + Points(rows, dim), impact')
  {
    hide SumOver, Points, ShareOf, ImpactAt;
    SumInsert(visited, dim, PointsIn(rows));
    forall c ensures ImpactAt(impact', c) == SumOver(visited + {dim}, ShareIn(rows, c)) {
      SumInsert(visited, dim, ShareIn(rows, c));
    }
  }

  /** The second pass: every blocked dimension adds its points to the total and an equal
      share of them to each of its causes. Dimensions and causes are visited in an
      arbitrary order. */
  method SplitLoss(rows: seq<GapRow>)
    returns (totalGap: real, impact: map<Cause, real>, uncovered: nat, counts: map<Cause, nat>)
    ensures totalGap == TotalGap(rows)
    ensures forall c :: ImpactAt(impact, c) == Impact(rows, c)
    ensures Counted(rows, uncovered, counts)
  {
    hide Totals, Dimensions, BlockedDimensions, CausesOf, Worst, ImpactAt, SumOver, Counted;
    var allDims, shortfalls, causes;
    allDims, shortfalls, causes, uncovered, counts := CollectLoss(rows);
    var n := Max(|allDims|, 1);
    totalGap, impact := 0.0, map[];
    NoTotals(rows);
    var rest := causes.Keys;
    assert causes.Keys - rest == {};
    while rest != {}
      invariant rest <= causes.Keys
      invariant Totals(rows, causes.Keys - rest, totalGap, impact)
      decreases rest
    {
      var dim :| dim in rest;
      var points := shortfalls[dim] / n as real;
      var blocking := causes[dim];
      BlockedHasCause(rows, dim);
      var share := 1.0 / |blocking| as real;
      var spread := Spread(impact, blocking, points * share);
      TotalsStep(rows, causes.Keys - rest, totalGap, impact, dim, spread);
      assert causes.Keys - (rest - {dim}) == causes.Keys - rest + {dim};
      totalGap := totalGap + points;
      impact := spread;
      rest := rest - {dim};
    }
    assert causes.Keys - rest == causes.Keys;
    TotalsMean(rows, causes.Keys, totalGap, impact);
  }

  lemma TotalsMean(rows: seq<GapRow>, visited: set<string>, totalGap: real, impact: map<Cause, real>)
    requires Totals(rows, visited, totalGap, impact) && visited == BlockedDimensions(rows)
    ensures totalGap == TotalGap(rows)
    ensures forall c :: ImpactAt(impact, c) == Impact(rows, c)
  {
    hide SumOver, BlockedDimensions, PointsIn, ShareIn, ImpactAt;
  }

  lemma BlockedHasCause(rows: seq<GapRow>, d: string)
    requires d in BlockedDimensions(rows)
    ensures CausesOf(rows, d) != {}
  {
    hide Causes, Dimension, EffectiveState;
    var r :| r in rows && EffectiveState(r) != Closed && Dimension(r) == d;
    ClosedExactly(r);
    var c :| c in Causes(r);
    assert c in CausesOf(rows, d);
  }

  // ----- What the split guarantees -----

  /** A dimension's shares add up to its points. */
  lemma SharesAddUp(rows: seq<GapRow>, d: string)
    requires d in BlockedDimensions(rows)
    ensures ShareOf(rows, MissingCandidateEvidence, d) + ShareOf(rows, MissingIndependentSource, d)
        + ShareOf(rows, CoverageBelowRequired, d)
         == Points(rows, d)
  {
    hide CausesOf, Points, BlockedDimensions;
    BlockedHasCause(rows, d);
    CauseCount(CausesOf(rows, d));
    var k := |CausesOf(rows, d)|;
    EqualShares(Points(rows, d), k);
  }

  lemma EqualShares(points: real, k: nat)
    ensures k == 1 ==> points * (1.0 / k as real) == points
    ensures k == 2 ==> 2.0 * (points * (1.0 / k as real)) == points
    ensures k == 3 ==> 3.0 * (points * (1.0 / k as real)) == points
  {
    if k > 0 {
      var share := 1.0 / k as real;
      assert share * k as real == 1.0;
      assert points * (share * k as real) == points;
    }
  }

  /** The impacts of the causes sum to the aggregate shortfall. */
  lemma LossConserved(rows: seq<GapRow>)
    ensures Impact(rows, MissingCandidateEvidence) + Impact(rows, MissingIndependentSource)
        + Impact(rows, CoverageBelowRequired)
         == TotalGap(rows)
  {
    hide SumOver, BlockedDimensions, Points, ShareOf;
    var dims := BlockedDimensions(rows);
    var a, b := ShareIn(rows, MissingCandidateEvidence), ShareIn(rows, MissingIndependentSource);
    var c := ShareIn(rows, CoverageBelowRequired);
    var ab: string -> real := d => a(d) + b(d);
    SumLinear(dims, a, b, ab);
    forall d | d in dims ensures PointsIn(rows)(d) == ab(d) + c(d) {
      SharesAddUp(rows, d);
    }
    SumLinear(dims, ab, c, PointsIn(rows));
  }

  /** The aggregate shortfall is the mean over all dimensions of the worst shortfall in each. */
  lemma GapIsMean(rows: seq<GapRow>)
    ensures TotalGap(rows) * Max(|Dimensions(rows)|, 1) as real == SumOver(BlockedDimensions(rows), WorstIn(rows))
  {
    hide SumOver, Worst, BlockedDimensions, Dimensions;
    SumDivided(BlockedDimensions(rows), PointsIn(rows), WorstIn(rows), Max(|Dimensions(rows)|, 1) as real);
  }

  function WorstIn(rows: seq<GapRow>): string -> real {
    d => Worst(rows, d)
  }

  lemma {:induction false} SumDivided(s: set<string>, f: string -> real, g: string -> real, n: real)
    requires n > 0.0 && forall d :: f(d) == g(d) / n
    ensures SumOver(s, f) * n == SumOver(s, g)
    decreases s
  {
    if s != {} {
      var x :| x in s;
      SumRemove(s, x, f);
      SumRemove(s, x, g);
      SumDivided(s - {x}, f, g, n);
      TimesBack(g(x), n, SumOver(s - {x}, f));
    }
  }

  lemma TimesBack(a: real, n: real, rest: real)
    requires n > 0.0
    ensures (a / n + rest) * n == a + rest * n
  {
    assert a / n * n == a;
  }

  /** When all requirements belong to one dimension, each of its causes has an equal share of
      the shortfall, and no other cause has any. */
  lemma CausesShareEqually(rows: seq<GapRow>, d: string, cause: Cause)
    requires d in BlockedDimensions(rows) && forall r :: r in rows ==> OrNone(r.dimensionKey) == d
    ensures TotalGap(rows) == Worst(rows, d)
    ensures cause in CausesOf(rows, d) ==> Impact(rows, cause) * |CausesOf(rows, d)| as real == TotalGap(rows)
    ensures cause !in CausesOf(rows, d) ==> Impact(rows, cause) == 0.0
  {
    hide SumOver, Worst, Causes, EffectiveState, CausesOf;
    var r :| r in rows && EffectiveState(r) != Closed && Dimension(r) == d;
    assert BlockedDimensions(rows) == {d} && Dimensions(rows) == {d};
    SumOne(d, PointsIn(rows));
    SumOne(d, ShareIn(rows, cause));
    BlockedHasCause(rows, d);
    var k := |CausesOf(rows, d)|;
    if cause in CausesOf(rows, d) {
      assert k > 0;
      ShareTimes(Points(rows, d), k as real);
    }
  }

  lemma SumOne(d: string, f: string -> real)
    ensures SumOver({d}, f) == f(d)
  {
    SumRemove({d}, d, f);
    assert {d} - {d} == {};
  }

  lemma ShareTimes(points: real, k: real)
    requires k > 0.0
    ensures points * (1.0 / k) * k == points
  {
    assert 1.0 / k * k == 1.0;
    assert points * (1.0 / k) * k == points * (1.0 / k * k);
  }

  /** With coverages in [0, 1] the aggregate shortfall lies in [0, 1]. */
  lemma LossInRange(rows: seq<GapRow>)
    requires forall r :: r in rows ==>
        0.0 <= r.currentCoverage <= 1.0 && (r.requiredCoverage.Some? ==> 0.0 <= r.requiredCoverage.value <= 1.0)
    ensures 0.0 <= TotalGap(rows) <= 1.0
  {
    hide SumOver, Points, Scale;
    var dims, n := BlockedDimensions(rows), Max(|Dimensions(rows)|, 1);
    var each := 1.0 / n as real;
    forall d | d in dims ensures 0.0 <= PointsIn(rows)(d) <= each {
      PointsInRange(rows, d);
    }
    SumBounds(dims, PointsIn(rows), 0.0, each);
    BlockedWithin(rows);
    ScaleIsProduct(0.0, |dims|);
    ScaleIsProduct(each, |dims|);
    AtMostOne(each, |dims|, n);
  }

  lemma BlockedWithin(rows: seq<GapRow>)
    ensures |BlockedDimensions(rows)| <= |Dimensions(rows)|
  {
    SubsetSize(BlockedDimensions(rows), Dimensions(rows));
  }

  lemma PointsInRange(rows: seq<GapRow>, d: string)
    requires forall r :: r in rows ==>
        0.0 <= r.currentCoverage <= 1.0 && (r.requiredCoverage.Some? ==> 0.0 <= r.requiredCoverage.value <= 1.0)
    ensures 0.0 <= Points(rows, d) <= 1.0 / Max(|Dimensions(rows)|, 1) as real
  {
    hide Worst, Dimensions, Blocks;
    WorstIsMaximum(rows, d);
    forall r | r in rows ensures Shortfall(r) <= 1.0 {
    }
    var n := Max(|Dimensions(rows)|, 1) as real;
    DivideMonotone(Worst(rows, d), 1.0, n);
    DivideMonotone(0.0, Worst(rows, d), n);
  }

  lemma AtMostOne(each: real, k: nat, n: nat)
    requires k <= n && n > 0 && each == 1.0 / n as real
    ensures 0.0 * k as real == 0.0 && each * k as real <= 1.0
  {
    assert each * n as real == 1.0;
    assert each > 0.0;
    assert each * (n as real - k as real) >= 0.0;
  }

  /** Only which requirement rows there are matters: order and repetition, for instance
      across plan versions, change neither the shortfall nor any impact. */
  lemma LossIgnoresRepetition(rows: seq<GapRow>, other: seq<GapRow>, cause: Cause)
    requires forall r :: r in rows <==> r in other
    ensures TotalGap(rows) == TotalGap(other)
    ensures Impact(rows, cause) == Impact(other, cause)
  {
    hide SumOver, Points, ShareOf, Causes, Dimension, EffectiveState;
    var dims := BlockedDimensions(rows);
    assert dims == BlockedDimensions(other);
    forall d ensures Points(rows, d) == Points(other, d) && ShareOf(rows, cause, d) == ShareOf(other, cause, d) {
      SameRows(rows, other, cause, d);
    }
    SumCong(dims, PointsIn(rows), PointsIn(other));
    SumCong(dims, ShareIn(rows, cause), ShareIn(other, cause));
  }

  lemma SameRows(rows: seq<GapRow>, other: seq<GapRow>, cause: Cause, d: string)
    requires forall r :: r in rows <==> r in other
    ensures Points(rows, d) == Points(other, d)
    ensures ShareOf(rows, cause, d) == ShareOf(other, cause, d)
  {
    hide Blocks, Shortfall, Causes, Dimension, Worst;
    WorstIsMaximum(rows, d);
    WorstIsMaximum(other, d);
    assert Dimensions(rows) == Dimensions(other);
    assert CausesOf(rows, d) == CausesOf(other, d);
  }
}
