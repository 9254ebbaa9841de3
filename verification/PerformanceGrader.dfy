/** Paired comparison of performance samples: pairing, regressions, the 95th percentile,
    and the clustered bootstrap for an arbitrary outcome of the random draws. */
module PerformanceGrader {
  import opened Basics

  datatype Sample = Sample(caseId: string, repetition: nat, configHash: string, elapsedMs: real,
                           totalTokens: nat, coverage: real, supportPrecision: real, technicalSuccess: bool,
                           qualitySuccess: bool)

  datatype Key = Key(caseId: string, repetition: nat)

  datatype Metric = SupportPrecision | TechnicalSuccess | QualitySuccess | CoverageMetric

  datatype CompareError = EmptyOrDuplicate | Unpaired | ConfigurationDiffers

  function AsReal(b: bool): real {
    if b then 1.0 else 0.0
  }

  function Value(s: Sample, metric: Metric): real {
    match metric
    case SupportPrecision => s.supportPrecision
    case TechnicalSuccess => AsReal(s.technicalSuccess)
    case QualitySuccess => AsReal(s.qualitySuccess)
    case CoverageMetric => s.coverage
  }

  // ----- Pairing -----

  function KeyOf(s: Sample): Key {
    Key(s.caseId, s.repetition)
  }

  function IndexOf(samples: seq<Sample>): map<Key, Sample> {
    if samples == [] then map[]
    else
      var s := samples[|samples| - 1];
      IndexOf(samples[..|samples| - 1])[KeyOf(s) := s]
  }

  ghost predicate NoneRepeats(samples: seq<Sample>) {
    forall i, j :: 0 <= i < j < |samples| ==> KeyOf(samples[i]) != KeyOf(samples[j])
  }

  lemma {:induction false} IndexKeys(samples: seq<Sample>)
    ensures forall k :: k in IndexOf(samples) <==> exists s :: s in samples && KeyOf(s) == k
    ensures forall k :: k in IndexOf(samples) ==> IndexOf(samples)[k] in samples && KeyOf(IndexOf(samples)[k]) == k
  {
    hide KeyOf;
    if samples != [] {
      var rest, last := samples[..|samples| - 1], samples[|samples| - 1];
      IndexKeys(rest);
      assert samples == rest + [last];
      assert forall s :: s in samples <==> s in rest || s == last;
    }
  }

  /** The index is as long as the list exactly when no (case, repetition) repeats. */
  lemma {:induction false} IndexSize(samples: seq<Sample>)
    ensures |IndexOf(samples)| <= |samples|
    ensures |IndexOf(samples)| == |samples| <==> NoneRepeats(samples)
  {
    hide KeyOf, NoneRepeats;
    if samples == [] {
      EmptyRepeats();
    } else {
      var rest, last := samples[..|samples| - 1], samples[|samples| - 1];
      IndexSize(rest);
      IndexKeys(rest);
      RepeatsSnoc(rest, last);
      assert samples == rest + [last];
      UpdateSize(IndexOf(rest), KeyOf(last), last);
    }
  }

  lemma UpdateSize(m: map<Key, Sample>, k: Key, s: Sample)
    ensures |m[k := s]| == |m| + (if k in m then 0 else 1)
  {
    assert m[k := s].Keys == m.Keys + {k};
    assert |m[k := s].Keys| == |m[k := s]| && |m.Keys| == |m|;
  }

  lemma EmptyRepeats()
    ensures NoneRepeats([])
  {
  }

  lemma RepeatsSnoc(rest: seq<Sample>, last: Sample)
    ensures NoneRepeats(rest + [last]) <==> NoneRepeats(rest) && !exists s :: s in rest && KeyOf(s) == KeyOf(last)
  {
    hide KeyOf;
    var all := rest + [last];
    if NoneRepeats(all) {
      forall i, j | 0 <= i < j < |rest| ensures KeyOf(rest[i]) != KeyOf(rest[j]) {
        assert all[i] == rest[i] && all[j] == rest[j];
      }
      forall s | s in rest ensures KeyOf(s) != KeyOf(last) {
        var i :| 0 <= i < |rest| && rest[i] == s;
        assert all[i] == s && all[|rest|] == last;
      }
    }
  }

  // ----- Comparison of two arms -----

  /** A quality of the candidate sample is worse than the baseline's. */
  predicate Regressed(left: Sample, right: Sample) {
    || right.supportPrecision < left.supportPrecision
    || (left.technicalSuccess && !right.technicalSuccess)
    || (left.qualitySuccess && !right.qualitySuccess)
  }

  function Regressions(left: map<Key, Sample>, right: map<Key, Sample>): set<Key>
    requires left.Keys == right.Keys
  {
    set k | k in left && Regressed(left[k], right[k])
  }

  function KeysOfCase(left: map<Key, Sample>, caseId: string): set<Key> {
    set k | k in left && k.caseId == caseId
  }

  function Cases(left: map<Key, Sample>): set<string> {
    set k | k in left :: k.caseId
  }

  /** The paired difference of one key. */
  function DifferenceIn(left: map<Key, Sample>, right: map<Key, Sample>, metric: Metric): Key -> real {
    k => if k in left && k in right then Value(right[k], metric) - Value(left[k], metric) else 0.0
  }

  /** The mean paired difference of a case; repeats of a case are averaged first. */
  ghost function CaseDelta(left: map<Key, Sample>, right: map<Key, Sample>, metric: Metric, caseId: string): real
    requires caseId in Cases(left)
  {
    CaseNotEmpty(left, caseId);
    SumOver(KeysOfCase(left, caseId), DifferenceIn(left, right, metric)) / |KeysOfCase(left, caseId)| as real
  }

  lemma CaseNotEmpty(left: map<Key, Sample>, caseId: string)
    requires caseId in Cases(left)
    ensures |KeysOfCase(left, caseId)| > 0
  {
    var k :| k in left && k.caseId == caseId;
    assert k in KeysOfCase(left, caseId);
  }

  ghost predicate ListsCases(left: map<Key, Sample>, caseIds: seq<string>) {
    && (forall c :: c in caseIds <==> c in Cases(left))
    && forall i, j :: 0 <= i < j < |caseIds| ==> caseIds[i] != caseIds[j]
  }

  ghost predicate DeltasOf(left: map<Key, Sample>, right: map<Key, Sample>, metric: Metric, caseIds: seq<string>,
                           deltas: seq<real>) {
    && |deltas| == |caseIds|
    && forall i :: 0 <= i < |deltas| ==>
         caseIds[i] in Cases(left) && deltas[i] == CaseDelta(left, right, metric, caseIds[i])
  }

  method ListCases(left: map<Key, Sample>) returns (caseIds: seq<string>)
    ensures ListsCases(left, caseIds)
  {
    caseIds := [];
    var rest := Cases(left);
    while rest != {}
      invariant rest <= Cases(left)
      invariant forall c :: c in caseIds <==> c in Cases(left) && c !in rest
      invariant forall i, j :: 0 <= i < j < |caseIds| ==> caseIds[i] != caseIds[j]
      decreases rest
    {
      var c :| c in rest;
      caseIds := caseIds + [c];
      rest := rest - {c};
    }
  }

  method SumDifferences(left: map<Key, Sample>, right: map<Key, Sample>, metric: Metric, keys: set<Key>)
    returns (total: real)
    requires keys <= left.Keys == right.Keys
    ensures total == SumOver(keys, DifferenceIn(left, right, metric))
  {
    hide SumOver, Value;
    total := 0.0;
    var rest := keys;
    SumEmpty(DifferenceIn(left, right, metric));
    assert keys - rest == {};
    while rest != {}
      invariant rest <= keys
      invariant total == SumOver(keys - rest, DifferenceIn(left, right, metric))
      decreases rest
    {
      var k :| k in rest;
      SumInsert(keys - rest, k, DifferenceIn(left, right, metric));
      assert keys - (rest - {k}) == keys - rest + {k};
      total := total + (Value(right[k], metric) - Value(left[k], metric));
      rest := rest - {k};
    }
    assert keys - rest == keys;
  }

  lemma SumEmpty(f: Key -> real)
    ensures SumOver({}, f) == 0.0
  {
  }

  method ComputeDeltas(left: map<Key, Sample>, right: map<Key, Sample>, metric: Metric, caseIds: seq<string>)
    returns (deltas: seq<real>)
    requires left.Keys == right.Keys && ListsCases(left, caseIds)
    ensures DeltasOf(left, right, metric, caseIds, deltas)
  {
    hide SumOver, DifferenceIn, Cases, KeysOfCase;
    deltas := [];
    for k := 0 to |caseIds|
      invariant |deltas| == k
      invariant forall i :: 0 <= i < k ==>
          caseIds[i] in Cases(left) && deltas[i] == CaseDelta(left, right, metric, caseIds[i])
    {
      assert caseIds[k] in caseIds;
      CaseNotEmpty(left, caseIds[k]);
      var keys := KeysOfCase(left, caseIds[k]);
      KeysWithin(left, caseIds[k]);
      var total := SumDifferences(left, right, metric, keys);
      deltas := deltas + [total / |keys| as real];
    }
  }

  lemma KeysWithin(left: map<Key, Sample>, caseId: string)
    ensures KeysOfCase(left, caseId) <= left.Keys
  {
  }

  // ----- Sorting -----

  ghost predicate Ascends(s: seq<real>) {
    forall i, j :: 0 <= i < j < |s| ==> s[i] <= s[j]
  }

  function Insert(x: real, s: seq<real>): seq<real> {
    if s == [] || x <= s[0] then [x] + s else [s[0]] + Insert(x, s[1..])
  }

  /** sorted(s) */
  function Sorted(s: seq<real>): seq<real> {
    if s == [] then [] else Insert(s[0], Sorted(s[1..]))
  }

  lemma {:induction false} InsertMembers(x: real, s: seq<real>)
    ensures |Insert(x, s)| == |s| + 1
    ensures forall y :: y in Insert(x, s) <==> y == x || y in s
  {
    if s != [] && x > s[0] {
      InsertMembers(x, s[1..]);
      assert s == [s[0]] + s[1..];
    }
  }

  lemma {:induction false} InsertAscends(x: real, s: seq<real>)
    requires Ascends(s)
    ensures Ascends(Insert(x, s))
  {
    if s != [] && x > s[0] {
      InsertAscends(x, s[1..]);
      InsertMembers(x, s[1..]);
      var r := Insert(x, s[1..]);
      forall i | 0 <= i < |r| ensures s[0] <= r[i] {
        assert r[i] in r;
      }
    }
  }

  /** Sorting keeps the elements and puts them in ascending order; it also keeps how often
      each occurs (SortedCounts). */
  lemma {:induction false} SortedFacts(s: seq<real>)
    ensures Ascends(Sorted(s)) && |Sorted(s)| == |s|
    ensures forall y :: y in Sorted(s) <==> y in s
  {
    hide Ascends, Insert;
    if s != [] {
      SortedFacts(s[1..]);
      InsertAscends(s[0], Sorted(s[1..]));
      InsertMembers(s[0], Sorted(s[1..]));
      assert s == [s[0]] + s[1..];
    } else {
      NothingAscends();
    }
  }

  lemma NothingAscends()
    ensures Ascends([])
  {
  }

  // ----- The bootstrap -----

  function DrawSum(deltas: seq<real>, draw: seq<nat>): real
    requires forall i :: 0 <= i < |draw| ==> draw[i] < |deltas|
  {
    if draw == [] then 0.0 else DrawSum(deltas, draw[..|draw| - 1]) + deltas[draw[|draw| - 1]]
  }

  /** What random.choices may return: 2000 draws with replacement, each of all cases' size. */
  ghost predicate Draws(draws: seq<seq<nat>>, n: nat) {
    && |draws| == 2000
    && forall d :: 0 <= d < |draws| ==> |draws[d]| == n && forall i :: 0 <= i < n ==> draws[d][i] < n
  }

  function DrawMeans(deltas: seq<real>, draws: seq<seq<nat>>): seq<real>
    requires deltas != [] && forall d :: 0 <= d < |draws| ==> forall i :: 0 <= i < |draws[d]| ==> draws[d][i] < |deltas|
  {
    seq(|draws|, d requires 0 <= d < |draws| => DrawSum(deltas, draws[d]) / |deltas| as real)
  }

  datatype Interval = Interval(lower: real, upper: real)

  /** bootstrap[49] and bootstrap[1949] of the sorted means, from two cases on. */
  function BootstrapInterval(deltas: seq<real>, draws: seq<seq<nat>>): Option<Interval>
    requires deltas != [] && |draws| == 2000
    requires forall d :: 0 <= d < |draws| ==> forall i :: 0 <= i < |draws[d]| ==> draws[d][i] < |deltas|
  {
    var bootstrap := Sorted(DrawMeans(deltas, draws));
    SortedFacts(DrawMeans(deltas, draws));
    if |deltas| >= 2 then Some(Interval(bootstrap[49], bootstrap[1949])) else None
  }

  lemma {:induction false} DrawSumRange(deltas: seq<real>, draw: seq<nat>, lo: real, hi: real)
    requires forall i :: 0 <= i < |draw| ==> draw[i] < |deltas|
    requires forall i :: 0 <= i < |deltas| ==> lo <= deltas[i] <= hi
    ensures Scale(lo, |draw|) <= DrawSum(deltas, draw) <= Scale(hi, |draw|)
  {
    if draw != [] {
      DrawSumRange(deltas, draw[..|draw| - 1], lo, hi);
    }
  }

  lemma MeanInRange(total: real, n: nat, lo: real, hi: real)
    requires n > 0 && Scale(lo, n) <= total <= Scale(hi, n)
    ensures lo <= total / n as real <= hi
  {
    hide Scale;
    MeanOfScale(lo, n);
    MeanOfScale(hi, n);
    DivideMonotone(Scale(lo, n), total, n as real);
    DivideMonotone(total, Scale(hi, n), n as real);
  }

  lemma MeanOfScale(c: real, n: nat)
    requires n > 0
    ensures Scale(c, n) / n as real == c
  {
    hide Scale;
    ScaleIsProduct(c, n);
    Undo(c, n as real);
  }

  lemma Undo(c: real, n: real)
    requires n > 0.0
    ensures c * n / n == c
  {
    var q := c * n / n;
    assert q * n == c * n;
    assert (q - c) * n == 0.0;
  }

  lemma MeansInRange(deltas: seq<real>, draws: seq<seq<nat>>, lo: real, hi: real)
    requires deltas != [] && Draws(draws, |deltas|)
    requires forall i :: 0 <= i < |deltas| ==> lo <= deltas[i] <= hi
    ensures forall x :: x in DrawMeans(deltas, draws) ==> lo <= x <= hi
  {
    hide DrawSum, Scale;
    forall d | 0 <= d < |draws| ensures lo <= DrawMeans(deltas, draws)[d] <= hi {
      DrawSumRange(deltas, draws[d], lo, hi);
      MeanInRange(DrawSum(deltas, draws[d]), |deltas|, lo, hi);
    }
  }

  /** For every outcome of the draws the interval is ordered and lies between any bounds
      of the case deltas. */
  lemma IntervalWithinDeltas(deltas: seq<real>, draws: seq<seq<nat>>, lo: real, hi: real)
    requires |deltas| >= 2 && Draws(draws, |deltas|)
    requires forall i :: 0 <= i < |deltas| ==> lo <= deltas[i] <= hi
    ensures var interval := BootstrapInterval(deltas, draws).value; lo <= interval.lower <= interval.upper <= hi
  {
    hide Sorted, DrawMeans;
    var means := DrawMeans(deltas, draws);
    MeansInRange(deltas, draws, lo, hi);
    SortedFacts(means);
    MeansCount(deltas, draws);
    var t := Sorted(means);
    SortedMembers(means, 49);
    SortedMembers(means, 1949);
  }

  lemma MeansCount(deltas: seq<real>, draws: seq<seq<nat>>)
    requires deltas != [] && Draws(draws, |deltas|)
    ensures |DrawMeans(deltas, draws)| == 2000
  {
  }

  lemma SortedMembers(s: seq<real>, k: nat)
    requires k < |s|
    ensures k < |Sorted(s)| && Sorted(s)[k] in s
  {
    SortedFacts(s);
    assert Sorted(s)[k] in Sorted(s);
  }

  /** Without a quality regression no case delta of the three quality metrics is negative. */
  lemma DeltasNonNegative(left: map<Key, Sample>, right: map<Key, Sample>, metric: Metric, caseIds: seq<string>,
                          deltas: seq<real>)
    requires left.Keys == right.Keys && Regressions(left, right) == {} && metric != CoverageMetric
    requires DeltasOf(left, right, metric, caseIds, deltas)
    ensures forall i :: 0 <= i < |deltas| ==> deltas[i] >= 0.0
  {
    hide SumOver, KeysOfCase, Cases;
    forall k | k in left ensures DifferenceIn(left, right, metric)(k) >= 0.0 {
      assert k !in Regressions(left, right);
    }
    forall i | 0 <= i < |deltas| ensures deltas[i] >= 0.0 {
      CaseDeltaNonNegative(left, right, metric, caseIds[i]);
    }
  }

  lemma CaseDeltaNonNegative(left: map<Key, Sample>, right: map<Key, Sample>, metric: Metric, caseId: string)
    requires caseId in Cases(left)
    requires forall k :: k in left ==> DifferenceIn(left, right, metric)(k) >= 0.0
    ensures CaseDelta(left, right, metric, caseId) >= 0.0
  {
    hide SumOver, DifferenceIn;
    var keys := KeysOfCase(left, caseId);
    CaseNotEmpty(left, caseId);
    SumNonNegative(keys, DifferenceIn(left, right, metric));
    DivideMonotone(0.0, SumOver(keys, DifferenceIn(left, right, metric)), |keys| as real);
  }

  lemma {:induction false} SumNonNegative(keys: set<Key>, f: Key -> real)
    requires forall k :: k in keys ==> f(k) >= 0.0
    ensures SumOver(keys, f) >= 0.0
    decreases keys
  {
    if keys != {} {
      var k :| k in keys;
      SumRemove(keys, k, f);
      SumNonNegative(keys - {k}, f);
    }
  }

  // ----- Order statistics -----

  function CountAtMost(s: seq<real>, v: real): nat {
    if s == [] then 0 else (if s[0] <= v then 1 else 0) + CountAtMost(s[1..], v)
  }

  function CountAtLeast(s: seq<real>, v: real): nat {
    if s == [] then 0 else (if s[0] >= v then 1 else 0) + CountAtLeast(s[1..], v)
  }

  lemma {:induction false} InsertCounts(x: real, s: seq<real>, v: real)
    ensures CountAtMost(Insert(x, s), v) == CountAtMost(s, v) + (if x <= v then 1 else 0)
    ensures CountAtLeast(Insert(x, s), v) == CountAtLeast(s, v) + (if x >= v then 1 else 0)
  {
    if s == [] || x <= s[0] {
      assert ([x] + s)[1..] == s;
    } else {
      InsertCounts(x, s[1..], v);
      assert ([s[0]] + Insert(x, s[1..]))[1..] == Insert(x, s[1..]);
    }
  }

  lemma {:induction false} SortedCounts(s: seq<real>, v: real)
    ensures CountAtMost(Sorted(s), v) == CountAtMost(s, v)
    ensures CountAtLeast(Sorted(s), v) == CountAtLeast(s, v)
  {
    if s != [] {
      SortedCounts(s[1..], v);
      InsertCounts(s[0], Sorted(s[1..]), v);
    }
  }

  lemma {:induction false} AscendingCounts(t: seq<real>, k: nat, v: real)
    requires Ascends(t) && k < |t|
    ensures t[k] <= v ==> CountAtMost(t, v) >= k + 1
    ensures t[k] >= v ==> CountAtLeast(t, v) >= |t| - k
  {
    if k > 0 {
      AscendingCounts(t[1..], k - 1, v);
    } else if |t| > 1 {
      AscendingCounts(t[1..], 0, v);
    }
  }

  /** The element at index `k` of the sorted list has at least k + 1 elements at or below
      it and at least |s| - k at or above it. */
  lemma OrderStatistic(s: seq<real>, k: nat)
    requires k < |s|
    ensures |Sorted(s)| == |s|
    ensures CountAtMost(s, Sorted(s)[k]) >= k + 1
    ensures CountAtLeast(s, Sorted(s)[k]) >= |s| - k
  {
    hide Sorted;
    SortedFacts(s);
    SortedCounts(s, Sorted(s)[k]);
    AscendingCounts(Sorted(s), k, Sorted(s)[k]);
  }

  /** At least 1951 of the 2000 resampled means reach the lower end and at least 50 do not
      exceed it; at least 1950 do not exceed the upper end and at least 51 reach it. */
  lemma IntervalCoversMeans(deltas: seq<real>, draws: seq<seq<nat>>)
    requires |deltas| >= 2 && Draws(draws, |deltas|)
    ensures var interval, means := BootstrapInterval(deltas, draws).value, DrawMeans(deltas, draws);
      && CountAtLeast(means, interval.lower) >= 1951 && CountAtMost(means, interval.lower) >= 50
      && CountAtMost(means, interval.upper) >= 1950 && CountAtLeast(means, interval.upper) >= 51
  {
    hide Sorted, DrawMeans, CountAtLeast, CountAtMost;
    MeansCount(deltas, draws);
    OrderStatistic(DrawMeans(deltas, draws), 49);
    OrderStatistic(DrawMeans(deltas, draws), 1949);
  }

  /** math.ceil(n * 0.95) - 1 */
  function P95Index(n: nat): int {
    -((-(n as real * 0.95)).Floor) - 1
  }

  lemma P95IndexInRange(n: nat)
    requires n > 0
    ensures 0 <= P95Index(n) < n
    ensures 100 * (P95Index(n) + 1) >= 95 * n > 100 * P95Index(n)
  {
    var x := n as real * 0.95;
    var c := -((-x).Floor);
    assert c as real - 1.0 < x <= c as real;
    assert 100.0 * x == 95.0 * n as real;
    assert 100 * (c - 1) < 95 * n <= 100 * c;
  }

  function P95(times: seq<real>): real
    requires times != []
  {
    P95IndexInRange(|times|);
    SortedFacts(times);
    Sorted(times)[P95Index(|times|)]
  }

  /** The reported percentile is one of the samples, at least 95 percent of the samples
      are at or below it, and more than 5 percent of them are at or above it. */
  lemma P95Covers(times: seq<real>)
    requires times != []
    ensures P95(times) in times
    ensures 100 * CountAtMost(times, P95(times)) >= 95 * |times|
    ensures 100 * CountAtLeast(times, P95(times)) > 5 * |times|
  {
    hide Sorted, P95Index, CountAtMost, CountAtLeast;
    P95IndexInRange(|times|);
    SortedMembers(times, P95Index(|times|));
    OrderStatistic(times, P95Index(|times|));
  }

  /** statistics.median: the middle element, or the mean of the two middle ones. */
  function Median(s: seq<real>): real
    requires s != []
  {
    SortedFacts(s);
    var t, n := Sorted(s), |s|;
    if n % 2 == 1 then t[n / 2] else (t[n / 2 - 1] + t[n / 2]) / 2.0
  }

  /** At least half of the elements are at or below the median, at least half at or above. */
  lemma MedianHalves(s: seq<real>)
    requires s != []
    ensures 2 * CountAtMost(s, Median(s)) >= |s|
    ensures 2 * CountAtLeast(s, Median(s)) >= |s|
  {
    hide Sorted, CountAtMost, CountAtLeast;
    SortedFacts(s);
    SortedCounts(s, Median(s));
    var t, n := Sorted(s), |s|;
    assert n % 2 == 0 ==> t[n / 2 - 1] <= Median(s) <= t[n / 2];
    AscendingCounts(t, (n - 1) / 2, Median(s));
    AscendingCounts(t, n / 2, Median(s));
  }

  /** The median is the middle of two elements that halve the list between them, and one of
      them when the length is odd. */
  lemma MedianExactly(s: seq<real>) returns (low: real, high: real)
    requires s != []
    ensures low in s && high in s && low <= high && 2.0 * Median(s) == low + high
    ensures |s| % 2 == 1 ==> low == high
    ensures CountAtMost(s, low) >= (|s| + 1) / 2 && CountAtLeast(s, low) >= |s| / 2 + 1
    ensures CountAtMost(s, high) >= |s| / 2 + 1 && CountAtLeast(s, high) >= (|s| + 1) / 2
  {
    hide Sorted, CountAtMost, CountAtLeast;
    SortedFacts(s);
    var i, j := (|s| - 1) / 2, |s| / 2;
    low, high := Sorted(s)[i], Sorted(s)[j];
    SortedMembers(s, i);
    SortedMembers(s, j);
    OrderStatistic(s, i);
    OrderStatistic(s, j);
  }

  // ----- The report -----

  datatype Costs = Costs(medianElapsed: real, p95Elapsed: real, medianTokens: real, medianCoverage: real)

  datatype Summary = Summary(meanDelta: real, interval: Option<Interval>)

  datatype Report = Report(
    sampleCount: nat,
    caseCount: nat,
    baseline: Costs,
    candidate: Costs,
    regressions: set<Key>,
    nonregression: bool,
    intervals: map<Metric, Summary>,
    minimumCaseCountMet: bool)

  function Times(samples: seq<Sample>): seq<real> {
    seq(|samples|, i requires 0 <= i < |samples| => samples[i].elapsedMs)
  }

  function Tokens(samples: seq<Sample>): seq<real> {
    seq(|samples|, i requires 0 <= i < |samples| => samples[i].totalTokens as real)
  }

  function Coverages(samples: seq<Sample>): seq<real> {
    seq(|samples|, i requires 0 <= i < |samples| => samples[i].coverage)
  }

  function CostsOf(samples: seq<Sample>): Costs
    requires samples != []
  {
    Costs(Median(Times(samples)), P95(Times(samples)), Median(Tokens(samples)), Median(Coverages(samples)))
  }

  function Total(s: seq<real>): real {
    if s == [] then 0.0 else Total(s[..|s| - 1]) + s[|s| - 1]
  }

  function Mean(s: seq<real>): real {
    if s == [] then 0.0 else Total(s) / |s| as real
  }

  /** The total adds up over lists put together, and the mean times the length is the total. */
  lemma {:induction false} TotalAdds(s: seq<real>, t: seq<real>)
    ensures Total(s + t) == Total(s) + Total(t)
    ensures |t| == 1 ==> Total(t) == t[0]
    ensures Total([]) == 0.0
    ensures Mean(s) * |s| as real == Total(s)
    decreases |t|
  {
    if t == [] {
      assert s + t == s;
    } else {
      TotalAdds(s, t[..|t| - 1]);
      assert (s + t)[..|s + t| - 1] == s + t[..|t| - 1];
      assert |t| == 1 ==> t[..0] == [];
    }
    if s != [] {
      var q := Total(s) / |s| as real;
      assert q * |s| as real == Total(s);
    }
  }

  /** The deltas that a draw picks. */
  function Drawn(deltas: seq<real>, draw: seq<nat>): seq<real>
    requires forall i :: 0 <= i < |draw| ==> draw[i] < |deltas|
  {
    seq(|draw|, i requires 0 <= i < |draw| => deltas[draw[i]])
  }

  /** A resampled mean is the mean of the deltas drawn. */
  lemma DrawMeanIsMean(deltas: seq<real>, draws: seq<seq<nat>>, d: nat)
    requires deltas != [] && Draws(draws, |deltas|) && d < |draws|
    ensures DrawMeans(deltas, draws)[d] == Mean(Drawn(deltas, draws[d]))
  {
    DrawSumIsTotal(deltas, draws[d]);
  }

  lemma {:induction false} DrawSumIsTotal(deltas: seq<real>, draw: seq<nat>)
    requires forall i :: 0 <= i < |draw| ==> draw[i] < |deltas|
    ensures DrawSum(deltas, draw) == Total(Drawn(deltas, draw))
  {
    if draw != [] {
      DrawSumIsTotal(deltas, draw[..|draw| - 1]);
      assert Drawn(deltas, draw)[..|draw| - 1] == Drawn(deltas, draw[..|draw| - 1]);
    }
  }

  /** The figures of an arm, field by field. */
  lemma CostsExactly(samples: seq<Sample>)
    requires samples != []
    ensures var c := CostsOf(samples);
      exists times, tokens, coverages ::
        && |times| == |tokens| == |coverages| == |samples|
        && (forall i :: 0 <= i < |samples| ==>
              && times[i] == samples[i].elapsedMs && tokens[i] == samples[i].totalTokens as real
              && coverages[i] == samples[i].coverage)
        && c.medianElapsed == Median(times) && c.p95Elapsed == P95(times)
        && c.medianTokens == Median(tokens) && c.medianCoverage == Median(coverages)
  {
    hide Median, P95;
    var times, tokens, coverages := Times(samples), Tokens(samples), Coverages(samples);
    var c := CostsOf(samples);
    assert c.medianElapsed == Median(times) && c.p95Elapsed == P95(times)
        && c.medianTokens == Median(tokens) && c.medianCoverage == Median(coverages);
  }

  /** The regressions are the pairs of which a quality fell: support precision, technical or
      quality success; coverage is not one of them. */
  lemma RegressionsExactly(left: map<Key, Sample>, right: map<Key, Sample>, k: Key)
    requires left.Keys == right.Keys
    ensures k in Regressions(left, right) <==>
      && k in left
      && (|| left[k].supportPrecision > right[k].supportPrecision
          || (left[k].technicalSuccess, right[k].technicalSuccess) == (true, false)
          || (left[k].qualitySuccess, right[k].qualitySuccess) == (true, false))
  {
  }

  /** What a case contributes to each metric: with a single repeat, the candidate's value less
      the baseline's, a success counting 1. */
  lemma SingleRepeatDelta(left: map<Key, Sample>, right: map<Key, Sample>, k: Key)
    requires left.Keys == right.Keys && k in left
    requires forall other :: other in left && other.caseId == k.caseId ==> other == k
    ensures k.caseId in Cases(left)
    ensures CaseDelta(left, right, SupportPrecision, k.caseId) == right[k].supportPrecision - left[k].supportPrecision
    ensures CaseDelta(left, right, CoverageMetric, k.caseId) == right[k].coverage - left[k].coverage
    ensures CaseDelta(left, right, TechnicalSuccess, k.caseId)
         == (if right[k].technicalSuccess then 1.0 else 0.0) - (if left[k].technicalSuccess then 1.0 else 0.0)
    ensures CaseDelta(left, right, QualitySuccess, k.caseId)
         == (if right[k].qualitySuccess then 1.0 else 0.0) - (if left[k].qualitySuccess then 1.0 else 0.0)
  {
    hide SumOver;
    assert KeysOfCase(left, k.caseId) == {k};
    SumSingle(k, DifferenceIn(left, right, SupportPrecision));
    SumSingle(k, DifferenceIn(left, right, CoverageMetric));
    SumSingle(k, DifferenceIn(left, right, TechnicalSuccess));
    SumSingle(k, DifferenceIn(left, right, QualitySuccess));
  }

  lemma SumSingle(k: Key, f: Key -> real)
    ensures SumOver({k}, f) == f(k)
  {
    SumRemove({k}, k, f);
    assert {k} - {k} == {};
  }

  /** With several repeats it is their mean: times their number, it is the sum of the paired
      differences, which may be taken in any order. */
  lemma CaseDeltaIsMean(left: map<Key, Sample>, right: map<Key, Sample>, metric: Metric, caseId: string)
    requires caseId in Cases(left)
    ensures CaseDelta(left, right, metric, caseId) * |set k | k in left && k.caseId == caseId| as real
         == SumOver((set k | k in left && k.caseId == caseId), DifferenceIn(left, right, metric))
  {
    hide SumOver, DifferenceIn;
    CaseNotEmpty(left, caseId);
    assert (set k | k in left && k.caseId == caseId) == KeysOfCase(left, caseId);
    var q := SumOver(KeysOfCase(left, caseId), DifferenceIn(left, right, metric)) / |KeysOfCase(left, caseId)| as real;
    assert q * |KeysOfCase(left, caseId)| as real
        == SumOver(KeysOfCase(left, caseId), DifferenceIn(left, right, metric));
  }

  lemma {:induction false} TotalRange(s: seq<real>, lo: real, hi: real)
    requires forall i :: 0 <= i < |s| ==> lo <= s[i] <= hi
    ensures Scale(lo, |s|) <= Total(s) <= Scale(hi, |s|)
  {
    if s != [] {
      TotalRange(s[..|s| - 1], lo, hi);
    }
  }

  /** The mean paired difference lies between any bounds of the case deltas. */
  lemma MeanWithinDeltas(deltas: seq<real>, lo: real, hi: real)
    requires deltas != [] && forall i :: 0 <= i < |deltas| ==> lo <= deltas[i] <= hi
    ensures lo <= Mean(deltas) <= hi
  {
    hide Total, Scale;
    TotalRange(deltas, lo, hi);
    MeanInRange(Total(deltas), |deltas|, lo, hi);
  }

  ghost predicate Unusable(samples: seq<Sample>) {
    samples == [] || !NoneRepeats(samples)
  }

  ghost predicate SameConfiguration(left: map<Key, Sample>, right: map<Key, Sample>) {
    forall k :: k in left && k in right ==> left[k].configHash == right[k].configHash
  }

  /** What is wrong with a pair of arms: an empty list or a repeated (case, repetition),
      keys that one arm has and the other lacks, or a pair run under two configurations. */
  ghost function PairingError(baseline: seq<Sample>, candidate: seq<Sample>): Option<CompareError> {
    if Unusable(baseline) || Unusable(candidate) then Some(EmptyOrDuplicate)
    else if exists k :: (k in IndexOf(baseline)) != (k in IndexOf(candidate)) then Some(Unpaired)
    else if !SameConfiguration(IndexOf(baseline), IndexOf(candidate)) then Some(ConfigurationDiffers)
    else None
  }

  /** The checks before a comparison. */
  method PairUp(baseline: seq<Sample>, candidate: seq<Sample>) returns (error: Option<CompareError>)
    ensures error == PairingError(baseline, candidate)
    ensures error == None ==> IndexOf(baseline).Keys == IndexOf(candidate).Keys
  {
    hide IndexOf, NoneRepeats;
    IndexSize(baseline);
    IndexSize(candidate);
    EmptyIndex(baseline);
    EmptyIndex(candidate);
    var left, right := IndexOf(baseline), IndexOf(candidate);
    if |left| != |baseline| || left == map[] || |right| != |candidate| || right == map[] {
      return Some(EmptyOrDuplicate);
    }
    if left.Keys != right.Keys {
      KeysDiffer(left, right);
      return Some(Unpaired);
    }
    if exists k :: k in left && left[k].configHash != right[k].configHash {
      return Some(ConfigurationDiffers);
    }
    error := None;
  }

  lemma KeysDiffer(left: map<Key, Sample>, right: map<Key, Sample>)
    requires left.Keys != right.Keys
    ensures exists k :: (k in left) != (k in right)
  {
    if left.Keys <= right.Keys {
      SubsetSize(left.Keys, right.Keys);
      var k :| k in right.Keys && k !in left.Keys;
    } else {
      var k :| k in left.Keys && k !in right.Keys;
    }
  }

  /** The interval for deltas whose draws fit them. */
  function IntervalOf(deltas: seq<real>, draws: seq<seq<nat>>): Option<Interval> {
    if deltas != [] && |draws| == 2000 &&
        (forall d :: 0 <= d < |draws| ==> forall i :: 0 <= i < |draws[d]| ==> draws[d][i] < |deltas|)
    then BootstrapInterval(deltas, draws) else None
  }

  function SummaryOf(deltas: seq<real>, draws: seq<seq<nat>>): Summary {
    Summary(Mean(deltas), IntervalOf(deltas, draws))
  }

  ghost predicate IntervalsRight(left: map<Key, Sample>, right: map<Key, Sample>, caseIds: seq<string>,
                                 draws: seq<seq<nat>>, deltas: map<Metric, seq<real>>, intervals: map<Metric, Summary>,
                                 metric: Metric) {
    && metric in deltas && metric in intervals
    && DeltasOf(left, right, metric, caseIds, deltas[metric])
    && intervals[metric] == SummaryOf(deltas[metric], draws)
  }

  /** The intervals of all four metrics; every metric restarts the generator, so all use
      the same draws. */
  method ComputeIntervals(left: map<Key, Sample>, right: map<Key, Sample>, caseIds: seq<string>, draws: seq<seq<nat>>)
    returns (intervals: map<Metric, Summary>, ghost deltas: map<Metric, seq<real>>)
    requires left.Keys == right.Keys && ListsCases(left, caseIds)
    ensures forall metric :: IntervalsRight(left, right, caseIds, draws, deltas, intervals, metric)
  {
    hide ListsCases, DeltasOf, SummaryOf;
    deltas, intervals := map[], map[];
    var metrics := [SupportPrecision, TechnicalSuccess, QualitySuccess, CoverageMetric];
    for m := 0 to 4
      invariant forall j :: 0 <= j < m ==> IntervalsRight(left, right, caseIds, draws, deltas, intervals, metrics[j])
    {
      var d := ComputeDeltas(left, right, metrics[m], caseIds);
      deltas := deltas[metrics[m] := d];
      intervals := intervals[metrics[m] := SummaryOf(d, draws)];
    }
    forall metric: Metric ensures IntervalsRight(left, right, caseIds, draws, deltas, intervals, metric) {
      assert metric == metrics[0] || metric == metrics[1] || metric == metrics[2] || metric == metrics[3];
    }
  }

  /** Compares two arms. `draws` is what the random generator yields for `n` cases; the
      order in which the cases are listed is left open. */
  method CompareSamples(baseline: seq<Sample>, candidate: seq<Sample>, draws: nat -> seq<seq<nat>>)
    returns (r: Result<Report, CompareError>, ghost caseIds: seq<string>, ghost deltas: map<Metric, seq<real>>)
    ensures PairingError(baseline, candidate) == (if r.Err? then Some(r.error) else None)
    ensures r.Ok? ==>
      var left, right := IndexOf(baseline), IndexOf(candidate);
      && baseline != [] && candidate != [] && left.Keys == right.Keys && ListsCases(left, caseIds)
      && r.value.sampleCount == |left| && r.value.caseCount == |caseIds| == |Cases(left)| > 0
      && r.value.regressions == Regressions(left, right)
      && (r.value.nonregression <==> Regressions(left, right) == {})
      && (r.value.minimumCaseCountMet <==> |Cases(left)| >= 30)
      && r.value.baseline == CostsOf(baseline)
      && r.value.candidate == CostsOf(candidate)
      && (forall metric :: IntervalsRight(left, right, caseIds, draws(|caseIds|), deltas, r.value.intervals, metric))
  {
    hide IndexOf, NoneRepeats, Regressions, Cases, ListsCases, CostsOf, IntervalsRight;
    caseIds, deltas := [], map[];
    var error := PairUp(baseline, candidate);
    if error.Some? {
      return Err(error.value), caseIds, deltas;
    }
    var left, right := IndexOf(baseline), IndexOf(candidate);
    var cases := ListCases(left);
    CasesListed(left, cases);
    EmptyIndex(baseline);
    caseIds := cases;
    var intervals;
    intervals, deltas := ComputeIntervals(left, right, cases, draws(|cases|));
    var regressions := Regressions(left, right);
    r := Ok(Report(|left|, |cases|, CostsOf(baseline), CostsOf(candidate), regressions, regressions == {}, intervals,
                   |cases| >= 30));
  }

  /** With two or more cases and no quality regression, the mean and the lower end for each
      quality metric are at least 0, whatever was drawn. */
  lemma NoRegressionNoNegativeInterval(left: map<Key, Sample>, right: map<Key, Sample>, metric: Metric,
                                       caseIds: seq<string>, deltas: seq<real>, draws: seq<seq<nat>>)
    requires left.Keys == right.Keys && Regressions(left, right) == {} && metric != CoverageMetric
    requires DeltasOf(left, right, metric, caseIds, deltas) && |caseIds| >= 2 && Draws(draws, |caseIds|)
    ensures IntervalOf(deltas, draws).Some? && IntervalOf(deltas, draws).value.lower >= 0.0
    ensures Mean(deltas) >= 0.0
  {
    hide BootstrapInterval, CaseDelta;
    DeltasNonNegative(left, right, metric, caseIds, deltas);
    var hi := Largest(deltas);
    MeanWithinDeltas(deltas, 0.0, hi);
    IntervalWithinDeltas(deltas, draws, 0.0, hi);
    IntervalGiven(deltas, draws);
  }

  lemma IntervalGiven(deltas: seq<real>, draws: seq<seq<nat>>)
    requires |deltas| >= 2 && Draws(draws, |deltas|)
    ensures BootstrapInterval(deltas, draws).Some? && IntervalOf(deltas, draws) == BootstrapInterval(deltas, draws)
  {
  }

  /** An interval is reported exactly for two cases or more. */
  lemma IntervalFromTwoCases(deltas: seq<real>, draws: seq<seq<nat>>)
    requires deltas != [] && Draws(draws, |deltas|)
    ensures SummaryOf(deltas, draws).interval.Some? <==> |deltas| > 1
    ensures SummaryOf(deltas, draws).meanDelta * |deltas| as real == Total(deltas)
  {
    hide Total, Mean, Sorted, DrawMeans;
    TotalAdds(deltas, []);
  }

  lemma {:induction false} Largest(s: seq<real>) returns (m: real)
    ensures forall i :: 0 <= i < |s| ==> s[i] <= m
  {
    m := 0.0;
    if s != [] {
      m := Largest(s[..|s| - 1]);
      m := MaxReal(m, s[|s| - 1]);
    }
  }

  lemma EmptyIndex(samples: seq<Sample>)
    ensures IndexOf(samples) == map[] <==> samples == []
  {
    if samples != [] {
      assert KeyOf(samples[|samples| - 1]) in IndexOf(samples);
    }
  }

  lemma CasesListed(left: map<Key, Sample>, caseIds: seq<string>)
    requires ListsCases(left, caseIds)
    ensures |caseIds| == |Cases(left)|
    ensures left != map[] ==> caseIds != []
  {
    CountListed(caseIds, Cases(left));
    if left != map[] {
      var k :| k in left;
      assert k.caseId in Cases(left);
    }
  }

  lemma {:induction false} CountListed(ids: seq<string>, s: set<string>)
    requires forall c :: c in ids <==> c in s
    requires forall i, j :: 0 <= i < j < |ids| ==> ids[i] != ids[j]
    ensures |ids| == |s|
  {
    if ids == [] {
      assert s == {};
    } else {
      var rest, last := ids[..|ids| - 1], ids[|ids| - 1];
      assert ids == rest + [last];
      forall c ensures c in rest <==> c in s - {last} {
        assert c in ids <==> c in rest || c == last;
        if c in rest {
          var i :| 0 <= i < |rest| && rest[i] == c;
          assert ids[i] == c;
        }
      }
      assert last in ids;
      CountListed(rest, s - {last});
    }
  }
}
