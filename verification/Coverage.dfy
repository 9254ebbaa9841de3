/** Replay of the coverage score of a research run from its raw rows, before rounding.
    `marked` tells whether a criterion carries an independent-source marker. */
module Coverage {
  import opened Basics

  datatype PlanItem = PlanItem(questionId: string, requirements: seq<string>, priority: Option<int>,
                               planVersion: Option<int>)

  datatype Claim = Claim(id: string, questionId: string, dimensionKey: string,
                         claimType: string, importance: real, status: string)

  datatype Evidence = Evidence(accepted: bool, claimId: Option<string>, sourceId: Option<string>)

  datatype Source = Source(id: string, ownerKey: Option<string>)

  datatype Key = Key(questionId: string, dimensionKey: string)

  /** The rows that a replay looks at, besides the plan. */
  datatype Rows = Rows(claims: seq<Claim>, evidence: seq<Evidence>, sources: seq<Source>)

  const HIGH_RISK_IMPORTANCE := 0.75

  predicate HighRisk(c: Claim) {
    || c.status == "disputed"
    || c.importance >= HIGH_RISK_IMPORTANCE
    || c.claimType in {"numeric", "forecast", "comparative", "market"}
  }

  /** Rows by id; of rows with the same id the last one counts. */
  function ClaimsById(claims: seq<Claim>): map<string, Claim> {
    if claims == [] then map[]
    else
      var c := claims[|claims| - 1];
      ClaimsById(claims[..|claims| - 1])[c.id := c]
  }

  function OwnerBySource(sources: seq<Source>): map<string, string> {
    if sources == [] then map[]
    else
      var s := sources[|sources| - 1];
      var owner := if s.ownerKey.Some? && s.ownerKey.value != "" then s.ownerKey.value else s.id;
      OwnerBySource(sources[..|sources| - 1])[s.id := owner]
  }

  function OwnerOf(owners: map<string, string>, sourceId: string): string {
    if sourceId in owners then owners[sourceId] else sourceId
  }

  /** The dimension an evidence row counts for, if any. */
  function KeyOf(byId: map<string, Claim>, e: Evidence): Option<Key> {
    var id := if e.claimId.Some? then e.claimId.value else "";
    if e.accepted && id in byId then Some(Key(byId[id].questionId, byId[id].dimensionKey)) else None
  }

  // ----- What the counters mean -----

  function RowCount(byId: map<string, Claim>, rows: seq<Evidence>, key: Key): nat {
    if rows == [] then 0
    else RowCount(byId, rows[..|rows| - 1], key) + (if KeyOf(byId, rows[|rows| - 1]) == Some(key) then 1 else 0)
  }

  /** The distinct owners of the sources of the rows that count for a dimension. */
  function OwnerSet(byId: map<string, Claim>, owners: map<string, string>, rows: seq<Evidence>, key: Key): set<string> {
    set e | e in rows && KeyOf(byId, e) == Some(key) && e.sourceId.Some? :: OwnerOf(owners, e.sourceId.value)
  }

  lemma OwnerSetSnoc(byId: map<string, Claim>, owners: map<string, string>, rows: seq<Evidence>, e: Evidence, key: Key)
    ensures OwnerSet(byId, owners, rows + [e], key)
         == if KeyOf(byId, e) == Some(key) && e.sourceId.Some?
            then OwnerSet(byId, owners, rows, key) + {OwnerOf(owners, e.sourceId.value)}
            else OwnerSet(byId, owners, rows, key)
  {
    hide KeyOf, OwnerOf;
    assert forall x :: x in rows + [e] <==> x in rows || x == e;
  }

  lemma RowCountSnoc(byId: map<string, Claim>, rows: seq<Evidence>, e: Evidence, key: Key)
    ensures RowCount(byId, rows + [e], key)
        == RowCount(byId, rows, key) + (if KeyOf(byId, e) == Some(key) then 1 else 0)
  {
    assert (rows + [e])[..|rows|] == rows;
  }

  type Counts = map<Key, (nat, nat)>

  function Look(counts: Counts, key: Key): (nat, nat) {
    if key in counts then counts[key] else (0, 0)
  }

  ghost predicate CountsRight(byId: map<string, Claim>, owners: map<string, string>, rows: seq<Evidence>,
                              counts: Counts) {
    forall key :: CountRight(byId, owners, rows, Look(counts, key), key)
  }

  ghost predicate CountRight(byId: map<string, Claim>, owners: map<string, string>, rows: seq<Evidence>,
                             count: (nat, nat), key: Key) {
    count.0 == RowCount(byId, rows, key) && count.1 == |OwnerSet(byId, owners, rows, key)|
  }

  ghost predicate OwnersRight(byId: map<string, Claim>, owners: map<string, string>, rows: seq<Evidence>,
                              seen: map<Key, set<string>>) {
    forall key :: OwnersAt(seen, key) == OwnerSet(byId, owners, rows, key)
  }

  function OwnersAt(seen: map<Key, set<string>>, key: Key): set<string> {
    if key in seen then seen[key] else {}
  }

  /** One pass over the rows: the pair kept for each dimension is the number of its
      accepted rows and the number of distinct owners among them. */
  method CountDimensions(byId: map<string, Claim>, owners: map<string, string>, rows: seq<Evidence>)
    returns (counts: Counts)
    ensures CountsRight(byId, owners, rows, counts)
  {
    hide *;
    counts := map[];
    var ownersByDimension: map<Key, set<string>> := map[];
    NoRows(byId, owners);
    assert rows[..0] == [];
    for k := 0 to |rows|
      invariant CountsRight(byId, owners, rows[..k], counts)
      invariant OwnersRight(byId, owners, rows[..k], ownersByDimension)
    {
      var row := rows[k];
      assert rows[..k + 1] == rows[..k] + [row];
      var at := KeyOf(byId, row);
      RowCounted(byId, owners, rows[..k], row, counts, ownersByDimension);
      if at.None? {
        continue;
      }
      var key := at.value;
      var seen := OwnersAt(ownersByDimension, key);
      if row.sourceId.Some? {
        var owner := OwnerOf(owners, row.sourceId.value);
        if owner !in seen {
          seen := seen + {owner};
        } else {
          assert seen + {owner} == seen;
        }
      } else {
        assert seen + {} == seen;
      }
      ownersByDimension := ownersByDimension[key := seen];
      counts := counts[key := (Look(counts, key).0 + 1, |seen|)];
    }
    assert rows[..|rows|] == rows;
  }

  /** Counting one row keeps both tables right. */
  lemma RowCounted(byId: map<string, Claim>, owners: map<string, string>, rows: seq<Evidence>, row: Evidence,
                   counts: Counts, seenOwners: map<Key, set<string>>)
    requires CountsRight(byId, owners, rows, counts) && OwnersRight(byId, owners, rows, seenOwners)
    ensures KeyOf(byId, row).None? ==>
      CountsRight(byId, owners, rows + [row], counts) && OwnersRight(byId, owners, rows + [row], seenOwners)
    ensures KeyOf(byId, row).Some? ==>
      var key := KeyOf(byId, row).value;
      var seen := OwnersAt(seenOwners, key)
                  + (if row.sourceId.Some? then {OwnerOf(owners, row.sourceId.value)} else {});
      && CountsRight(byId, owners, rows + [row], counts[key := (Look(counts, key).0 + 1, |seen|)])
      && OwnersRight(byId, owners, rows + [row], seenOwners[key := seen])
  {
    hide KeyOf, OwnerOf, OwnerSet, CountRight, CountsRight, OwnersRight, Look, OwnersAt;
    var at := KeyOf(byId, row);
    if at.None? {
      OwnersElsewhere(byId, owners, rows, row, seenOwners);
      CountsElsewhere(byId, owners, rows, row, counts);
    } else {
      OwnersUpdated(byId, owners, rows, row, seenOwners, at.value);
      CountsUpdated(byId, owners, rows, row, counts, at.value);
    }
  }

  lemma OwnersElsewhere(byId: map<string, Claim>, owners: map<string, string>, rows: seq<Evidence>, row: Evidence,
                        seen: map<Key, set<string>>)
    requires OwnersRight(byId, owners, rows, seen) && KeyOf(byId, row).None?
    ensures OwnersRight(byId, owners, rows + [row], seen)
  {
    hide KeyOf, OwnerOf, OwnerSet, OwnersAt;
    forall key ensures OwnersAt(seen, key) == OwnerSet(byId, owners, rows + [row], key) {
      OwnerSetSnoc(byId, owners, rows, row, key);
    }
  }

  lemma CountsElsewhere(byId: map<string, Claim>, owners: map<string, string>, rows: seq<Evidence>, row: Evidence,
                        counts: Counts)
    requires CountsRight(byId, owners, rows, counts) && KeyOf(byId, row).None?
    ensures CountsRight(byId, owners, rows + [row], counts)
  {
    hide KeyOf, CountRight, Look;
    forall key ensures CountRight(byId, owners, rows + [row], Look(counts, key), key) {
      OtherKey(byId, owners, rows, row, Look(counts, key), key);
    }
  }

  lemma OwnersUpdated(byId: map<string, Claim>, owners: map<string, string>, rows: seq<Evidence>, row: Evidence,
                      seenOwners: map<Key, set<string>>, key: Key)
    requires OwnersRight(byId, owners, rows, seenOwners) && KeyOf(byId, row) == Some(key)
    ensures var seen := OwnersAt(seenOwners, key)
                  + (if row.sourceId.Some? then {OwnerOf(owners, row.sourceId.value)} else {});
      && OwnersRight(byId, owners, rows + [row], seenOwners[key := seen])
      && seen == OwnerSet(byId, owners, rows + [row], key)
  {
    hide KeyOf, OwnerOf, OwnerSet;
    var seen := OwnersAt(seenOwners, key)
                  + (if row.sourceId.Some? then {OwnerOf(owners, row.sourceId.value)} else {});
    OwnerSetSnoc(byId, owners, rows, row, key);
    assert OwnersAt(seenOwners, key) == OwnerSet(byId, owners, rows, key);
    forall other ensures OwnersAt(seenOwners[key := seen], other) == OwnerSet(byId, owners, rows + [row], other) {
      OwnerSetSnoc(byId, owners, rows, row, other);
      assert OwnersAt(seenOwners, other) == OwnerSet(byId, owners, rows, other);
    }
  }

  lemma CountsUpdated(byId: map<string, Claim>, owners: map<string, string>, rows: seq<Evidence>, row: Evidence,
                      counts: Counts, key: Key)
    requires CountsRight(byId, owners, rows, counts) && KeyOf(byId, row) == Some(key)
    ensures CountsRight(byId, owners, rows + [row],
                        counts[key := (Look(counts, key).0 + 1, |OwnerSet(byId, owners, rows + [row], key)|)])
  {
    hide KeyOf, OwnerSet, CountRight;
    var updated := counts[key := (Look(counts, key).0 + 1, |OwnerSet(byId, owners, rows + [row], key)|)];
    forall other ensures CountRight(byId, owners, rows + [row], Look(updated, other), other) {
      if other == key {
        ThisKey(byId, owners, rows, row, Look(counts, key), key);
      } else {
        OtherKey(byId, owners, rows, row, Look(counts, other), other);
      }
    }
  }

  lemma OtherKey(byId: map<string, Claim>, owners: map<string, string>, rows: seq<Evidence>, row: Evidence,
                 count: (nat, nat), key: Key)
    requires KeyOf(byId, row) != Some(key) && CountRight(byId, owners, rows, count, key)
    ensures CountRight(byId, owners, rows + [row], count, key)
    ensures OwnerSet(byId, owners, rows + [row], key) == OwnerSet(byId, owners, rows, key)
  {
    hide KeyOf, OwnerOf, OwnerSet;
    RowCountSnoc(byId, rows, row, key);
    OwnerSetSnoc(byId, owners, rows, row, key);
  }

  lemma ThisKey(byId: map<string, Claim>, owners: map<string, string>, rows: seq<Evidence>, row: Evidence,
                count: (nat, nat), key: Key)
    requires KeyOf(byId, row) == Some(key) && CountRight(byId, owners, rows, count, key)
    ensures CountRight(byId, owners, rows + [row], (count.0 + 1, |OwnerSet(byId, owners, rows + [row], key)|), key)
  {
    hide KeyOf, OwnerSet;
    RowCountSnoc(byId, rows, row, key);
  }

  lemma NoRows(byId: map<string, Claim>, owners: map<string, string>)
    ensures CountsRight(byId, owners, [], map[]) && OwnersRight(byId, owners, [], map[])
  {
    assert forall key :: OwnerSet(byId, owners, [], key) == {};
  }

  // ----- The score -----

  function Decimal(n: nat): string {
    var digit := ["0", "1", "2", "3", "4", "5", "6", "7", "8", "9"][n % 10];
    if n < 10 then digit else Decimal(n / 10) + digit
  }

  /** The dimension key of requirement number `index`, counted from 1. */
  function DimensionKey(questionId: string, index: nat): string {
    questionId + ":d" + Decimal(index)
  }

  function DigitValue(c: char): nat {
    if '0' <= c <= '9' then (c as int) - ('0' as int) else 0
  }

  function Numeral(s: string): nat {
    if s == [] then 0 else 10 * Numeral(s[..|s| - 1]) + DigitValue(s[|s| - 1])
  }

  /** The decimal numeral of a number reads back as the number. */
  lemma {:induction false} DecimalRoundTrip(n: nat)
    ensures Numeral(Decimal(n)) == n
    ensures Decimal(n) != [] && forall k :: 0 <= k < |Decimal(n)| ==> '0' <= Decimal(n)[k] <= '9'
    ensures Decimal(n)[0] == '0' ==> n == 0 && |Decimal(n)| == 1
  {
    var digit := ["0", "1", "2", "3", "4", "5", "6", "7", "8", "9"][n % 10];
    assert |digit| == 1 && DigitValue(digit[0]) == n % 10;
    if n < 10 {
      assert digit[..0] == [];
    } else {
      DecimalRoundTrip(n / 10);
      var s := Decimal(n / 10) + digit;
      assert s[..|s| - 1] == Decimal(n / 10);
    }
  }

  /** No two requirements of a question share a dimension key. */
  lemma DimensionKeysDistinct(questionId: string, i: nat, j: nat)
    requires i != j
    ensures DimensionKey(questionId, i) != DimensionKey(questionId, j)
  {
    hide Decimal;
    DecimalRoundTrip(i);
    DecimalRoundTrip(j);
    var prefix := questionId + ":d";
    assert DimensionKey(questionId, i)[|prefix|..] == Decimal(i);
    assert DimensionKey(questionId, j)[|prefix|..] == Decimal(j);
  }

  function HighRiskKeys(claims: seq<Claim>): set<string> {
    set c | c in claims && HighRisk(c) :: c.dimensionKey
  }

  function Required(marked: string -> bool, riskKeys: set<string>, criterion: string, dimensionKey: string): nat {
    if marked(criterion) || dimensionKey in riskKeys then 2 else 1
  }

  function Score(count: nat, owners: nat, required: nat): real {
    if count > 0 && owners >= required then 1.0 else if count > 0 then 0.5 else 0.0
  }

  /** The score of requirement `k` of an item, from its definition. */
  function RequirementScore(marked: string -> bool, rows: Rows, item: PlanItem, k: nat): real
    requires k < |item.requirements|
  {
    var byId, owners := ClaimsById(rows.claims), OwnerBySource(rows.sources);
    var dimension := DimensionKey(item.questionId, k + 1);
    var key := Key(item.questionId, dimension);
    Score(RowCount(byId, rows.evidence, key), |OwnerSet(byId, owners, rows.evidence, key)|,
          Required(marked, HighRiskKeys(rows.claims), item.requirements[k], dimension))
  }

  function ScoreSum(marked: string -> bool, rows: Rows, item: PlanItem, n: nat): real
    requires n <= |item.requirements|
  {
    if n == 0 then 0.0 else ScoreSum(marked, rows, item, n - 1) + RequirementScore(marked, rows, item, n - 1)
  }

  /** The mean score of an item's requirements, 0 for an item without any. */
  function ItemCoverage(marked: string -> bool, rows: Rows, item: PlanItem): real {
    if item.requirements == [] then 0.0
    else ScoreSum(marked, rows, item, |item.requirements|) / |item.requirements| as real
  }

  function Weight(item: PlanItem): real {
    (4 - (if item.priority.None? || item.priority.value == 0 then 1 else item.priority.value)) as real
  }

  function WeightedSum(marked: string -> bool, rows: Rows, items: seq<PlanItem>): real {
    if items == [] then 0.0
    else
      var last := items[|items| - 1];
      WeightedSum(marked, rows, items[..|items| - 1]) + Weighted(marked, rows, last)
  }

  function Weighted(marked: string -> bool, rows: Rows, item: PlanItem): real {
    ItemCoverage(marked, rows, item) * Weight(item)
  }

  function TotalWeight(items: seq<PlanItem>): real {
    if items == [] then 0.0 else TotalWeight(items[..|items| - 1]) + Weight(items[|items| - 1])
  }

  predicate OfVersion(planVersion: Option<int>, item: PlanItem) {
    planVersion.None? || item.planVersion.None? || item.planVersion == planVersion
  }

  function Filtered(planVersion: Option<int>, items: seq<PlanItem>): seq<PlanItem> {
    if items == [] then []
    else
      var rest := Filtered(planVersion, items[..|items| - 1]);
      if OfVersion(planVersion, items[|items| - 1]) then rest + [items[|items| - 1]] else rest
  }

  function CoverageOf(marked: string -> bool, rows: Rows, items: seq<PlanItem>): real {
    if TotalWeight(items) == 0.0 then 0.0 else WeightedSum(marked, rows, items) / TotalWeight(items)
  }

  method ScoreItem(marked: string -> bool, rows: Rows, counts: Counts, riskKeys: set<string>, item: PlanItem)
    returns (coverage: real)
    requires CountsRight(ClaimsById(rows.claims), OwnerBySource(rows.sources), rows.evidence, counts)
    requires riskKeys == HighRiskKeys(rows.claims)
    ensures coverage == ItemCoverage(marked, rows, item)
  {
    hide DimensionKey, HighRiskKeys, Score, Required, OwnerSet, ClaimsById, OwnerBySource;
    var total := 0.0;
    for k := 0 to |item.requirements|
      invariant total == ScoreSum(marked, rows, item, k)
    {
      var dimension := DimensionKey(item.questionId, k + 1);
      var found := Look(counts, Key(item.questionId, dimension));
      assert CountRight(ClaimsById(rows.claims), OwnerBySource(rows.sources), rows.evidence, found,
                        Key(item.questionId, dimension));
      var required := Required(marked, riskKeys, item.requirements[k], dimension);
      total := total + Score(found.0, found.1, required);
    }
    coverage := if item.requirements == [] then 0.0 else total / |item.requirements| as real;
  }

  method ReplayCoverage(marked: string -> bool, items: seq<PlanItem>, rows: Rows, planVersion: Option<int>)
    returns (coverage: real, coverageMap: seq<real>)
    ensures coverage == CoverageOf(marked, rows, Filtered(planVersion, items))
    ensures |coverageMap| == |Filtered(planVersion, items)|
    ensures forall k :: 0 <= k < |coverageMap| ==>
        coverageMap[k] == ItemCoverage(marked, rows, Filtered(planVersion, items)[k])
  {
    hide ItemCoverage, Weight, HighRiskKeys, CountsRight, Filtered;
    var counts := CountDimensions(ClaimsById(rows.claims), OwnerBySource(rows.sources), rows.evidence);
    var riskKeys := HighRiskKeys(rows.claims);
    var filtered := Filtered(planVersion, items);
    coverageMap := [];
    var weighted, total := 0.0, 0.0;
    for k := 0 to |filtered|
      invariant |coverageMap| == k
      invariant forall j :: 0 <= j < k ==> coverageMap[j] == ItemCoverage(marked, rows, filtered[j])
      invariant weighted == WeightedSum(marked, rows, filtered[..k])
      invariant total == TotalWeight(filtered[..k])
    {
      var item := filtered[k];
      assert filtered[..k + 1][..k] == filtered[..k];
      var itemCoverage := ScoreItem(marked, rows, counts, riskKeys, item);
      total := total + Weight(item);
      weighted := weighted + itemCoverage * Weight(item);
      coverageMap := coverageMap + [itemCoverage];
    }
    assert filtered[..|filtered|] == filtered;
    coverage := if total != 0.0 then weighted / total else 0.0;
  }

  // ----- Monotonicity -----

  lemma {:induction false} RowCountPositive(byId: map<string, Claim>, rows: seq<Evidence>, key: Key)
    ensures RowCount(byId, rows, key) > 0 <==> exists e :: e in rows && KeyOf(byId, e) == Some(key)
  {
    hide KeyOf;
    if rows != [] {
      var rest, last := rows[..|rows| - 1], rows[|rows| - 1];
      RowCountPositive(byId, rest, key);
      assert rows == rest + [last];
      assert forall e :: e in rows <==> e in rest || e == last;
    }
  }

  /** More evidence, or fewer risks, for the same claims otherwise. */
  ghost predicate NoWorse(rows: Rows, better: Rows) {
    && rows.sources == better.sources
    && (forall e :: e in rows.evidence ==> e in better.evidence)
    && |rows.claims| == |better.claims|
    && forall k :: 0 <= k < |rows.claims| ==>
         && better.claims[k].id == rows.claims[k].id
         && better.claims[k].questionId == rows.claims[k].questionId
         && better.claims[k].dimensionKey == rows.claims[k].dimensionKey
         && (HighRisk(better.claims[k]) ==> HighRisk(rows.claims[k]))
  }

  lemma {:induction false} SameKeys(claims: seq<Claim>, other: seq<Claim>)
    requires |claims| == |other|
    requires forall k :: 0 <= k < |claims| ==>
      other[k].id == claims[k].id && other[k].questionId == claims[k].questionId &&
          other[k].dimensionKey == claims[k].dimensionKey
    ensures ClaimsById(claims).Keys == ClaimsById(other).Keys
    ensures forall id :: id in ClaimsById(claims) ==>
      && ClaimsById(other)[id].questionId == ClaimsById(claims)[id].questionId
      && ClaimsById(other)[id].dimensionKey == ClaimsById(claims)[id].dimensionKey
  {
    if claims != [] {
      SameKeys(claims[..|claims| - 1], other[..|other| - 1]);
    }
  }

  /** Each requirement scores at least as much on better rows. */
  lemma RequirementMonotone(marked: string -> bool, rows: Rows, better: Rows, item: PlanItem, k: nat)
    requires NoWorse(rows, better) && k < |item.requirements|
    ensures RequirementScore(marked, rows, item, k) <= RequirementScore(marked, better, item, k)
  {
    hide ClaimsById, OwnerBySource, RowCount, DimensionKey, OwnerOf, HighRisk;
    var byId, byId' := ClaimsById(rows.claims), ClaimsById(better.claims);
    var owners := OwnerBySource(rows.sources);
    var dimension := DimensionKey(item.questionId, k + 1);
    var key := Key(item.questionId, dimension);
    SameKeys(rows.claims, better.claims);
    assert forall e :: KeyOf(byId, e) == KeyOf(byId', e);
    RowCountPositive(byId, rows.evidence, key);
    RowCountPositive(byId', better.evidence, key);
    SubsetSize(OwnerSet(byId, owners, rows.evidence, key), OwnerSet(byId', owners, better.evidence, key));
    RiskMonotone(rows, better);
  }

  lemma RiskMonotone(rows: Rows, better: Rows)
    requires NoWorse(rows, better)
    ensures HighRiskKeys(better.claims) <= HighRiskKeys(rows.claims)
  {
    hide HighRisk;
    forall d | d in HighRiskKeys(better.claims) ensures d in HighRiskKeys(rows.claims) {
      var c :| c in better.claims && HighRisk(c) && c.dimensionKey == d;
      var k :| 0 <= k < |better.claims| && better.claims[k] == c;
      assert rows.claims[k] in rows.claims;
    }
  }

  lemma {:induction false} ScoreSumMonotone(marked: string -> bool, rows: Rows, better: Rows, item: PlanItem, n: nat)
    requires NoWorse(rows, better) && n <= |item.requirements|
    ensures ScoreSum(marked, rows, item, n) <= ScoreSum(marked, better, item, n)
  {
    hide RequirementScore, NoWorse;
    if n > 0 {
      ScoreSumMonotone(marked, rows, better, item, n - 1);
      RequirementMonotone(marked, rows, better, item, n - 1);
    }
  }

  lemma ItemMonotone(marked: string -> bool, rows: Rows, better: Rows, item: PlanItem)
    requires NoWorse(rows, better)
    ensures ItemCoverage(marked, rows, item) <= ItemCoverage(marked, better, item)
  {
    hide NoWorse, RequirementScore;
    if item.requirements != [] {
      ScoreSumMonotone(marked, rows, better, item, |item.requirements|);
      DivideMonotone(ScoreSum(marked, rows, item, |item.requirements|),
                     ScoreSum(marked, better, item, |item.requirements|),
                     |item.requirements| as real);
    }
  }

  lemma Scaled(a: real, b: real, w: real)
    requires a <= b && w >= 0.0
    ensures a * w <= b * w
  {
    assert (b - a) * w >= 0.0;
  }

  lemma {:induction false} WeightedMonotone(marked: string -> bool, rows: Rows, better: Rows, items: seq<PlanItem>)
    requires NoWorse(rows, better) && forall item :: item in items ==> Weight(item) >= 0.0
    ensures WeightedSum(marked, rows, items) <= WeightedSum(marked, better, items)
    ensures TotalWeight(items) >= 0.0
  {
    hide NoWorse, ItemCoverage, Weight;
    if items != [] {
      var rest, last := items[..|items| - 1], items[|items| - 1];
      assert last in items;
      forall item | item in rest ensures item in items {
      }
      WeightedMonotone(marked, rows, better, rest);
      ItemMonotone(marked, rows, better, last);
      Scaled(ItemCoverage(marked, rows, last), ItemCoverage(marked, better, last), Weight(last));
    }
  }

  /** Coverage never falls when evidence is added anywhere or a claim stops being high
      risk, and never rises when a claim becomes high risk, for non-negative weights
      (priorities up to 4; plans use 1 to 3). */
  lemma CoverageMonotone(marked: string -> bool, rows: Rows, better: Rows, items: seq<PlanItem>)
    requires NoWorse(rows, better) && forall item :: item in items ==> Weight(item) >= 0.0
    ensures CoverageOf(marked, rows, items) <= CoverageOf(marked, better, items)
  {
    hide NoWorse, WeightedSum, TotalWeight, Weight;
    WeightedMonotone(marked, rows, better, items);
    if TotalWeight(items) > 0.0 {
      DivideMonotone(WeightedSum(marked, rows, items), WeightedSum(marked, better, items), TotalWeight(items));
    }
  }

  /** Neither the order of the evidence rows nor repeated rows matter, whatever the weights. */
  lemma {:induction false} WeightedSame(marked: string -> bool, rows: Rows, other: Rows, items: seq<PlanItem>)
    requires NoWorse(rows, other) && NoWorse(other, rows)
    ensures WeightedSum(marked, rows, items) == WeightedSum(marked, other, items)
  {
    hide NoWorse, ItemCoverage;
    if items != [] {
      WeightedSame(marked, rows, other, items[..|items| - 1]);
      ItemMonotone(marked, rows, other, items[|items| - 1]);
      ItemMonotone(marked, other, rows, items[|items| - 1]);
      assert ItemCoverage(marked, rows, items[|items| - 1]) == ItemCoverage(marked, other, items[|items| - 1]);
    }
  }

  lemma CoverageIgnoresOrder(marked: string -> bool, claims: seq<Claim>, sources: seq<Source>,
                             evidence: seq<Evidence>, shuffled: seq<Evidence>, items: seq<PlanItem>)
    requires forall e :: e in evidence <==> e in shuffled
    ensures CoverageOf(marked, Rows(claims, evidence, sources), items)
        == CoverageOf(marked, Rows(claims, shuffled, sources), items)
  {
    hide WeightedSum;
    WeightedSame(marked, Rows(claims, evidence, sources), Rows(claims, shuffled, sources), items);
  }

  // ----- Range -----

  lemma {:induction false} ScoreSumRange(marked: string -> bool, rows: Rows, item: PlanItem, n: nat)
    requires n <= |item.requirements|
    ensures 0.0 <= ScoreSum(marked, rows, item, n) <= n as real
    ensures ScoreSum(marked, rows, item, n) == n as real
       <==> forall k :: 0 <= k < n ==> RequirementScore(marked, rows, item, k) == 1.0
  {
    hide RequirementScore;
    if n > 0 {
      ScoreSumRange(marked, rows, item, n - 1);
      ScoreRange(marked, rows, item, n - 1);
    }
  }

  lemma ScoreRange(marked: string -> bool, rows: Rows, item: PlanItem, k: nat)
    requires k < |item.requirements|
    ensures 0.0 <= RequirementScore(marked, rows, item, k) <= 1.0
  {
  }

  /** An item is fully covered exactly when it has requirements and each has evidence
      from enough distinct owners. */
  ghost predicate Satisfied(marked: string -> bool, rows: Rows, item: PlanItem) {
    && item.requirements != []
    && forall k :: 0 <= k < |item.requirements| ==> Met(marked, rows, item, k)
  }

  ghost predicate Met(marked: string -> bool, rows: Rows, item: PlanItem, k: nat)
    requires k < |item.requirements|
  {
    var byId, owners := ClaimsById(rows.claims), OwnerBySource(rows.sources);
    var dimension := DimensionKey(item.questionId, k + 1);
    var key := Key(item.questionId, dimension);
    && (exists e :: e in rows.evidence && KeyOf(byId, e) == Some(key))
    && |OwnerSet(byId, owners, rows.evidence, key)|
       >= (if || marked(item.requirements[k])
              || exists c :: c in rows.claims && HighRisk(c) && c.dimensionKey == dimension
           then 2 else 1)
  }

  /** The score of a requirement: 1 when it is met, 0 without evidence, 1/2 otherwise. */
  lemma MetExactly(marked: string -> bool, rows: Rows, item: PlanItem, k: nat)
    requires k < |item.requirements|
    ensures var key := Key(item.questionId, DimensionKey(item.questionId, k + 1));
      var found := exists e :: e in rows.evidence && KeyOf(ClaimsById(rows.claims), e) == Some(key);
      RequirementScore(marked, rows, item, k) == if Met(marked, rows, item, k) then 1.0 else if found then 0.5 else 0.0
  {
    hide KeyOf, DimensionKey, OwnerSet, HighRisk, ClaimsById, OwnerBySource, RowCount;
    var byId := ClaimsById(rows.claims);
    var dimension := DimensionKey(item.questionId, k + 1);
    RowCountPositive(byId, rows.evidence, Key(item.questionId, dimension));
    assert dimension in HighRiskKeys(rows.claims) <==>
        exists c :: c in rows.claims && HighRisk(c) && c.dimensionKey == dimension;
  }

  lemma ItemRange(marked: string -> bool, rows: Rows, item: PlanItem)
    ensures 0.0 <= ItemCoverage(marked, rows, item) <= 1.0
    ensures ItemCoverage(marked, rows, item) == 1.0 <==> Satisfied(marked, rows, item)
  {
    hide RequirementScore, Met, ScoreSum;
    var n := |item.requirements|;
    if n > 0 {
      ScoreSumRange(marked, rows, item, n);
      QuotientRange(ScoreSum(marked, rows, item, n), n as real);
      forall k | 0 <= k < n ensures RequirementScore(marked, rows, item, k) == 1.0 <==> Met(marked, rows, item, k) {
        MetExactly(marked, rows, item, k);
      }
    }
  }

  ghost predicate AllSatisfied(marked: string -> bool, rows: Rows, items: seq<PlanItem>) {
    forall item :: item in items ==> Satisfied(marked, rows, item)
  }

  lemma {:induction false} WeightedRange(marked: string -> bool, rows: Rows, items: seq<PlanItem>)
    requires forall item :: item in items ==> Weight(item) > 0.0
    ensures 0.0 <= WeightedSum(marked, rows, items) <= TotalWeight(items)
    ensures items != [] ==> TotalWeight(items) > 0.0
    ensures WeightedSum(marked, rows, items) == TotalWeight(items) <==> AllSatisfied(marked, rows, items)
  {
    hide Weighted, Weight, AllSatisfied;
    if items != [] {
      var rest, last := items[..|items| - 1], items[|items| - 1];
      assert items == rest + [last];
      assert forall item :: item in rest ==> item in items;
      AllSatisfiedSnoc(marked, rows, rest, last);
      assert last in items;
      WeightedRange(marked, rows, rest);
      WeightedOne(marked, rows, last);
      Combine(WeightedSum(marked, rows, rest), TotalWeight(rest), Weighted(marked, rows, last), Weight(last),
              AllSatisfied(marked, rows, rest), Satisfied(marked, rows, last));
    } else {
      NoneToSatisfy(marked, rows);
    }
  }

  lemma NoneToSatisfy(marked: string -> bool, rows: Rows)
    ensures AllSatisfied(marked, rows, [])
  {
  }

  lemma AllSatisfiedSnoc(marked: string -> bool, rows: Rows, items: seq<PlanItem>, last: PlanItem)
    ensures AllSatisfied(marked, rows, items + [last]) <==>
        AllSatisfied(marked, rows, items) && Satisfied(marked, rows, last)
  {
    hide Satisfied;
    assert forall item :: item in items + [last] <==> item in items || item == last;
  }

  lemma WeightedOne(marked: string -> bool, rows: Rows, item: PlanItem)
    requires Weight(item) > 0.0
    ensures 0.0 <= Weighted(marked, rows, item) <= Weight(item)
    ensures Weighted(marked, rows, item) == Weight(item) <==> Satisfied(marked, rows, item)
  {
    hide ItemCoverage, Weight, Satisfied;
    ItemRange(marked, rows, item);
    var c, w := ItemCoverage(marked, rows, item), Weight(item);
    WeighOne(c, w);
    assert c * w <= w;
    assert Weighted(marked, rows, item) == c * w;
  }

  lemma Combine(s: real, t: real, x: real, w: real, all: bool, one: bool)
    requires 0.0 <= s <= t && (s == t <==> all)
    requires 0.0 <= x <= w && (x == w <==> one)
    ensures 0.0 <= s + x <= t + w && (s + x == t + w <==> all && one)
  {
  }

  lemma WeighOne(c: real, w: real)
    requires 0.0 <= c <= 1.0 && w > 0.0
    ensures 0.0 <= c * w <= w
    ensures c * w == w <==> c == 1.0
  {
    assert (1.0 - c) * w >= 0.0;
    if c < 1.0 {
      assert (1.0 - c) * w > 0.0;
    }
  }

  /** For priorities from 1 to 3, and absent or zero ones, which count as 1, coverage lies
      in [0, 1], and with any plan item left it is 1 exactly when every item is satisfied. */
  lemma CoverageRange(marked: string -> bool, rows: Rows, items: seq<PlanItem>)
    requires forall item :: item in items ==> item.priority.None? || 0 <= item.priority.value <= 3
    ensures 0.0 <= CoverageOf(marked, rows, items) <= 1.0
    ensures items != [] ==> (CoverageOf(marked, rows, items) == 1.0 <==> AllSatisfied(marked, rows, items))
  {
    hide WeightedSum, TotalWeight, AllSatisfied;
    WeightedRange(marked, rows, items);
    if TotalWeight(items) != 0.0 {
      QuotientRange(WeightedSum(marked, rows, items), TotalWeight(items));
    }
  }

  lemma QuotientRange(a: real, b: real)
    requires b > 0.0 && 0.0 <= a <= b
    ensures 0.0 <= a / b <= 1.0
    ensures a / b == 1.0 <==> a == b
  {
    var q := a / b;
    assert q * b == a;
    assert (1.0 - q) * b == b - a;
  }

  // ----- The score of a requirement, from the rows alone -----

  /** The last claim, and the last source, with an id. */
  ghost predicate LastClaim(claims: seq<Claim>, k: nat, id: string) {
    k < |claims| && claims[k].id == id && forall m :: k < m < |claims| ==> claims[m].id != id
  }

  ghost predicate LastSource(sources: seq<Source>, k: nat, id: string) {
    k < |sources| && sources[k].id == id && forall m :: k < m < |sources| ==> sources[m].id != id
  }

  lemma {:induction false} ClaimsByIdAre(claims: seq<Claim>, id: string)
    ensures id in ClaimsById(claims) <==> exists k: nat :: LastClaim(claims, k, id)
    ensures forall k: nat :: LastClaim(claims, k, id) ==> ClaimsById(claims)[id] == claims[k]
  {
    if claims != [] {
      var n := |claims| - 1;
      ClaimsByIdAre(claims[..n], id);
      if claims[n].id == id {
        assert LastClaim(claims, n, id);
      } else {
        forall k: nat ensures LastClaim(claims, k, id) <==> LastClaim(claims[..n], k, id) {
        }
      }
    }
  }

  lemma {:induction false} OwnerBySourceIs(sources: seq<Source>, id: string)
    ensures id in OwnerBySource(sources) <==> exists k: nat :: LastSource(sources, k, id)
    ensures forall k: nat :: LastSource(sources, k, id) ==>
      OwnerBySource(sources)[id] == if sources[k].ownerKey in {None, Some("")} then id else sources[k].ownerKey.value
  {
    if sources != [] {
      var n := |sources| - 1;
      OwnerBySourceIs(sources[..n], id);
      if sources[n].id == id {
        assert LastSource(sources, n, id);
      } else {
        forall k: nat ensures LastSource(sources, k, id) <==> LastSource(sources[..n], k, id) {
        }
      }
    }
  }

  /** An accepted row counts for a dimension when the last claim with its claim id, an absent
      one standing for the empty id, belongs to the question and the dimension. */
  ghost predicate CountsFor(rows: Rows, e: Evidence, questionId: string, dimension: string) {
    && e.accepted
    && exists k: nat :: && LastClaim(rows.claims, k, if e.claimId == None then "" else e.claimId.value)
                   && rows.claims[k].questionId == questionId && rows.claims[k].dimensionKey == dimension
  }

  /** The owner of a row with a source: the owner key of the last source with that id, or the
      id itself when that is empty or absent or no such source is listed. */
  ghost predicate OwnedBy(rows: Rows, e: Evidence, owner: string) {
    && e.sourceId.Some?
    && (forall k: nat :: LastSource(rows.sources, k, e.sourceId.value) ==>
          owner == if rows.sources[k].ownerKey in {None, Some("")} then e.sourceId.value
                   else rows.sources[k].ownerKey.value)
    && ((forall s :: s in rows.sources ==> s.id != e.sourceId.value) ==> owner == e.sourceId.value)
  }

  /** A dimension needs two owners when the criterion carries a marker or one of its claims
      is disputed, important, or of one of the four risky types. */
  ghost predicate NeedsTwo(marked: string -> bool, rows: Rows, criterion: string, dimension: string) {
    || marked(criterion)
    || exists c :: c in rows.claims && c.dimensionKey == dimension
                   && (|| c.status == "disputed" || c.importance >= 0.75
                       || c.claimType == "numeric" || c.claimType == "forecast"
                       || c.claimType == "comparative" || c.claimType == "market")
  }

  /** Some row counts for the dimension and has an owner. */
  ghost predicate HasOwner(rows: Rows, questionId: string, dimension: string) {
    exists e, o :: e in rows.evidence && CountsFor(rows, e, questionId, dimension) && OwnedBy(rows, e, o)
  }

  /** Two rows that count for the dimension have different owners. */
  ghost predicate HasTwoOwners(rows: Rows, questionId: string, dimension: string) {
    exists e, f, o, p ::
      && e in rows.evidence && CountsFor(rows, e, questionId, dimension) && OwnedBy(rows, e, o)
      && f in rows.evidence && CountsFor(rows, f, questionId, dimension) && OwnedBy(rows, f, p)
      && o != p
  }

  lemma CountsForKey(rows: Rows, e: Evidence, questionId: string, dimension: string)
    ensures CountsFor(rows, e, questionId, dimension)
       <==> KeyOf(ClaimsById(rows.claims), e) == Some(Key(questionId, dimension))
  {
    hide ClaimsById, LastClaim;
    ClaimsByIdAre(rows.claims, if e.claimId == None then "" else e.claimId.value);
  }

  lemma {:induction false} LastListed(sources: seq<Source>, id: string)
    ensures (exists k: nat :: LastSource(sources, k, id)) <==> exists s :: s in sources && s.id == id
  {
    if sources != [] {
      var n := |sources| - 1;
      LastListed(sources[..n], id);
      assert sources == sources[..n] + [sources[n]];
      if sources[n].id == id {
        assert LastSource(sources, n, id);
      } else {
        forall k: nat ensures LastSource(sources, k, id) <==> LastSource(sources[..n], k, id) {
        }
      }
    }
  }

  lemma OwnedByOwner(rows: Rows, e: Evidence, owner: string)
    ensures OwnedBy(rows, e, owner) <==>
      e.sourceId.Some? && owner == OwnerOf(OwnerBySource(rows.sources), e.sourceId.value)
  {
    hide OwnerBySource, LastSource;
    if e.sourceId.Some? {
      var id := e.sourceId.value;
      OwnerBySourceIs(rows.sources, id);
      LastListed(rows.sources, id);
      if id in OwnerBySource(rows.sources) {
        var k: nat :| LastSource(rows.sources, k, id);
      } else {
        assert forall s :: s in rows.sources ==> s.id != id;
      }
    }
  }

  /** The distinct owners of a dimension: none, some, or at least two. */
  lemma OwnersCounted(rows: Rows, questionId: string, dimension: string)
    ensures var owners := OwnerBySource(rows.sources);
      var n := |OwnerSet(ClaimsById(rows.claims), owners, rows.evidence, Key(questionId, dimension))|;
      && (n >= 1 <==> HasOwner(rows, questionId, dimension))
      && (n >= 2 <==> HasTwoOwners(rows, questionId, dimension))
  {
    hide KeyOf, OwnerOf, ClaimsById, OwnerBySource, CountsFor, OwnedBy;
    var s := OwnerSet(ClaimsById(rows.claims), OwnerBySource(rows.sources), rows.evidence, Key(questionId, dimension));
    forall e ensures CountsFor(rows, e, questionId, dimension)
      <==> KeyOf(ClaimsById(rows.claims), e) == Some(Key(questionId, dimension)) {
      CountsForKey(rows, e, questionId, dimension);
    }
    forall e, o
      ensures OwnedBy(rows, e, o) <==> e.sourceId.Some? && o == OwnerOf(OwnerBySource(rows.sources), e.sourceId.value)
    {
      OwnedByOwner(rows, e, o);
    }
    hide HasOwner, HasTwoOwners;
    TwoMembers(s);
    OwnersAmong(rows, questionId, dimension, s);
  }

  lemma OwnersAmong(rows: Rows, questionId: string, dimension: string, s: set<string>)
    requires forall o :: o in s <==>
      exists e :: e in rows.evidence && CountsFor(rows, e, questionId, dimension) && OwnedBy(rows, e, o)
    ensures HasOwner(rows, questionId, dimension) <==> exists x :: x in s
    ensures HasTwoOwners(rows, questionId, dimension) <==> exists x, y :: x in s && y in s && x != y
  {
    hide CountsFor, OwnedBy;
    if HasTwoOwners(rows, questionId, dimension) {
      var e, f, o, p :|
        && e in rows.evidence && CountsFor(rows, e, questionId, dimension) && OwnedBy(rows, e, o)
        && f in rows.evidence && CountsFor(rows, f, questionId, dimension) && OwnedBy(rows, f, p)
        && o != p;
      assert o in s && p in s;
    }
    if x, y :| x in s && y in s && x != y {
      var e :| e in rows.evidence && CountsFor(rows, e, questionId, dimension) && OwnedBy(rows, e, x);
      var f :| f in rows.evidence && CountsFor(rows, f, questionId, dimension) && OwnedBy(rows, f, y);
      assert HasTwoOwners(rows, questionId, dimension);
    }
    if HasOwner(rows, questionId, dimension) {
      var e, o :| e in rows.evidence && CountsFor(rows, e, questionId, dimension) && OwnedBy(rows, e, o);
      assert o in s;
    }
  }

  lemma TwoMembers(s: set<string>)
    ensures |s| >= 1 <==> exists x :: x in s
    ensures |s| >= 2 <==> exists x, y :: x in s && y in s && x != y
  {
    if s != {} {
      var x :| x in s;
      if s - {x} != {} {
        var y :| y in s - {x};
        SubsetSize({x, y}, s);
      } else {
        assert s == {x};
      }
    }
  }

  /** The score of a requirement, with everything it depends on written out: the dimension is
      `question:d<number>`, without any row that counts for it the score is 0, and it is 1
      exactly with enough owners, two or one. */
  lemma RequirementExactly(marked: string -> bool, rows: Rows, item: PlanItem, k: nat)
    requires k < |item.requirements|
    ensures var dimension := item.questionId + ":d" + Decimal(k + 1);
      var score := RequirementScore(marked, rows, item, k);
      && (score == 1.0 <==> if NeedsTwo(marked, rows, item.requirements[k], dimension)
                            then HasTwoOwners(rows, item.questionId, dimension)
                            else HasOwner(rows, item.questionId, dimension))
      && (score == 0.0 <==> !exists e :: e in rows.evidence && CountsFor(rows, e, item.questionId, dimension))
      && score in {0.0, 0.5, 1.0}
  {
    hide KeyOf, OwnerSet, ClaimsById, OwnerBySource, CountsFor, OwnedBy, Decimal, RequirementScore;
    var dimension := item.questionId + ":d" + Decimal(k + 1);
    MetExactly(marked, rows, item, k);
    OwnersCounted(rows, item.questionId, dimension);
    forall e ensures CountsFor(rows, e, item.questionId, dimension)
      <==> KeyOf(ClaimsById(rows.claims), e) == Some(Key(item.questionId, dimension)) {
      CountsForKey(rows, e, item.questionId, dimension);
    }
  }

  /** Sources of one owner count once: when all sources of the rows of a dimension are listed
      under one owner key, a requirement that needs two owners scores at most one half. */
  lemma OneOwnerCountsOnce(marked: string -> bool, rows: Rows, item: PlanItem, k: nat, owner: string)
    requires k < |item.requirements| && owner != ""
    requires var dimension := item.questionId + ":d" + Decimal(k + 1);
      && NeedsTwo(marked, rows, item.requirements[k], dimension)
      && forall e :: e in rows.evidence && CountsFor(rows, e, item.questionId, dimension) && e.sourceId.Some? ==>
           && (exists s :: s in rows.sources && s.id == e.sourceId.value)
           && forall s :: s in rows.sources && s.id == e.sourceId.value ==> s.ownerKey == Some(owner)
    ensures RequirementScore(marked, rows, item, k) <= 0.5
  {
    hide CountsFor, NeedsTwo, RequirementScore, Decimal;
    var dimension := item.questionId + ":d" + Decimal(k + 1);
    RequirementExactly(marked, rows, item, k);
    hide LastSource;
    forall e, o | e in rows.evidence && CountsFor(rows, e, item.questionId, dimension) && OwnedBy(rows, e, o)
      ensures o == owner
    {
      LastListed(rows.sources, e.sourceId.value);
      var m: nat :| LastSource(rows.sources, m, e.sourceId.value);
      assert rows.sources[m] in rows.sources;
    }
  }

  /** Two rows of sources with different owners suffice for every requirement. */
  lemma TwoOwnersSuffice(marked: string -> bool, rows: Rows, item: PlanItem, k: nat)
    requires k < |item.requirements|
    requires HasTwoOwners(rows, item.questionId, item.questionId + ":d" + Decimal(k + 1))
    ensures RequirementScore(marked, rows, item, k) == 1.0
  {
    hide CountsFor, OwnedBy, NeedsTwo, RequirementScore, Decimal;
    RequirementExactly(marked, rows, item, k);
  }

  // ----- The means -----

  /** An item's coverage is the mean of its scores: the number of requirements that score 1
      and half the number of those that score one half, over the number of all. */
  lemma ItemIsMean(marked: string -> bool, rows: Rows, item: PlanItem)
    ensures var n := |item.requirements|;
      var full := set k: nat | k < n && RequirementScore(marked, rows, item, k) == 1.0;
      var half := set k: nat | k < n && RequirementScore(marked, rows, item, k) == 0.5;
      ItemCoverage(marked, rows, item) * n as real == |full| as real + 0.5 * |half| as real
  {
    hide RequirementScore;
    var n := |item.requirements|;
    ScoreSumCounts(marked, rows, item, n);
    if n > 0 {
      var q := ScoreSum(marked, rows, item, n) / n as real;
      assert q * n as real == ScoreSum(marked, rows, item, n);
    }
  }

  /** The requirements among the first `n` that score `v`. */
  function Scoring(marked: string -> bool, rows: Rows, item: PlanItem, n: nat, v: real): set<nat>
    requires n <= |item.requirements|
  {
    set k: nat | k < n && RequirementScore(marked, rows, item, k) == v
  }

  lemma ScoringStep(marked: string -> bool, rows: Rows, item: PlanItem, n: nat, v: real)
    requires n < |item.requirements|
    ensures Scoring(marked, rows, item, n + 1, v)
         == Scoring(marked, rows, item, n, v) + (if RequirementScore(marked, rows, item, n) == v then {n} else {})
    ensures n !in Scoring(marked, rows, item, n, v) && Scoring(marked, rows, item, 0, v) == {}
  {
    hide RequirementScore;
  }

  lemma {:induction false} ScoreSumCounts(marked: string -> bool, rows: Rows, item: PlanItem, n: nat)
    requires n <= |item.requirements|
    ensures ScoreSum(marked, rows, item, n)
         == |Scoring(marked, rows, item, n, 1.0)| as real + 0.5 * |Scoring(marked, rows, item, n, 0.5)| as real
  {
    hide RequirementScore, Scoring;
    if n == 0 {
      NoneScoring(marked, rows, item);
    } else {
      ScoreSumCounts(marked, rows, item, n - 1);
      ScoreValues(marked, rows, item, n - 1);
      ScoringStep(marked, rows, item, n - 1, 1.0);
      ScoringStep(marked, rows, item, n - 1, 0.5);
    }
  }

  lemma NoneScoring(marked: string -> bool, rows: Rows, item: PlanItem)
    ensures Scoring(marked, rows, item, 0, 1.0) == {} && Scoring(marked, rows, item, 0, 0.5) == {}
  {
  }

  lemma ScoreValues(marked: string -> bool, rows: Rows, item: PlanItem, k: nat)
    requires k < |item.requirements|
    ensures RequirementScore(marked, rows, item, k) in {0.0, 0.5, 1.0}
  {
  }

  function SumOf(items: seq<PlanItem>, f: PlanItem -> real): real {
    if items == [] then 0.0 else SumOf(items[..|items| - 1], f) + f(items[|items| - 1])
  }

  /** Four less the priority, which is 1 when it is absent or zero. */
  function WeightOf(): PlanItem -> real {
    (item: PlanItem) => match item.priority
      case None => 3.0
      case Some(p) => if p == 0 then 3.0 else 4.0 - p as real
  }

  /** Coverage is the mean of the item coverages, weighted by four less the priority. */
  lemma CoverageIsWeightedMean(marked: string -> bool, rows: Rows, items: seq<PlanItem>)
    ensures SumOf(items, WeightOf()) != 0.0 ==>
      CoverageOf(marked, rows, items) * SumOf(items, WeightOf())
        == SumOf(items, (item: PlanItem) => ItemCoverage(marked, rows, item) * WeightOf()(item))
    ensures SumOf(items, WeightOf()) == 0.0 ==> CoverageOf(marked, rows, items) == 0.0
  {
    hide ItemCoverage, SumOf, WeightedSum, TotalWeight;
    SumsAgree(marked, rows, items);
    if TotalWeight(items) != 0.0 {
      var q := WeightedSum(marked, rows, items) / TotalWeight(items);
      assert q * TotalWeight(items) == WeightedSum(marked, rows, items);
    }
  }

  lemma {:induction false} SumsAgree(marked: string -> bool, rows: Rows, items: seq<PlanItem>)
    ensures SumOf(items, WeightOf()) == TotalWeight(items)
    ensures SumOf(items, (item: PlanItem) => ItemCoverage(marked, rows, item) * WeightOf()(item))
         == WeightedSum(marked, rows, items)
  {
    hide ItemCoverage;
    if items != [] {
      SumsAgree(marked, rows, items[..|items| - 1]);
    }
  }

  lemma OfVersionMeans(planVersion: Option<int>)
    ensures forall item :: OfVersion(planVersion, item) <==>
      planVersion == None || item.planVersion == None || item.planVersion == planVersion
  {
  }

  /** The plan items replayed: those of the version, of no version, or all without one. */
  lemma {:induction false} FilteredAre(planVersion: Option<int>, items: seq<PlanItem>)
    ensures forall item :: item in Filtered(planVersion, items) <==>
      item in items && (planVersion == None || item.planVersion == None || item.planVersion == planVersion)
    ensures multiset(Filtered(planVersion, items)) <= multiset(items)
    ensures planVersion == None ==> Filtered(planVersion, items) == items
  {
    hide OfVersion;
    OfVersionMeans(planVersion);
    if items != [] {
      var rest, last := items[..|items| - 1], items[|items| - 1];
      FilteredAre(planVersion, rest);
      assert items == rest + [last];
    }
  }
}
