/** The counts of the evidence-to-claim funnel of a run and its per-dimension matrix. */
module Funnel {
  import opened Basics
  import CoverageLoss

  datatype Claim = Claim(id: string, dimensionKey: Option<string>)

  datatype Evidence = Evidence(accepted: bool, claimId: Option<string>, sourceId: Option<string>)

  datatype Source = Source(id: string, ownerKey: string)

  datatype Run = Run(claims: seq<Claim>, evidence: seq<Evidence>, sources: seq<Source>,
                     gapRows: seq<CoverageLoss.GapRow>)

  function OwnerKeys(sources: seq<Source>): map<string, string> {
    if sources == [] then map[]
    else
      var s := sources[|sources| - 1];
      OwnerKeys(sources[..|sources| - 1])[s.id := s.ownerKey]
  }

  function OwnerOf(owners: map<string, string>, e: Evidence): string {
    var id := if e.sourceId.Some? then e.sourceId.value else "";
    if id in owners then owners[id] else id
  }

  predicate Backs(e: Evidence, claimId: string) {
    e.accepted && e.claimId == Some(claimId)
  }

  /** The distinct owners of the accepted evidence of a claim. */
  function OwnersOf(owners: map<string, string>, evidence: seq<Evidence>, claimId: string): set<string> {
    set e | e in evidence && Backs(e, claimId) :: OwnerOf(owners, e)
  }

  // ----- Verification bars -----

  /** The largest number of independent sources required in each dimension. */
  function Bars(rows: seq<CoverageLoss.GapRow>): map<string, int> {
    if rows == [] then map[]
    else
      var before, last := Bars(rows[..|rows| - 1]), rows[|rows| - 1];
      if last.dimensionKey.None? then before
      else
        var d := last.dimensionKey.value;
        before[d := Max(if d in before then before[d] else 0, last.requiredSources)]
  }

  /** bars.get(key, 1) or 1 */
  function Bar(bars: map<string, int>, key: string): int {
    var b := if key in bars then bars[key] else 1;
    if b == 0 then 1 else b
  }

  /** The bar of a dimension is the least number that is at least 1 and at least what
      each of its requirements demands. */
  lemma {:induction false} BarIsStrictest(rows: seq<CoverageLoss.GapRow>, key: string)
    ensures Bar(Bars(rows), key) >= 1
    ensures forall r :: r in rows && r.dimensionKey == Some(key) ==> r.requiredSources <= Bar(Bars(rows), key)
    ensures || Bar(Bars(rows), key) == 1
            || exists r :: r in rows && r.dimensionKey == Some(key) && r.requiredSources == Bar(Bars(rows), key)
    ensures key in Bars(rows) ==> Bars(rows)[key] >= 0
    ensures key !in Bars(rows) ==> forall r :: r in rows ==> r.dimensionKey != Some(key)
  {
    if rows != [] {
      var rest, last := rows[..|rows| - 1], rows[|rows| - 1];
      BarIsStrictest(rest, key);
      assert rows == rest + [last];
      assert forall r :: r in rows <==> r in rest || r == last;
    }
  }

  // ----- The funnel -----

  function AcceptedFlags(evidence: seq<Evidence>): seq<bool> {
    seq(|evidence|, i requires 0 <= i < |evidence| => evidence[i].accepted)
  }

  function WithClaimFlags(evidence: seq<Evidence>): seq<bool> {
    seq(|evidence|, i requires 0 <= i < |evidence| =>
      evidence[i].accepted && evidence[i].claimId.Some? && evidence[i].claimId.value != "")
  }

  /** The owners behind each claim. */
  function ClaimOwners(run: Run): (r: seq<set<string>>)
    ensures |r| == |run.claims|
  {
    seq(|run.claims|, i requires 0 <= i < |run.claims| =>
        OwnersOf(OwnerKeys(run.sources), run.evidence, run.claims[i].id))
  }

  function OrEmpty(key: Option<string>): string {
    if key.Some? then key.value else ""
  }

  function SupportedFlags(run: Run): seq<bool> {
    seq(|run.claims|, i requires 0 <= i < |run.claims| => ClaimOwners(run)[i] != {})
  }

  function VerifiedFlags(run: Run): seq<bool> {
    seq(|run.claims|, i requires 0 <= i < |run.claims| =>
      ClaimOwners(run)[i] != {} && |ClaimOwners(run)[i]| >= Bar(Bars(run.gapRows), OrEmpty(run.claims[i].dimensionKey)))
  }

  function SingleFlags(run: Run): seq<bool> {
    seq(|run.claims|, i requires 0 <= i < |run.claims| => |ClaimOwners(run)[i]| == 1)
  }

  function MultiFlags(run: Run): seq<bool> {
    seq(|run.claims|, i requires 0 <= i < |run.claims| => |ClaimOwners(run)[i]| >= 2)
  }

  datatype Metrics = Metrics(candidate: nat, accepted: nat, acceptedWithClaim: nat,
                             supported: nat, verified: nat, singleSource: nat, multiSource: nat,
                             gapSatisfied: nat)

  function MetricsOf(run: Run): Metrics {
    Metrics(|run.evidence|, CountTrue(AcceptedFlags(run.evidence)), CountTrue(WithClaimFlags(run.evidence)),
            CountTrue(SupportedFlags(run)), CountTrue(VerifiedFlags(run)),
            CountTrue(SingleFlags(run)), CountTrue(MultiFlags(run)),
            CountTrue(CoverageLoss.ClosedFlags(run.gapRows)))
  }

  function SeenOwners(seen: map<string, set<string>>, id: string): set<string> {
    if id in seen then seen[id] else {}
  }

  function SeenCount(seen: map<string, nat>, id: string): nat {
    if id in seen then seen[id] else 0
  }

  ghost predicate Grouped(owners: map<string, string>, evidence: seq<Evidence>, claimOwners: map<string, set<string>>,
                          counts: map<string, nat>) {
    forall id ::
      && SeenOwners(claimOwners, id) == OwnersOf(owners, evidence, id)
      && (SeenCount(counts, id) > 0 <==> OwnersOf(owners, evidence, id) != {})
  }

  lemma NothingGrouped(owners: map<string, string>)
    ensures Grouped(owners, [], map[], map[])
  {
    assert forall id :: OwnersOf(owners, [], id) == {};
  }

  lemma OwnersOfSnoc(owners: map<string, string>, evidence: seq<Evidence>, e: Evidence, id: string)
    ensures OwnersOf(owners, evidence + [e], id)
        == OwnersOf(owners, evidence, id) + (if Backs(e, id) then {OwnerOf(owners, e)} else {})
  {
    hide Backs, OwnerOf;
    assert forall x :: x in evidence + [e] <==> x in evidence || x == e;
  }

  lemma GroupStep(owners: map<string, string>, evidence: seq<Evidence>, e: Evidence,
                  claimOwners: map<string, set<string>>, counts: map<string, nat>)
    requires Grouped(owners, evidence, claimOwners, counts)
    ensures !e.accepted || e.claimId.None? ==> Grouped(owners, evidence + [e], claimOwners, counts)
    ensures e.accepted && e.claimId.Some? ==>
      var id := e.claimId.value;
      Grouped(owners, evidence + [e], claimOwners[id := SeenOwners(claimOwners, id) + {OwnerOf(owners, e)}],
              counts[id := SeenCount(counts, id) + 1])
  {
    hide OwnersOf, OwnerOf;
    forall id ensures OwnersOf(owners, evidence + [e], id)
        == OwnersOf(owners, evidence, id) + (if Backs(e, id) then {OwnerOf(owners, e)} else {}) {
      OwnersOfSnoc(owners, evidence, e, id);
    }
    if e.accepted && e.claimId.Some? {
      var id := e.claimId.value;
      var claimOwners' := claimOwners[id := SeenOwners(claimOwners, id) + {OwnerOf(owners, e)}];
      var counts' := counts[id := SeenCount(counts, id) + 1];
      forall other
        ensures SeenOwners(claimOwners', other) == OwnersOf(owners, evidence + [e], other)
             && (SeenCount(counts', other) > 0 <==> OwnersOf(owners, evidence + [e], other) != {})
      {
        assert SeenOwners(claimOwners, other) == OwnersOf(owners, evidence, other);
      }
    }
  }

  /** The owners and the number of accepted evidence rows of every claim id. */
  method GroupByClaim(owners: map<string, string>, evidence: seq<Evidence>)
    returns (claimOwners: map<string, set<string>>, counts: map<string, nat>)
    ensures Grouped(owners, evidence, claimOwners, counts)
  {
    hide Grouped, OwnerOf, SeenOwners, SeenCount;
    claimOwners, counts := map[], map[];
    NothingGrouped(owners);
    for k := 0 to |evidence|
      invariant Grouped(owners, evidence[..k], claimOwners, counts)
    {
      var e := evidence[k];
      assert evidence[..k + 1] == evidence[..k] + [e];
      GroupStep(owners, evidence[..k], e, claimOwners, counts);
      if !e.accepted || e.claimId.None? {
        continue;
      }
      var id := e.claimId.value;
      claimOwners := claimOwners[id := SeenOwners(claimOwners, id) + {OwnerOf(owners, e)}];
      counts := counts[id := SeenCount(counts, id) + 1];
    }
    assert evidence[..|evidence|] == evidence;
  }

  method BuildRunMetrics(run: Run) returns (m: Metrics)
    ensures m == MetricsOf(run)
  {
    hide OwnersOf, Bar, Bars, OwnerKeys, CoverageLoss.EffectiveState;
    var claimOwners, counts := GroupByClaim(OwnerKeys(run.sources), run.evidence);
    var bars := Bars(run.gapRows);
    var accepted, withClaim, supported, verified, single, multi := 0, 0, 0, 0, 0, 0;
    for k := 0 to |run.evidence|
      invariant accepted == CountTrue(AcceptedFlags(run.evidence)[..k])
      invariant withClaim == CountTrue(WithClaimFlags(run.evidence)[..k])
    {
      var e := run.evidence[k];
      Next(AcceptedFlags(run.evidence), k);
      Next(WithClaimFlags(run.evidence), k);
      if e.accepted {
        accepted := accepted + 1;
        if e.claimId.Some? && e.claimId.value != "" {
          withClaim := withClaim + 1;
        }
      }
    }
    for k := 0 to |run.claims|
      invariant supported == CountTrue(SupportedFlags(run)[..k])
      invariant verified == CountTrue(VerifiedFlags(run)[..k])
      invariant single == CountTrue(SingleFlags(run)[..k])
      invariant multi == CountTrue(MultiFlags(run)[..k])
    {
      var c := run.claims[k];
      Next(SupportedFlags(run), k);
      Next(VerifiedFlags(run), k);
      Next(SingleFlags(run), k);
      Next(MultiFlags(run), k);
      var owners := SeenOwners(claimOwners, c.id);
      assert owners == ClaimOwners(run)[k];
      if SeenCount(counts, c.id) > 0 {
        supported := supported + 1;
        if |owners| >= Bar(bars, OrEmpty(c.dimensionKey)) {
          verified := verified + 1;
        }
        if |owners| == 1 {
          single := single + 1;
        }
        if |owners| >= 2 {
          multi := multi + 1;
        }
      }
    }
    var gapSatisfied := 0;
    var closed := CoverageLoss.ClosedFlags(run.gapRows);
    for k := 0 to |run.gapRows|
      invariant gapSatisfied == CountTrue(closed[..k])
    {
      Next(closed, k);
      if CoverageLoss.EffectiveState(run.gapRows[k]) == CoverageLoss.Closed {
        gapSatisfied := gapSatisfied + 1;
      }
    }
    Whole(closed);
    Whole(AcceptedFlags(run.evidence));
    Whole(WithClaimFlags(run.evidence));
    Whole(SupportedFlags(run));
    Whole(VerifiedFlags(run));
    Whole(SingleFlags(run));
    Whole(MultiFlags(run));
    m := Metrics(|run.evidence|, accepted, withClaim, supported, verified, single, multi, gapSatisfied);
  }

  // ----- What the funnel guarantees -----

  /** Claim ids are primary keys: unique and not empty. */
  ghost predicate ProperIds(claims: seq<Claim>) {
    && (forall i :: 0 <= i < |claims| ==> claims[i].id != "")
    && forall i, j :: 0 <= i < j < |claims| ==> claims[i].id != claims[j].id
  }

  /** The claim ids named by accepted evidence. */
  function NamedIds(evidence: seq<Evidence>): set<string> {
    set e | e in evidence && e.accepted && e.claimId.Some? && e.claimId.value != "" :: e.claimId.value
  }

  lemma {:induction false} NamedIdsCount(evidence: seq<Evidence>)
    ensures |NamedIds(evidence)| <= CountTrue(WithClaimFlags(evidence))
  {
    if evidence == [] {
      assert NamedIds(evidence) == {};
    } else {
      var rest, last := evidence[..|evidence| - 1], evidence[|evidence| - 1];
      NamedIdsCount(rest);
      assert evidence == rest + [last];
      assert forall e :: e in evidence <==> e in rest || e == last;
      var f := WithClaimFlags(evidence);
      assert f[..|f| - 1] == WithClaimFlags(rest);
      if f[|f| - 1] {
        SubsetSize(NamedIds(evidence), NamedIds(rest) + {last.claimId.value});
      } else {
        assert NamedIds(evidence) == NamedIds(rest);
      }
    }
  }

  /** Different supported claims use up different named ids. */
  lemma {:induction false} SupportedNamed(claims: seq<Claim>, flags: seq<bool>, named: set<string>)
    requires ProperIds(claims) && |flags| == |claims|
    requires forall i :: 0 <= i < |claims| ==> flags[i] ==> claims[i].id in named
    ensures CountTrue(flags) <= |named|
  {
    if claims != [] {
      var n := |claims| - 1;
      var smaller := if flags[n] then named - {claims[n].id} else named;
      SupportedNamed(claims[..n], flags[..n], smaller);
    }
  }

  lemma SupportedIsNamed(run: Run, i: nat)
    requires i < |run.claims| && run.claims[i].id != "" && SupportedFlags(run)[i]
    ensures run.claims[i].id in NamedIds(run.evidence)
  {
    OwnerHasRow(OwnerKeys(run.sources), run.evidence, run.claims[i].id);
    assert ClaimOwners(run)[i] != {};
    var e :| e in run.evidence && Backs(e, run.claims[i].id);
    assert e.claimId.value in NamedIds(run.evidence);
  }

  lemma OwnerHasRow(owners: map<string, string>, evidence: seq<Evidence>, id: string)
    ensures OwnersOf(owners, evidence, id) != {} <==> exists e :: e in evidence && Backs(e, id)
  {
    hide OwnerOf, Backs;
    if OwnersOf(owners, evidence, id) != {} {
      var o :| o in OwnersOf(owners, evidence, id);
    }
    if e :| e in evidence && Backs(e, id) {
      assert OwnerOf(owners, e) in OwnersOf(owners, evidence, id);
    }
  }

  /** The funnel narrows: verified <= supported <= accepted with a claim <= accepted <=
      candidate. Only the second step needs proper claim ids. */
  lemma FunnelNests(run: Run)
    ensures var m := MetricsOf(run);
      && m.verified <= m.supported
      && (ProperIds(run.claims) ==> m.supported <= m.acceptedWithClaim)
      && m.acceptedWithClaim <= m.accepted <= m.candidate
  {
    hide ClaimOwners, Bar, Bars, ProperIds, CountTrue, NamedIds;
    CountTrueImplies(VerifiedFlags(run), SupportedFlags(run));
    CountTrueImplies(WithClaimFlags(run.evidence), AcceptedFlags(run.evidence));
    if ProperIds(run.claims) {
      forall i: nat | i < |run.claims| && SupportedFlags(run)[i] ensures run.claims[i].id in NamedIds(run.evidence) {
        IdNotEmpty(run.claims, i);
        SupportedIsNamed(run, i);
      }
      SupportedNamed(run.claims, SupportedFlags(run), NamedIds(run.evidence));
      NamedIdsCount(run.evidence);
    }
  }

  lemma IdNotEmpty(claims: seq<Claim>, i: nat)
    requires ProperIds(claims) && i < |claims|
    ensures claims[i].id != ""
  {
  }

  /** Every supported claim is single-source or multi-source, and never both. */
  lemma SingleOrMulti(run: Run)
    ensures MetricsOf(run).singleSource + MetricsOf(run).multiSource == MetricsOf(run).supported
  {
    hide ClaimOwners;
    CountTrueSplits(SingleFlags(run), MultiFlags(run), SupportedFlags(run));
  }

  lemma {:induction false} CountTrueTwo(flags: seq<bool>, i: nat, j: nat)
    requires i < j < |flags| && flags[i] && flags[j]
    ensures CountTrue(flags) >= 2
  {
    var n := |flags| - 1;
    if j < n {
      CountTrueTwo(flags[..n], i, j);
    } else {
      CountTrueSome(flags[..n], i);
    }
  }

  /** A run with the given claims whose only evidence is one accepted row for `id`. */
  function OneRow(claims: seq<Claim>, id: string): Run {
    Run(claims, [Evidence(true, Some(id), Some("s"))], [], [])
  }

  lemma OneRowCounts(claims: seq<Claim>, id: string)
    ensures MetricsOf(OneRow(claims, id)).acceptedWithClaim == if id == "" then 0 else 1
    ensures forall i :: 0 <= i < |claims| && claims[i].id == id ==> SupportedFlags(OneRow(claims, id))[i]
  {
    hide OwnersOf, OwnerKeys, VerifiedFlags, SingleFlags, MultiFlags, AcceptedFlags, CoverageLoss.ClosedFlags,
         CountTrue, Backs;
    var run := OneRow(claims, id);
    OneRowBacks(id);
    OwnerHasRow(OwnerKeys(run.sources), run.evidence, id);
    assert run.evidence[0] in run.evidence;
    forall i | 0 <= i < |claims| && claims[i].id == id ensures SupportedFlags(run)[i] {
      assert ClaimOwners(run)[i] == OwnersOf(OwnerKeys(run.sources), run.evidence, id);
    }
    CountTrueOne(id != "");
    assert WithClaimFlags(run.evidence) == [id != ""];
  }

  lemma OneRowBacks(id: string)
    ensures Backs(Evidence(true, Some(id), Some("s")), id)
  {
  }

  lemma CountTrueOne(b: bool)
    ensures CountTrue([b]) == if b then 1 else 0
  {
    assert [b][..0] == [];
  }

  /** When two claims share an id, or one has the empty id, there is evidence that supports
      more claims than it names. */
  lemma NestingFails(claims: seq<Claim>) returns (id: string)
    requires !ProperIds(claims)
    ensures var m := MetricsOf(OneRow(claims, id)); m.supported > m.acceptedWithClaim
  {
    hide OneRow, SupportedFlags, CountTrue, ClaimOwners, VerifiedFlags, SingleFlags, MultiFlags;
    if i :| 0 <= i < |claims| && claims[i].id == "" {
      id := "";
      OneRowCounts(claims, id);
      SupportedSize(claims, id);
      CountTrueSome(SupportedFlags(OneRow(claims, id)), i);
    } else {
      var i, j :| 0 <= i < j < |claims| && claims[i].id == claims[j].id;
      id := claims[i].id;
      OneRowCounts(claims, id);
      SupportedSize(claims, id);
      CountTrueTwo(SupportedFlags(OneRow(claims, id)), i, j);
    }
  }

  lemma SupportedSize(claims: seq<Claim>, id: string)
    ensures |SupportedFlags(OneRow(claims, id))| == |claims|
    ensures OneRow(claims, id).claims == claims
  {
  }

  /** Claim ids that are unique and not empty, as primary keys are, are exactly what makes
      the funnel narrow from accepted evidence to supported claims whatever the evidence. */
  lemma NestsExactly(claims: seq<Claim>)
    ensures ProperIds(claims) <==>
      forall evidence, sources, gapRows ::
        var m := MetricsOf(Run(claims, evidence, sources, gapRows)); m.supported <= m.acceptedWithClaim
  {
    hide ProperIds, MetricsOf;
    if ProperIds(claims) {
      forall evidence, sources, gapRows
        ensures var m := MetricsOf(Run(claims, evidence, sources, gapRows)); m.supported <= m.acceptedWithClaim
      {
        FunnelNests(Run(claims, evidence, sources, gapRows));
      }
    } else {
      var id := NestingFails(claims);
      var run := OneRow(claims, id);
      assert run == Run(claims, run.evidence, run.sources, run.gapRows);
    }
  }

  /** The requirements counted as satisfied are those the loss analysis does not count as
      uncovered. */
  lemma SatisfiedOrUncovered(run: Run)
    ensures MetricsOf(run).gapSatisfied + CountTrue(CoverageLoss.UncoveredFlags(run.gapRows)) == |run.gapRows|
  {
    CoverageLoss.ClosedOrUncovered(run.gapRows);
  }

  // ----- The funnel, from the rows alone -----

  /** A field that is absent or empty. */
  predicate Missing(field: Option<string>) {
    field.None? || field.value == ""
  }

  /** The last claim, and the last source, with an id. */
  ghost predicate LastClaim(claims: seq<Claim>, k: nat, id: string) {
    k < |claims| && claims[k].id == id && forall m :: k < m < |claims| ==> claims[m].id != id
  }

  ghost predicate LastSource(sources: seq<Source>, k: nat, id: string) {
    k < |sources| && sources[k].id == id && forall m :: k < m < |sources| ==> sources[m].id != id
  }

  lemma {:induction false} OwnerKeysAre(sources: seq<Source>, id: string)
    ensures id in OwnerKeys(sources) <==> exists s :: s in sources && s.id == id
    ensures forall k: nat :: LastSource(sources, k, id) ==>
      id in OwnerKeys(sources) && OwnerKeys(sources)[id] == sources[k].ownerKey
    ensures id in OwnerKeys(sources) ==> exists k: nat :: LastSource(sources, k, id)
  {
    if sources != [] {
      var n := |sources| - 1;
      OwnerKeysAre(sources[..n], id);
      assert sources == sources[..n] + [sources[n]];
      if sources[n].id == id {
        assert LastSource(sources, n, id);
      } else {
        forall k: nat ensures LastSource(sources, k, id) <==> LastSource(sources[..n], k, id) {
        }
      }
    }
  }

  /** The owner of an evidence row: the owner key of the last source with its source id, or
      that id itself when no such source is listed; an absent id stands for the empty one. */
  ghost predicate OwnedBy(run: Run, e: Evidence, owner: string) {
    var id := if e.sourceId == None then "" else e.sourceId.value;
    && (forall k: nat :: LastSource(run.sources, k, id) ==> owner == run.sources[k].ownerKey)
    && ((forall s :: s in run.sources ==> s.id != id) ==> owner == id)
  }

  lemma OwnedByOwner(run: Run, e: Evidence, owner: string)
    ensures OwnedBy(run, e, owner) <==> owner == OwnerOf(OwnerKeys(run.sources), e)
  {
    hide OwnerKeys, LastSource;
    var id := if e.sourceId == None then "" else e.sourceId.value;
    OwnerKeysAre(run.sources, id);
    if id in OwnerKeys(run.sources) {
      var k: nat :| LastSource(run.sources, k, id);
    }
  }

  /** The owners behind a claim are those of the accepted rows that name it. */
  lemma ClaimOwnersExactly(run: Run, i: nat, owner: string)
    requires i < |run.claims|
    ensures owner in ClaimOwners(run)[i] <==>
      exists e :: e in run.evidence && e.accepted && e.claimId == Some(run.claims[i].id) && OwnedBy(run, e, owner)
  {
    hide OwnerOf, OwnerKeys, OwnedBy;
    var owners, id := OwnerKeys(run.sources), run.claims[i].id;
    forall e ensures OwnedBy(run, e, owner) <==> owner == OwnerOf(owners, e) {
      OwnedByOwner(run, e, owner);
    }
    assert ClaimOwners(run)[i] == OwnersOf(owners, run.evidence, id);
    if owner in OwnersOf(owners, run.evidence, id) {
      var e :| e in run.evidence && Backs(e, id) && owner == OwnerOf(owners, e);
    }
    if e :| e in run.evidence && e.accepted && e.claimId == Some(id) && OwnedBy(run, e, owner) {
      assert Backs(e, id);
    }
  }

  /** Sources of one owner count once. */
  lemma OneOwnerCountsOnce(run: Run, i: nat, owner: string)
    requires i < |run.claims|
    requires forall e :: e in run.evidence && e.accepted && e.claimId == Some(run.claims[i].id) ==>
      && e.sourceId.Some?
      && (exists s :: s in run.sources && s.id == e.sourceId.value)
      && forall s :: s in run.sources && s.id == e.sourceId.value ==> s.ownerKey == owner
    ensures |ClaimOwners(run)[i]| <= 1
  {
    hide ClaimOwners;
    forall o | o in ClaimOwners(run)[i] ensures o == owner {
      ClaimOwnersExactly(run, i, o);
      var e :| e in run.evidence && e.accepted && e.claimId == Some(run.claims[i].id) && OwnedBy(run, e, o);
      hide LastSource;
      OwnerKeysAre(run.sources, e.sourceId.value);
      var k: nat :| LastSource(run.sources, k, e.sourceId.value);
      LastIsListed(run.sources, k, e.sourceId.value);
    }
    SubsetSize(ClaimOwners(run)[i], {owner});
  }

  lemma LastIsListed(sources: seq<Source>, k: nat, id: string)
    requires LastSource(sources, k, id)
    ensures k < |sources| && sources[k] in sources && sources[k].id == id
  {
  }

  /** A claim is supported by an accepted row that names it, single-source with one owner,
      multi-source with more, and verified when it is supported and has as many owners as
      every requirement of its dimension demands; the matrix looks for the requirements of a
      claim without a key under "(none)" instead of the empty key. */
  lemma ClaimFlagsExactly(run: Run, i: nat)
    requires i < |run.claims|
    ensures var c, n := run.claims[i], |ClaimOwners(run)[i]|;
      && (SupportedFlags(run)[i] <==> exists e :: e in run.evidence && e.accepted && e.claimId == Some(c.id))
      && (SingleFlags(run)[i] <==> n == 1)
      && (MultiFlags(run)[i] <==> n > 1)
      && (VerifiedFlags(run)[i] <==>
            && SupportedFlags(run)[i]
            && forall r :: r in run.gapRows
                           && r.dimensionKey == Some(if c.dimensionKey == None then "" else c.dimensionKey.value)
                           ==> n >= r.requiredSources)
      && (MatrixVerifiedFlags(run)[i] <==>
            && SupportedFlags(run)[i]
            && forall r :: r in run.gapRows
                           && r.dimensionKey == Some(if Missing(c.dimensionKey) then "(none)" else c.dimensionKey.value)
                           ==> n >= r.requiredSources)
  {
    hide OwnersOf, OwnerKeys, Bar, Bars;
    var c := run.claims[i];
    OwnerHasRow(OwnerKeys(run.sources), run.evidence, c.id);
    assert ClaimOwners(run)[i] == OwnersOf(OwnerKeys(run.sources), run.evidence, c.id);
    BarIsStrictest(run.gapRows, OrEmpty(c.dimensionKey));
    BarIsStrictest(run.gapRows, OrNone(c.dimensionKey));
    assert ClaimOwners(run)[i] != {} ==> |ClaimOwners(run)[i]| >= 1;
  }

  /** The counts of the funnel as numbers of rows. */
  lemma MetricsExactly(run: Run)
    ensures var m := MetricsOf(run);
      && m.candidate == |run.evidence|
      && m.accepted == |set i: nat | i < |run.evidence| && run.evidence[i].accepted|
      && m.acceptedWithClaim
         == |set i: nat | i < |run.evidence| && run.evidence[i].accepted && !Missing(run.evidence[i].claimId)|
      && m.supported == |set i: nat | i < |run.claims| && SupportedFlags(run)[i]|
      && m.verified == |set i: nat | i < |run.claims| && VerifiedFlags(run)[i]|
      && m.singleSource == |set i: nat | i < |run.claims| && SingleFlags(run)[i]|
      && m.multiSource == |set i: nat | i < |run.claims| && MultiFlags(run)[i]|
      && m.gapSatisfied
         == |set i: nat | i < |run.gapRows| && CoverageLoss.EffectiveState(run.gapRows[i]) == CoverageLoss.Closed|
  {
    hide CountTrue, CoverageLoss.EffectiveState, SupportedFlags, VerifiedFlags, SingleFlags, MultiFlags;
    AcceptedCounts(run.evidence);
    ClosedCount(run.gapRows);
    ClaimCounts(run);
  }

  lemma AcceptedCounts(evidence: seq<Evidence>)
    ensures CountTrue(AcceptedFlags(evidence)) == |set i: nat | i < |evidence| && evidence[i].accepted|
    ensures CountTrue(WithClaimFlags(evidence))
         == |set i: nat | i < |evidence| && evidence[i].accepted && !Missing(evidence[i].claimId)|
  {
    hide CountTrue;
    CountTrueIs(AcceptedFlags(evidence));
    CountTrueIs(WithClaimFlags(evidence));
    assert (set i: nat | i < |evidence| && AcceptedFlags(evidence)[i])
        == set i: nat | i < |evidence| && evidence[i].accepted;
    assert (set i: nat | i < |evidence| && WithClaimFlags(evidence)[i])
        == set i: nat | i < |evidence| && evidence[i].accepted && !Missing(evidence[i].claimId);
    assert |AcceptedFlags(evidence)| == |WithClaimFlags(evidence)| == |evidence|;
  }

  lemma ClosedCount(rows: seq<CoverageLoss.GapRow>)
    ensures CountTrue(CoverageLoss.ClosedFlags(rows))
         == |set i: nat | i < |rows| && CoverageLoss.EffectiveState(rows[i]) == CoverageLoss.Closed|
  {
    hide CountTrue, CoverageLoss.EffectiveState;
    CountTrueIs(CoverageLoss.ClosedFlags(rows));
    assert (set i: nat | i < |rows| && CoverageLoss.ClosedFlags(rows)[i])
        == set i: nat | i < |rows| && CoverageLoss.EffectiveState(rows[i]) == CoverageLoss.Closed;
    assert |CoverageLoss.ClosedFlags(rows)| == |rows|;
  }

  lemma ClaimCounts(run: Run)
    ensures |SupportedFlags(run)| == |VerifiedFlags(run)| == |SingleFlags(run)| == |MultiFlags(run)| == |run.claims|
    ensures CountTrue(SupportedFlags(run)) == |set i: nat | i < |run.claims| && SupportedFlags(run)[i]|
    ensures CountTrue(VerifiedFlags(run)) == |set i: nat | i < |run.claims| && VerifiedFlags(run)[i]|
    ensures CountTrue(SingleFlags(run)) == |set i: nat | i < |run.claims| && SingleFlags(run)[i]|
    ensures CountTrue(MultiFlags(run)) == |set i: nat | i < |run.claims| && MultiFlags(run)[i]|
  {
    hide CountTrue;
    FlagsPerClaim(run);
    hide SupportedFlags, VerifiedFlags, SingleFlags, MultiFlags;
    CountTrueIs(SupportedFlags(run));
    CountTrueIs(VerifiedFlags(run));
    CountTrueIs(SingleFlags(run));
    CountTrueIs(MultiFlags(run));
  }

  lemma FlagsPerClaim(run: Run)
    ensures |SupportedFlags(run)| == |VerifiedFlags(run)| == |SingleFlags(run)| == |MultiFlags(run)| == |run.claims|
  {
  }

  // ----- The dimension matrix -----

  function ClaimsById(claims: seq<Claim>): map<string, Claim> {
    if claims == [] then map[]
    else
      var c := claims[|claims| - 1];
      ClaimsById(claims[..|claims| - 1])[c.id := c]
  }

  function EvidenceDimension(byId: map<string, Claim>, e: Evidence): string {
    var id := OrEmpty(e.claimId);
    if id in byId then OrNone(byId[id].dimensionKey) else "(none)"
  }

  function EvidenceKeys(run: Run): seq<string> {
    seq(|run.evidence|, i requires 0 <= i < |run.evidence| =>
        EvidenceDimension(ClaimsById(run.claims), run.evidence[i]))
  }

  function ClaimKeys(run: Run): seq<string> {
    seq(|run.claims|, i requires 0 <= i < |run.claims| => OrNone(run.claims[i].dimensionKey))
  }

  /** The claims the matrix calls verified; claims without a dimension key are measured
      against the bar of "(none)", whereas the funnel uses the bar of the empty key. */
  function MatrixVerifiedFlags(run: Run): seq<bool> {
    seq(|run.claims|, i requires 0 <= i < |run.claims| =>
      ClaimOwners(run)[i] != {} && |ClaimOwners(run)[i]| >= Bar(Bars(run.gapRows), OrNone(run.claims[i].dimensionKey)))
  }

  /** How many flagged positions have a given key. */
  function CountKey(keys: seq<string>, flags: seq<bool>, d: string): nat
    requires |keys| == |flags|
  {
    if keys == [] then 0
    else
      var n := |keys| - 1;
      CountKey(keys[..n], flags[..n], d) + (if flags[n] && keys[n] == d then 1 else 0)
  }

  datatype Row = Row(candidate: nat, accepted: nat, supported: nat, verified: nat)

  function RowOf(run: Run, d: string): Row {
    Row(CountKey(EvidenceKeys(run), Truths(|run.evidence|), d),
        CountKey(EvidenceKeys(run), AcceptedFlags(run.evidence), d),
        CountKey(ClaimKeys(run), SupportedFlags(run), d),
        CountKey(ClaimKeys(run), MatrixVerifiedFlags(run), d))
  }

  function KeysOf(keys: seq<string>, flags: seq<bool>): set<string>
    requires |keys| == |flags|
  {
    set i | 0 <= i < |keys| && flags[i] :: keys[i]
  }

  function GapDimensions(rows: seq<CoverageLoss.GapRow>): set<string> {
    set i | 0 <= i < |rows| :: OrNone(rows[i].dimensionKey)
  }

  /** The dimension of an evidence row is that of the last claim with its claim id, an absent
      id standing for the empty one and an absent or empty key for "(none)", and "(none)"
      when there is no such claim. */
  ghost predicate BelongsTo(run: Run, e: Evidence, d: string) {
    var id := if e.claimId == None then "" else e.claimId.value;
    && (forall k: nat :: LastClaim(run.claims, k, id) ==>
          d == if Missing(run.claims[k].dimensionKey) then "(none)" else run.claims[k].dimensionKey.value)
    && ((forall c :: c in run.claims ==> c.id != id) ==> d == "(none)")
  }

  lemma {:induction false} ClaimsByIdAre(claims: seq<Claim>, id: string)
    ensures id in ClaimsById(claims) <==> exists c :: c in claims && c.id == id
    ensures forall k: nat :: LastClaim(claims, k, id) ==>
      id in ClaimsById(claims) && ClaimsById(claims)[id] == claims[k]
    ensures id in ClaimsById(claims) ==> exists k: nat :: LastClaim(claims, k, id)
  {
    if claims != [] {
      var n := |claims| - 1;
      ClaimsByIdAre(claims[..n], id);
      assert claims == claims[..n] + [claims[n]];
      if claims[n].id == id {
        assert LastClaim(claims, n, id);
      } else {
        forall k: nat ensures LastClaim(claims, k, id) <==> LastClaim(claims[..n], k, id) {
        }
      }
    }
  }

  lemma EvidenceKeysExactly(run: Run, i: nat, d: string)
    requires i < |run.evidence|
    ensures EvidenceKeys(run)[i] == d <==> BelongsTo(run, run.evidence[i], d)
  {
    hide ClaimsById, LastClaim;
    var id := OrEmpty(run.evidence[i].claimId);
    ClaimsByIdAre(run.claims, id);
    if id in ClaimsById(run.claims) {
      var k: nat :| LastClaim(run.claims, k, id);
    }
  }

  lemma {:induction false} CountKeyIs(keys: seq<string>, flags: seq<bool>, d: string)
    requires |keys| == |flags|
    ensures CountKey(keys, flags, d) == |set i: nat | i < |keys| && flags[i] && keys[i] == d|
  {
    CountKeyUpTo(keys, flags, d, |keys|);
    assert keys[..|keys|] == keys && flags[..|flags|] == flags;
  }

  function Places(keys: seq<string>, flags: seq<bool>, d: string, n: nat): set<nat>
    requires |keys| == |flags| && n <= |keys|
  {
    set i: nat | i < n && flags[i] && keys[i] == d
  }

  lemma PlacesStep(keys: seq<string>, flags: seq<bool>, d: string, n: nat)
    requires |keys| == |flags| && n < |keys|
    ensures Places(keys, flags, d, n + 1)
         == Places(keys, flags, d, n) + (if flags[n] && keys[n] == d then {n} else {})
    ensures n !in Places(keys, flags, d, n)
  {
  }

  lemma {:induction false} CountKeyUpTo(keys: seq<string>, flags: seq<bool>, d: string, n: nat)
    requires |keys| == |flags| && n <= |keys|
    ensures CountKey(keys[..n], flags[..n], d) == |Places(keys, flags, d, n)|
  {
    if n == 0 {
      assert Places(keys, flags, d, 0) == {};
    } else {
      hide Places, CountKey;
      CountKeyUpTo(keys, flags, d, n - 1);
      CountKeyNext(keys, flags, n - 1, d);
      PlacesStep(keys, flags, d, n - 1);
    }
  }

  /** A row of the matrix counts the evidence rows, and the accepted ones, that belong to its
      dimension, and the supported and verified claims whose key it is. */
  lemma RowExactly(run: Run, d: string)
    ensures var row := RowOf(run, d);
      && row.candidate == |set i: nat | i < |run.evidence| && BelongsTo(run, run.evidence[i], d)|
      && row.accepted
         == |set i: nat | i < |run.evidence| && run.evidence[i].accepted && BelongsTo(run, run.evidence[i], d)|
      && row.supported == |set i: nat | i < |run.claims| && SupportedFlags(run)[i] && OfKey(run.claims[i], d)|
      && row.verified == |set i: nat | i < |run.claims| && MatrixVerifiedFlags(run)[i] && OfKey(run.claims[i], d)|
  {
    hide CountKey, EvidenceDimension, SupportedFlags, MatrixVerifiedFlags, BelongsTo, OfKey;
    EvidenceRowExactly(run, d);
    ClaimRowExactly(run, d);
  }

  ghost predicate OfKey(c: Claim, d: string) {
    d == if Missing(c.dimensionKey) then "(none)" else c.dimensionKey.value
  }

  lemma EvidenceRowExactly(run: Run, d: string)
    ensures RowOf(run, d).candidate == |set i: nat | i < |run.evidence| && BelongsTo(run, run.evidence[i], d)|
    ensures RowOf(run, d).accepted
         == |set i: nat | i < |run.evidence| && run.evidence[i].accepted && BelongsTo(run, run.evidence[i], d)|
  {
    hide CountKey, EvidenceDimension, SupportedFlags, MatrixVerifiedFlags, BelongsTo, ClaimKeys;
    var keys, n := EvidenceKeys(run), |run.evidence|;
    CountKeyIs(keys, Truths(n), d);
    CountKeyIs(keys, AcceptedFlags(run.evidence), d);
    forall i: nat | i < n ensures keys[i] == d <==> BelongsTo(run, run.evidence[i], d) {
      EvidenceKeysExactly(run, i, d);
    }
    assert (set i: nat | i < n && Truths(n)[i] && keys[i] == d)
        == set i: nat | i < n && BelongsTo(run, run.evidence[i], d);
    assert (set i: nat | i < n && AcceptedFlags(run.evidence)[i] && keys[i] == d)
        == set i: nat | i < n && run.evidence[i].accepted && BelongsTo(run, run.evidence[i], d);
  }

  lemma ClaimRowExactly(run: Run, d: string)
    ensures |SupportedFlags(run)| == |MatrixVerifiedFlags(run)| == |run.claims|
    ensures RowOf(run, d).supported
         == |set i: nat | i < |run.claims| && SupportedFlags(run)[i] && OfKey(run.claims[i], d)|
    ensures RowOf(run, d).verified
         == |set i: nat | i < |run.claims| && MatrixVerifiedFlags(run)[i] && OfKey(run.claims[i], d)|
  {
    hide CountKey, EvidenceDimension, EvidenceKeys, AcceptedFlags, ClaimOwners, Bar, Bars;
    var keys, n := ClaimKeys(run), |run.claims|;
    CountKeyIs(keys, SupportedFlags(run), d);
    CountKeyIs(keys, MatrixVerifiedFlags(run), d);
    assert (set i: nat | i < n && SupportedFlags(run)[i] && keys[i] == d)
        == set i: nat | i < n && SupportedFlags(run)[i] && OfKey(run.claims[i], d);
    assert (set i: nat | i < n && MatrixVerifiedFlags(run)[i] && keys[i] == d)
        == set i: nat | i < n && MatrixVerifiedFlags(run)[i] && OfKey(run.claims[i], d);
  }

  /** The dimensions that get a row in the matrix. */
  function MatrixDimensions(run: Run): set<string> {
    KeysOf(EvidenceKeys(run), Truths(|run.evidence|)) + KeysOf(ClaimKeys(run), SupportedFlags(run))
        + GapDimensions(run.gapRows)
  }

  function At(dims: map<string, Row>, d: string): Row {
    if d in dims then dims[d] else Row(0, 0, 0, 0)
  }

  lemma CountKeyNext(keys: seq<string>, flags: seq<bool>, k: nat, d: string)
    requires |keys| == |flags| && k < |keys|
    ensures CountKey(keys[..k + 1], flags[..k + 1], d)
        == CountKey(keys[..k], flags[..k], d) + (if flags[k] && keys[k] == d then 1 else 0)
  {
    assert keys[..k + 1][..k] == keys[..k] && flags[..k + 1][..k] == flags[..k];
  }

  lemma KeysOfNext(keys: seq<string>, flags: seq<bool>, k: nat)
    requires |keys| == |flags| && k < |keys|
    ensures KeysOf(keys[..k + 1], flags[..k + 1])
        == KeysOf(keys[..k], flags[..k]) + (if flags[k] then {keys[k]} else {})
  {
    var a := KeysOf(keys[..k + 1], flags[..k + 1]);
    var b := KeysOf(keys[..k], flags[..k]) + (if flags[k] then {keys[k]} else {});
    forall d ensures d in a <==> d in b {
      if d in a {
        var i :| 0 <= i < k + 1 && flags[..k + 1][i] && keys[..k + 1][i] == d;
        if i < k {
          assert flags[..k][i] && keys[..k][i] == d;
        }
      }
      if d in b {
        if d in KeysOf(keys[..k], flags[..k]) {
          var i :| 0 <= i < k && flags[..k][i] && keys[..k][i] == d;
          assert flags[..k + 1][i] && keys[..k + 1][i] == d;
        } else {
          assert flags[..k + 1][k] && keys[..k + 1][k] == d;
        }
      }
    }
  }

  /** Matrix rows after the first `k` evidence rows and the first `j` claims. */
  ghost predicate RowsRight(run: Run, k: nat, j: nat, dims: map<string, Row>)
    requires k <= |run.evidence| && j <= |run.claims|
  {
    forall d :: At(dims, d) == PartRow(run, k, j, d)
  }

  function PartRow(run: Run, k: nat, j: nat, d: string): Row
    requires k <= |run.evidence| && j <= |run.claims|
  {
    Row(CountKey(EvidenceKeys(run)[..k], Truths(|run.evidence|)[..k], d),
        CountKey(EvidenceKeys(run)[..k], AcceptedFlags(run.evidence)[..k], d),
        CountKey(ClaimKeys(run)[..j], SupportedFlags(run)[..j], d),
        CountKey(ClaimKeys(run)[..j], MatrixVerifiedFlags(run)[..j], d))
  }

  lemma EvidenceCounted(run: Run, k: nat, d: string)
    requires k < |run.evidence|
    ensures var before, e := PartRow(run, k, 0, d), run.evidence[k];
      PartRow(run, k + 1, 0, d) == if EvidenceDimension(ClaimsById(run.claims), e) != d then before
        else before.(candidate := before.candidate + 1, accepted := before.accepted + (if e.accepted then 1 else 0))
  {
    hide CountKey, EvidenceDimension, ClaimsById, SupportedFlags, MatrixVerifiedFlags, ClaimKeys;
    CountKeyNext(EvidenceKeys(run), Truths(|run.evidence|), k, d);
    CountKeyNext(EvidenceKeys(run), AcceptedFlags(run.evidence), k, d);
  }

  lemma ClaimCounted(run: Run, j: nat, d: string)
    requires j < |run.claims|
    ensures var before, n := PartRow(run, |run.evidence|, j, d), |run.evidence|;
      PartRow(run, n, j + 1, d) == if OrNone(run.claims[j].dimensionKey) != d then before
        else before.(supported := before.supported + (if SupportedFlags(run)[j] then 1 else 0),
                     verified := before.verified + (if MatrixVerifiedFlags(run)[j] then 1 else 0))
  {
    hide CountKey, ClaimOwners, Bar, Bars, EvidenceKeys, AcceptedFlags;
    CountKeyNext(ClaimKeys(run), SupportedFlags(run), j, d);
    CountKeyNext(ClaimKeys(run), MatrixVerifiedFlags(run), j, d);
  }

  lemma EvidenceStep(run: Run, k: nat, dims: map<string, Row>)
    requires k < |run.evidence| && RowsRight(run, k, 0, dims)
    ensures var e := run.evidence[k];
      var d := EvidenceDimension(ClaimsById(run.claims), e);
      var row := At(dims, d);
      RowsRight(run, k + 1, 0, dims[d := row.(candidate := row.candidate + 1,
                                              accepted := row.accepted + (if e.accepted then 1 else 0))])
  {
    hide PartRow, EvidenceDimension, ClaimsById;
    var e := run.evidence[k];
    var dim := EvidenceDimension(ClaimsById(run.claims), e);
    var next := dims[dim := At(dims, dim).(candidate := At(dims, dim).candidate + 1,
                                           accepted := At(dims, dim).accepted + (if e.accepted then 1 else 0))];
    forall d ensures At(next, d) == PartRow(run, k + 1, 0, d) {
      EvidenceCounted(run, k, d);
      assert At(dims, d) == PartRow(run, k, 0, d);
    }
  }

  lemma ClaimStep(run: Run, j: nat, dims: map<string, Row>)
    requires j < |run.claims| && RowsRight(run, |run.evidence|, j, dims)
    ensures var d := OrNone(run.claims[j].dimensionKey);
      var row := At(dims, d);
      RowsRight(run, |run.evidence|, j + 1,
                if SupportedFlags(run)[j]
                then dims[d := row.(supported := row.supported + 1,
                                    verified := row.verified + (if MatrixVerifiedFlags(run)[j] then 1 else 0))]
                else dims)
  {
    hide PartRow, OrNone, ClaimOwners, Bar, Bars;
    var n, dim := |run.evidence|, OrNone(run.claims[j].dimensionKey);
    var row := At(dims, dim);
    var next := if SupportedFlags(run)[j]
                then dims[dim := row.(supported := row.supported + 1,
                                      verified := row.verified + (if MatrixVerifiedFlags(run)[j] then 1 else 0))]
                else dims;
    forall d ensures At(next, d) == PartRow(run, n, j + 1, d) {
      ClaimCounted(run, j, d);
      assert At(dims, d) == PartRow(run, n, j, d);
    }
  }

  lemma NothingTallied(run: Run)
    ensures RowsRight(run, 0, 0, map[])
    ensures KeysOf(EvidenceKeys(run)[..0], Truths(|run.evidence|)[..0]) == {}
    ensures KeysOf(ClaimKeys(run)[..0], SupportedFlags(run)[..0]) == {}
  {
  }

  method TallyEvidence(run: Run) returns (dims: map<string, Row>)
    ensures RowsRight(run, |run.evidence|, 0, dims)
    ensures dims.Keys == KeysOf(EvidenceKeys(run), Truths(|run.evidence|))
  {
    hide RowsRight, KeysOf, EvidenceDimension, ClaimsById, At;
    var byId := ClaimsById(run.claims);
    dims := map[];
    NothingTallied(run);
    for k := 0 to |run.evidence|
      invariant RowsRight(run, k, 0, dims)
      invariant dims.Keys == KeysOf(EvidenceKeys(run)[..k], Truths(|run.evidence|)[..k])
    {
      EvidenceStep(run, k, dims);
      KeysOfNext(EvidenceKeys(run), Truths(|run.evidence|), k);
      var e := run.evidence[k];
      var dim := EvidenceDimension(byId, e);
      var rec := At(dims, dim);
      dims := dims[dim := rec.(candidate := rec.candidate + 1,
                               accepted := rec.accepted + (if e.accepted then 1 else 0))];
    }
    Whole(Truths(|run.evidence|));
    assert EvidenceKeys(run)[..|run.evidence|] == EvidenceKeys(run);
  }

  method TallyClaims(run: Run, tallied: map<string, Row>) returns (dims: map<string, Row>)
    requires RowsRight(run, |run.evidence|, 0, tallied)
    ensures RowsRight(run, |run.evidence|, |run.claims|, dims)
    ensures dims.Keys == tallied.Keys + KeysOf(ClaimKeys(run), SupportedFlags(run))
  {
    hide RowsRight, KeysOf, At, Bars, Bar, OwnersOf, OwnerKeys, OrNone;
    var claimOwners, _ := GroupByClaim(OwnerKeys(run.sources), run.evidence);
    var bars := Bars(run.gapRows);
    dims := tallied;
    NothingTallied(run);
    for j := 0 to |run.claims|
      invariant RowsRight(run, |run.evidence|, j, dims)
      invariant dims.Keys == tallied.Keys + KeysOf(ClaimKeys(run)[..j], SupportedFlags(run)[..j])
    {
      ClaimStep(run, j, dims);
      KeysOfNext(ClaimKeys(run), SupportedFlags(run), j);
      var c := run.claims[j];
      var dim := OrNone(c.dimensionKey);
      var owners := SeenOwners(claimOwners, c.id);
      assert owners == ClaimOwners(run)[j];
      if owners != {} {
        var rec := At(dims, dim);
        dims := dims[dim := rec.(supported := rec.supported + 1,
                                 verified := rec.verified + (if |owners| >= Bar(bars, dim) then 1 else 0))];
      }
    }
    Whole(SupportedFlags(run));
    assert ClaimKeys(run)[..|run.claims|] == ClaimKeys(run);
  }

  method EnsureGapRows(rows: seq<CoverageLoss.GapRow>, tallied: map<string, Row>) returns (dims: map<string, Row>)
    ensures dims.Keys == tallied.Keys + GapDimensions(rows)
    ensures forall d :: At(dims, d) == At(tallied, d)
  {
    hide OrNone;
    dims := tallied;
    for k := 0 to |rows|
      invariant dims.Keys == tallied.Keys + (set i | 0 <= i < k :: OrNone(rows[i].dimensionKey))
      invariant forall d :: At(dims, d) == At(tallied, d)
    {
      var dim := OrNone(rows[k].dimensionKey);
      if dim !in dims {
        dims := dims[dim := Row(0, 0, 0, 0)];
      }
    }
  }

  // ----- The columns on gap requirements -----

  /** The requirements of a dimension, in order. */
  function OfDimension(rows: seq<CoverageLoss.GapRow>, d: string): seq<CoverageLoss.GapRow> {
    if rows == [] then []
    else
      var last := rows[|rows| - 1];
      OfDimension(rows[..|rows| - 1], d) + (if OrNone(last.dimensionKey) == d then [last] else [])
  }

  lemma {:induction false} OfDimensionMembers(rows: seq<CoverageLoss.GapRow>, d: string)
    ensures forall r :: r in OfDimension(rows, d) <==> r in rows && OrNone(r.dimensionKey) == d
  {
    hide OrNone;
    if rows != [] {
      var rest, last := rows[..|rows| - 1], rows[|rows| - 1];
      OfDimensionMembers(rest, d);
      assert rows == rest + [last];
      assert forall r :: r in rows <==> r in rest || r == last;
    }
  }

  function States(rows: seq<CoverageLoss.GapRow>): seq<CoverageLoss.State> {
    seq(|rows|, i requires 0 <= i < |rows| => CoverageLoss.EffectiveState(rows[i]))
  }

  /** The state shown for a dimension; without any requirement it is "partial". */
  function GapState(states: seq<CoverageLoss.State>): CoverageLoss.State {
    if states != [] && forall i :: 0 <= i < |states| ==> states[i] == CoverageLoss.Closed then CoverageLoss.Closed
    else if states != [] && forall i :: 0 <= i < |states| ==> states[i] == CoverageLoss.Open then CoverageLoss.Open
    else CoverageLoss.Partial
  }

  function BestCoverage(rows: seq<CoverageLoss.GapRow>): real {
    if rows == [] then 0.0 else MaxReal(BestCoverage(rows[..|rows| - 1]), rows[|rows| - 1].currentCoverage)
  }

  datatype GapInfo = GapInfo(states: seq<CoverageLoss.State>, coverage: real, losses: map<CoverageLoss.Cause, nat>)

  function InfoAt(gaps: map<string, GapInfo>, d: string): GapInfo {
    if d in gaps then gaps[d] else GapInfo([], 0.0, map[])
  }

  /** What is gathered about the requirements of one dimension. */
  ghost predicate InfoRight(rows: seq<CoverageLoss.GapRow>, info: GapInfo) {
    && info.states == States(rows)
    && info.coverage == BestCoverage(rows)
    && forall c :: CoverageLoss.CountAt(info.losses, c) == CountTrue(CoverageLoss.CauseFlags(rows, c))
  }

  ghost predicate InfosRight(rows: seq<CoverageLoss.GapRow>, gaps: map<string, GapInfo>) {
    forall d :: InfoRight(OfDimension(rows, d), InfoAt(gaps, d))
  }

  lemma NothingGathered()
    ensures InfosRight([], map[])
  {
  }

  lemma InfoStep(rows: seq<CoverageLoss.GapRow>, r: CoverageLoss.GapRow, info: GapInfo,
                 losses: map<CoverageLoss.Cause, nat>)
    requires InfoRight(rows, info)
    requires forall c :: CoverageLoss.CountAt(losses, c) == CoverageLoss.CountAt(info.losses, c)
                                                            + (if c in CoverageLoss.Causes(r) then 1 else 0)
    ensures InfoRight(rows + [r], GapInfo(info.states + [CoverageLoss.EffectiveState(r)],
                                          MaxReal(info.coverage, r.currentCoverage), losses))
  {
    hide CoverageLoss.Causes, CoverageLoss.EffectiveState, CoverageLoss.CountAt, CountTrue;
    assert (rows + [r])[..|rows|] == rows;
    forall c ensures CoverageLoss.CountAt(losses, c) == CountTrue(CoverageLoss.CauseFlags(rows + [r], c)) {
      assert CoverageLoss.CauseFlags(rows + [r], c) == CoverageLoss.CauseFlags(rows, c) + [c in CoverageLoss.Causes(r)];
      CountTrueSnoc(CoverageLoss.CauseFlags(rows, c), c in CoverageLoss.Causes(r));
    }
  }

  lemma InfosStep(rows: seq<CoverageLoss.GapRow>, r: CoverageLoss.GapRow, gaps: map<string, GapInfo>, info: GapInfo)
    requires InfosRight(rows, gaps)
    requires var d := OrNone(r.dimensionKey); InfoRight(OfDimension(rows, d) + [r], info)
    ensures InfosRight(rows + [r], gaps[OrNone(r.dimensionKey) := info])
  {
    hide InfoRight, OrNone;
    assert (rows + [r])[..|rows|] == rows;
    var next := gaps[OrNone(r.dimensionKey) := info];
    forall d ensures InfoRight(OfDimension(rows + [r], d), InfoAt(next, d)) {
      assert InfoRight(OfDimension(rows, d), InfoAt(gaps, d));
      assert OfDimension(rows, d) + [] == OfDimension(rows, d);
    }
  }

  method GatherGaps(rows: seq<CoverageLoss.GapRow>) returns (gaps: map<string, GapInfo>)
    ensures InfosRight(rows, gaps)
  {
    hide InfosRight, InfoRight, InfoAt, OrNone, CoverageLoss.Causes, CoverageLoss.EffectiveState, CoverageLoss.CountAt;
    gaps := map[];
    NothingGathered();
    for k := 0 to |rows|
      invariant InfosRight(rows[..k], gaps)
    {
      var req := rows[k];
      assert rows[..k + 1] == rows[..k] + [req];
      var dim := OrNone(req.dimensionKey);
      var info := InfoAt(gaps, dim);
      assert InfoRight(OfDimension(rows[..k], dim), info) by {
        OneInfo(rows[..k], gaps, dim);
      }
      var causes := CoverageLoss.BlockingCauses(req);
      var losses := CoverageLoss.Tally(info.losses, causes);
      InfoStep(OfDimension(rows[..k], dim), req, info, losses);
      var next := GapInfo(info.states + [CoverageLoss.EffectiveState(req)],
                          MaxReal(info.coverage, req.currentCoverage), losses);
      InfosStep(rows[..k], req, gaps, next);
      gaps := gaps[dim := next];
    }
    assert rows[..|rows|] == rows;
  }

  lemma OneInfo(rows: seq<CoverageLoss.GapRow>, gaps: map<string, GapInfo>, d: string)
    requires InfosRight(rows, gaps)
    ensures InfoRight(OfDimension(rows, d), InfoAt(gaps, d))
  {
  }

  /** A most frequent cause, or none when there is none; which of several equally frequent
      ones is left open. */
  ghost predicate IsMainLoss(rows: seq<CoverageLoss.GapRow>, main: Option<CoverageLoss.Cause>) {
    forall c :: CountTrue(CoverageLoss.CauseFlags(rows, c))
             <= if main.Some? then CountTrue(CoverageLoss.CauseFlags(rows, main.value)) else 0
  }

  ghost predicate Occurs(rows: seq<CoverageLoss.GapRow>, main: Option<CoverageLoss.Cause>) {
    main.Some? ==> CountTrue(CoverageLoss.CauseFlags(rows, main.value)) > 0
  }

  method MainLoss(ghost rows: seq<CoverageLoss.GapRow>, info: GapInfo) returns (main: Option<CoverageLoss.Cause>)
    requires InfoRight(rows, info)
    ensures IsMainLoss(rows, main) && Occurs(rows, main)
  {
    hide CountTrue, CoverageLoss.CauseFlags;
    main := None;
    var causes := [CoverageLoss.MissingCandidateEvidence, CoverageLoss.MissingIndependentSource,
                   CoverageLoss.CoverageBelowRequired];
    var most := 0;
    for k := 0 to 3
      invariant most == if main.Some? then CoverageLoss.CountAt(info.losses, main.value) else 0
      invariant main.Some? ==> most > 0
      invariant forall j :: 0 <= j < k ==> CoverageLoss.CountAt(info.losses, causes[j]) <= most
    {
      var count := CoverageLoss.CountAt(info.losses, causes[k]);
      if count > most {
        main, most := Some(causes[k]), count;
      }
    }
    forall c ensures CoverageLoss.CountAt(info.losses, c) <= most {
      assert c == causes[0] || c == causes[1] || c == causes[2];
    }
  }

  datatype MatrixRow = MatrixRow(counts: Row, gapState: CoverageLoss.State, coverage: real,
                                 mainLoss: Option<CoverageLoss.Cause>)

  /** What the matrix shows for a dimension. */
  ghost predicate ShowsDimension(run: Run, d: string, row: MatrixRow) {
    var rows := OfDimension(run.gapRows, d);
    && row.counts == RowOf(run, d)
    && row.gapState == GapState(States(rows))
    && row.coverage == BestCoverage(rows)
    && IsMainLoss(rows, row.mainLoss) && Occurs(rows, row.mainLoss)
  }

  /** The matrix has a row for every dimension, and each shows its dimension. */
  ghost predicate IsMatrix(run: Run, matrix: map<string, MatrixRow>) {
    && matrix.Keys == MatrixDimensions(run)
    && forall d :: d in matrix ==> ShowsDimension(run, d, matrix[d])
  }

  /** The matrix: evidence rows, supported claims and requirements each make sure that
      their dimension has a row; the first two are counted there, and the requirements give
      its state, coverage and main loss. */
  method AnalyzeDimensionMatrix(run: Run) returns (matrix: map<string, MatrixRow>)
    ensures IsMatrix(run, matrix)
  {
    hide KeysOf, GapDimensions, At, RowOf, InfosRight, InfoRight, InfoAt, IsMainLoss, Occurs, OfDimension, States,
         GapState;
    var dims := CountDimensions(run);
    var gaps := GatherGaps(run.gapRows);
    matrix := map[];
    var rest := dims.Keys;
    while rest != {}
      invariant rest <= dims.Keys
      invariant matrix.Keys == dims.Keys - rest
      invariant forall d :: d in matrix ==> ShowsDimension(run, d, matrix[d])
      decreases rest
    {
      var d :| d in rest;
      var info := InfoAt(gaps, d);
      OneInfo(run.gapRows, gaps, d);
      InfoMeans(OfDimension(run.gapRows, d), info);
      var main := MainLoss(OfDimension(run.gapRows, d), info);
      CountedAt(dims, d);
      matrix := matrix[d := MatrixRow(dims[d], GapState(info.states), info.coverage, main)];
      rest := rest - {d};
    }
  }

  lemma InfoMeans(rows: seq<CoverageLoss.GapRow>, info: GapInfo)
    requires InfoRight(rows, info)
    ensures info.states == States(rows) && info.coverage == BestCoverage(rows)
  {
  }

  lemma CountedAt(dims: map<string, Row>, d: string)
    requires d in dims
    ensures At(dims, d) == dims[d]
  {
  }

  /** The counting columns of the matrix. */
  method CountDimensions(run: Run) returns (dims: map<string, Row>)
    ensures dims.Keys == MatrixDimensions(run)
    ensures forall d :: At(dims, d) == RowOf(run, d)
  {
    hide KeysOf, GapDimensions, At;
    dims := TallyEvidence(run);
    dims := TallyClaims(run, dims);
    ghost var counted := dims;
    dims := EnsureGapRows(run.gapRows, dims);
    forall d ensures At(counted, d) == RowOf(run, d) {
      WholeRow(run, d);
    }
  }

  lemma WholeRow(run: Run, d: string)
    ensures PartRow(run, |run.evidence|, |run.claims|, d) == RowOf(run, d)
  {
    Whole(Truths(|run.evidence|));
    Whole(AcceptedFlags(run.evidence));
    Whole(SupportedFlags(run));
    Whole(MatrixVerifiedFlags(run));
    assert EvidenceKeys(run)[..|run.evidence|] == EvidenceKeys(run);
    assert ClaimKeys(run)[..|run.claims|] == ClaimKeys(run);
  }

  // ----- What the matrix guarantees -----

  /** A dimension is shown as closed exactly when it has requirements and each is closed, as
      open exactly when it has requirements and each is open,
      and no main loss is shown exactly when none of its requirements is open or partial.
      So a dimension with requirements is closed exactly when it shows no main loss. */
  lemma GapColumnsAgree(run: Run, d: string, row: MatrixRow)
    requires ShowsDimension(run, d, row)
    ensures var mine := set r | r in run.gapRows && OrNone(r.dimensionKey) == d;
      && (row.gapState == CoverageLoss.Closed <==>
            mine != {} && forall r :: r in mine ==> CoverageLoss.EffectiveState(r) == CoverageLoss.Closed)
      && (row.gapState == CoverageLoss.Open <==>
            mine != {} && forall r :: r in mine ==> CoverageLoss.EffectiveState(r) == CoverageLoss.Open)
      && (row.mainLoss == None <==> forall r :: r in mine ==> CoverageLoss.EffectiveState(r) == CoverageLoss.Closed)
      && (row.gapState == CoverageLoss.Closed <==> mine != {} && row.mainLoss == None)
  {
    hide OrNone, CoverageLoss.EffectiveState, CoverageLoss.Causes, RowOf, CountTrue, BestCoverage, OfDimension,
         GapState, States;
    var rows := OfDimension(run.gapRows, d);
    OfDimensionMembers(run.gapRows, d);
    if row.mainLoss == None {
      forall r | r in rows ensures CoverageLoss.EffectiveState(r) == CoverageLoss.Closed {
        NoLoss(rows, r);
      }
    } else {
      LossFound(rows, row.mainLoss.value);
    }
    ClosedState(rows);
    var mine := set r | r in run.gapRows && OrNone(r.dimensionKey) == d;
    assert forall r :: r in mine <==> r in rows;
    assert rows != [] ==> rows[0] in mine;
    if mine != {} {
      var r :| r in mine;
      assert r in rows;
    }
  }

  lemma ClosedState(rows: seq<CoverageLoss.GapRow>)
    ensures GapState(States(rows)) == CoverageLoss.Closed <==>
      rows != [] && forall r :: r in rows ==> CoverageLoss.EffectiveState(r) == CoverageLoss.Closed
    ensures GapState(States(rows)) == CoverageLoss.Open <==>
      rows != [] && forall r :: r in rows ==> CoverageLoss.EffectiveState(r) == CoverageLoss.Open
  {
    hide CoverageLoss.EffectiveState;
    var states := States(rows);
    assert forall i :: 0 <= i < |rows| ==> rows[i] in rows;
    if GapState(states) == CoverageLoss.Closed {
      forall r | r in rows ensures CoverageLoss.EffectiveState(r) == CoverageLoss.Closed {
        var i :| 0 <= i < |rows| && rows[i] == r;
        assert states[i] == CoverageLoss.Closed;
      }
    }
    if GapState(states) == CoverageLoss.Open {
      forall r | r in rows ensures CoverageLoss.EffectiveState(r) == CoverageLoss.Open {
        var i :| 0 <= i < |rows| && rows[i] == r;
        assert states[i] == CoverageLoss.Open;
      }
    }
    if rows != [] && forall r :: r in rows ==> CoverageLoss.EffectiveState(r) == CoverageLoss.Open {
      assert states[0] == CoverageLoss.Open;
    }
  }

  lemma NoLoss(rows: seq<CoverageLoss.GapRow>, r: CoverageLoss.GapRow)
    requires IsMainLoss(rows, None) && r in rows
    ensures CoverageLoss.EffectiveState(r) == CoverageLoss.Closed
  {
    hide CoverageLoss.EffectiveState, CoverageLoss.Causes, CountTrue;
    var i :| 0 <= i < |rows| && rows[i] == r;
    forall c ensures c !in CoverageLoss.Causes(r) {
      if c in CoverageLoss.Causes(r) {
        CountTrueSome(CoverageLoss.CauseFlags(rows, c), i);
      }
    }
    CoverageLoss.ClosedExactly(r);
  }

  lemma LossFound(rows: seq<CoverageLoss.GapRow>, c: CoverageLoss.Cause)
    requires CountTrue(CoverageLoss.CauseFlags(rows, c)) > 0
    ensures exists r :: r in rows && CoverageLoss.EffectiveState(r) != CoverageLoss.Closed
  {
    hide CoverageLoss.EffectiveState, CoverageLoss.Causes;
    var i := FlagFound(CoverageLoss.CauseFlags(rows, c));
    CoverageLoss.ClosedExactly(rows[i]);
    assert rows[i] in rows;
  }

  lemma {:induction false} FlagFound(flags: seq<bool>) returns (i: nat)
    requires CountTrue(flags) > 0
    ensures i < |flags| && flags[i]
  {
    if flags[|flags| - 1] {
      i := |flags| - 1;
    } else {
      i := FlagFound(flags[..|flags| - 1]);
    }
  }

  /** The coverage shown is the best of the dimension's requirements, and never negative. */
  lemma {:induction false} CoverageShownIsBest(rows: seq<CoverageLoss.GapRow>)
    ensures BestCoverage(rows) >= 0.0
    ensures forall r :: r in rows ==> r.currentCoverage <= BestCoverage(rows)
    ensures BestCoverage(rows) == 0.0 || exists r :: r in rows && r.currentCoverage == BestCoverage(rows)
  {
    if rows != [] {
      var rest, last := rows[..|rows| - 1], rows[|rows| - 1];
      CoverageShownIsBest(rest);
      assert rows == rest + [last];
      assert forall r :: r in rows <==> r in rest || r == last;
    }
  }

  function ColumnIn(keys: seq<string>, flags: seq<bool>): string -> real
    requires |keys| == |flags|
  {
    d => CountKey(keys, flags, d) as real
  }

  function Unit(key: string): string -> real {
    d => if d == key then 1.0 else 0.0
  }

  lemma {:induction false} SumUnit(dims: set<string>, key: string)
    ensures SumOver(dims, Unit(key)) == if key in dims then 1.0 else 0.0
    decreases dims
  {
    if dims != {} {
      var x :| x in dims;
      SumRemove(dims, x, Unit(key));
      SumUnit(dims - {x}, key);
    }
  }

  function Nothing(): string -> real {
    d => 0.0
  }

  lemma {:induction false} SumNothing(dims: set<string>)
    ensures SumOver(dims, Nothing()) == 0.0
    decreases dims
  {
    if dims != {} {
      var x :| x in dims;
      SumRemove(dims, x, Nothing());
      SumNothing(dims - {x});
    }
  }

  /** A column sums to the number of flagged items when every flagged key has a row. */
  lemma {:induction false} ColumnSum(dims: set<string>, keys: seq<string>, flags: seq<bool>)
    requires |keys| == |flags|
    requires forall i :: 0 <= i < |keys| && flags[i] ==> keys[i] in dims
    ensures SumOver(dims, ColumnIn(keys, flags)) == CountTrue(flags) as real
  {
    hide SumOver;
    if keys == [] {
      SumNothing(dims);
      SumCong(dims, ColumnIn(keys, flags), Nothing());
    } else {
      var n := |keys| - 1;
      ColumnSum(dims, keys[..n], flags[..n]);
      if flags[n] {
        SumUnit(dims, keys[n]);
        SumLinear(dims, ColumnIn(keys[..n], flags[..n]), Unit(keys[n]), ColumnIn(keys, flags));
      } else {
        SumCong(dims, ColumnIn(keys[..n], flags[..n]), ColumnIn(keys, flags));
      }
    }
  }

  /** One of the counts, added up over the rows of a matrix. */
  ghost function ColumnTotal(matrix: map<string, MatrixRow>, count: Row -> nat): real {
    SumOver(matrix.Keys, CountOf(matrix, count))
  }

  function CountOf(matrix: map<string, MatrixRow>, count: Row -> nat): string -> real {
    d => if d in matrix then count(matrix[d].counts) as real else 0.0
  }

  /** The columns of the matrix sum to the totals of the funnel. */
  lemma ColumnsSumToFunnel(run: Run, matrix: map<string, MatrixRow>)
    requires IsMatrix(run, matrix)
    ensures var m := MetricsOf(run);
      && ColumnTotal(matrix, (r: Row) => r.candidate) == m.candidate as real
      && ColumnTotal(matrix, (r: Row) => r.accepted) == m.accepted as real
      && ColumnTotal(matrix, (r: Row) => r.supported) == m.supported as real
      && ColumnTotal(matrix, (r: Row) => r.verified) == CountTrue(MatrixVerifiedFlags(run)) as real
  {
    hide SumOver, MatrixDimensions, MetricsOf, CountKey, EvidenceDimension, ClaimOwners, Bar, Bars, CountTrue,
         OfDimension, IsMainLoss, Occurs, GapState, States, BestCoverage;
    ColumnSums(run);
    var dims := MatrixDimensions(run);
    SumCong(dims, CountOf(matrix, (r: Row) => r.candidate), ColumnIn(EvidenceKeys(run), Truths(|run.evidence|)));
    SumCong(dims, CountOf(matrix, (r: Row) => r.accepted), ColumnIn(EvidenceKeys(run), AcceptedFlags(run.evidence)));
    SumCong(dims, CountOf(matrix, (r: Row) => r.supported), ColumnIn(ClaimKeys(run), SupportedFlags(run)));
    SumCong(dims, CountOf(matrix, (r: Row) => r.verified), ColumnIn(ClaimKeys(run), MatrixVerifiedFlags(run)));
  }

  lemma ColumnSums(run: Run)
    ensures var m, dims := MetricsOf(run), MatrixDimensions(run);
      && SumOver(dims, ColumnIn(EvidenceKeys(run), Truths(|run.evidence|))) == m.candidate as real
      && SumOver(dims, ColumnIn(EvidenceKeys(run), AcceptedFlags(run.evidence))) == m.accepted as real
      && SumOver(dims, ColumnIn(ClaimKeys(run), SupportedFlags(run))) == m.supported as real
      && SumOver(dims, ColumnIn(ClaimKeys(run), MatrixVerifiedFlags(run)))
         == CountTrue(MatrixVerifiedFlags(run)) as real
  {
    hide SumOver, ColumnIn, CountTrue, ClaimOwners, Bar, Bars, EvidenceDimension, GapDimensions;
    var dims := MatrixDimensions(run);
    CountTruths(|run.evidence|);
    forall i | 0 <= i < |run.evidence| ensures EvidenceKeys(run)[i] in dims {
      assert Truths(|run.evidence|)[i];
    }
    forall i | 0 <= i < |run.claims| && SupportedFlags(run)[i] ensures ClaimKeys(run)[i] in dims {
    }
    ColumnSum(dims, EvidenceKeys(run), Truths(|run.evidence|));
    ColumnSum(dims, EvidenceKeys(run), AcceptedFlags(run.evidence));
    ColumnSum(dims, ClaimKeys(run), SupportedFlags(run));
    ColumnSum(dims, ClaimKeys(run), MatrixVerifiedFlags(run));
  }

  predicate Keyless(c: Claim) {
    Missing(c.dimensionKey)
  }

  /** The matrix and the funnel count the same claims as verified exactly when no claim
      without a dimension key has a number of owners between the two bars. */
  lemma VerifiedAgreeExactly(run: Run)
    ensures var low := Min(Bar(Bars(run.gapRows), ""), Bar(Bars(run.gapRows), "(none)"));
      var high := Max(Bar(Bars(run.gapRows), ""), Bar(Bars(run.gapRows), "(none)"));
      (CountTrue(MatrixVerifiedFlags(run)) == MetricsOf(run).verified) <==>
      (forall i :: 0 <= i < |run.claims| && Keyless(run.claims[i]) && ClaimOwners(run)[i] != {} ==>
         !(low <= |ClaimOwners(run)[i]| < high))
  {
    hide ClaimOwners, Bars, Bar, CountTrue;
    var a, b := MatrixVerifiedFlags(run), VerifiedFlags(run);
    var x, y := Bar(Bars(run.gapRows), ""), Bar(Bars(run.gapRows), "(none)");
    if x <= y {
      CountTrueImplies(a, b);
    } else {
      CountTrueImplies(b, a);
    }
    if a == b {
      forall i | 0 <= i < |run.claims| && Keyless(run.claims[i]) && ClaimOwners(run)[i] != {}
        ensures !(Min(x, y) <= |ClaimOwners(run)[i]| < Max(x, y))
      {
        assert a[i] == b[i];
      }
    } else {
      var i :| 0 <= i < |run.claims| && a[i] != b[i];
      assert Keyless(run.claims[i]);
    }
  }

  /** When every claim has a dimension key, the verified column sums to the funnel's total. */
  lemma VerifiedColumnSums(run: Run, matrix: map<string, MatrixRow>)
    requires IsMatrix(run, matrix) && forall i :: 0 <= i < |run.claims| ==> !Keyless(run.claims[i])
    ensures ColumnTotal(matrix, (r: Row) => r.verified) == MetricsOf(run).verified as real
  {
    hide ColumnTotal, CountTrue, ClaimOwners, Bar, Bars, IsMatrix, MetricsOf, MatrixVerifiedFlags;
    ColumnsSumToFunnel(run, matrix);
    VerifiedAgreeExactly(run);
  }

  /** A claim with an empty key and one owner, in a run whose empty dimension key demands
      two sources, is verified for the matrix and not for the funnel. */
  lemma VerifiedCanDisagree()
    ensures var run := Run([Claim("c", Some(""))], [Evidence(true, Some("c"), Some("s"))], [],
                           [CoverageLoss.GapRow(Some(""), 1, 2, 1, 1, 1.0, None)]);
      MetricsOf(run).verified == 0 && CountTrue(MatrixVerifiedFlags(run)) == 1
  {
    hide OwnerKeys, OwnersOf, SupportedFlags, SingleFlags, MultiFlags, AcceptedFlags, WithClaimFlags;
    var e := Evidence(true, Some("c"), Some("s"));
    var rows := [CoverageLoss.GapRow(Some(""), 1, 2, 1, 1, 1.0, None)];
    var run := Run([Claim("c", Some(""))], [e], [], rows);
    OneOwner(OwnerKeys([]), e, "c");
    assert rows[..0] == [];
    assert Bars(rows) == map["" := 2];
    assert ClaimOwners(run) == [OwnersOf(OwnerKeys([]), [e], "c")];
    assert MatrixVerifiedFlags(run) == [] + [true];
    assert VerifiedFlags(run) == [] + [false];
    CountTrueSnoc([], true);
    CountTrueSnoc([], false);
  }

  lemma OneOwner(owners: map<string, string>, e: Evidence, id: string)
    requires Backs(e, id)
    ensures |OwnersOf(owners, [e], id)| == 1
  {
    assert OwnersOf(owners, [e], id) == {OwnerOf(owners, e)} by {
      assert e in [e];
    }
  }
}
