/** Sampling of a chronological list of runs that keeps the latest runs of every era. */
module EraSampling {
  import opened Basics

  datatype Row = Row(runId: string, era: string)

  /** The rows of an era from position `i` on. */
  function EraFrom(rows: seq<Row>, i: nat, era: string): set<nat> {
    set j | j in Upto(|rows|) && i <= j && rows[j].era == era
  }

  /** A row is recent when fewer than `cap` later rows share its era. */
  predicate Recent(rows: seq<Row>, cap: int, i: nat)
    requires i < |rows|
  {
    |EraFrom(rows, i + 1, rows[i].era)| < cap
  }

  /** The recent rows from position `i` on. */
  function RecentFrom(rows: seq<Row>, cap: int, i: nat): set<nat> {
    set j | j in Upto(|rows|) && i <= j && Recent(rows, cap, j)
  }

  /** A total cap below one acts like one, because it is checked after a row was taken. */
  function Room(total: int): nat {
    Max(total, 1)
  }

  /** The rows kept: recent ones with fewer recent rows after them than there is room. */
  function Kept(rows: seq<Row>, cap: int, total: int): set<nat> {
    set i | i in RecentFrom(rows, cap, 0) && |RecentFrom(rows, cap, i + 1)| < Room(total)
  }

  /** The rows at the given positions from `i` on, in chronological order. */
  function Listing(rows: seq<Row>, s: set<nat>, i: nat): seq<Row>
    requires i <= |rows|
    decreases |rows| - i
  {
    if i == |rows| then []
    else if i in s then [rows[i]] + Listing(rows, s, i + 1)
    else Listing(rows, s, i + 1)
  }

  function Reversed(s: seq<Row>): seq<Row> {
    if s == [] then [] else [s[|s| - 1]] + Reversed(s[..|s| - 1])
  }

  // ----- The backward scan -----

  function SeenAt(seen: map<string, nat>, era: string): nat {
    if era in seen then seen[era] else 0
  }

  /** What a counter that stops at the cap shows after `n` rows. */
  function Clamp(cap: int, n: nat): nat {
    Max(0, Min(cap, n))
  }

  ghost predicate SeenRight(rows: seq<Row>, cap: int, i: nat, seen: map<string, nat>) {
    forall era :: SeenAt(seen, era) == Clamp(cap, |EraFrom(rows, i, era)|)
  }

  lemma NothingSeen(rows: seq<Row>, cap: int)
    ensures SeenRight(rows, cap, |rows|, map[])
    ensures RecentFrom(rows, cap, |rows|) == {}
  {
    forall era ensures EraFrom(rows, |rows|, era) == {} {
    }
  }

  lemma EraFromStep(rows: seq<Row>, i: nat, era: string)
    requires i < |rows|
    ensures EraFrom(rows, i, era) == EraFrom(rows, i + 1, era) + (if rows[i].era == era then {i} else {})
    ensures i !in EraFrom(rows, i + 1, era)
  {
    hide Upto;
  }

  lemma RecentFromStep(rows: seq<Row>, cap: int, i: nat)
    requires i < |rows|
    ensures RecentFrom(rows, cap, i) == RecentFrom(rows, cap, i + 1) + (if Recent(rows, cap, i) then {i} else {})
    ensures i !in RecentFrom(rows, cap, i + 1)
  {
    hide Upto, Recent;
  }

  /** One row of the scan: the counter tells whether the row is recent, and counting it
      only then keeps the counters right. */
  lemma ScanStep(rows: seq<Row>, cap: int, i: nat, seen: map<string, nat>)
    requires i < |rows| && SeenRight(rows, cap, i + 1, seen)
    ensures var era := rows[i].era;
      && (Recent(rows, cap, i) <==> SeenAt(seen, era) < cap)
      && SeenRight(rows, cap, i, if SeenAt(seen, era) < cap then seen[era := SeenAt(seen, era) + 1] else seen)
  {
    hide EraFrom, Clamp, SeenAt;
    var era := rows[i].era;
    ClampStep(cap, |EraFrom(rows, i + 1, era)|);
    var next := if SeenAt(seen, era) < cap then seen[era := SeenAt(seen, era) + 1] else seen;
    assert SeenAt(seen, era) == Clamp(cap, |EraFrom(rows, i + 1, era)|);
    forall e ensures SeenAt(next, e) == Clamp(cap, |EraFrom(rows, i, e)|) {
      EraFromStep(rows, i, e);
      SeenUpdate(seen, era, SeenAt(seen, era) + 1, e);
      assert SeenAt(seen, e) == Clamp(cap, |EraFrom(rows, i + 1, e)|);
    }
  }

  lemma ClampStep(cap: int, n: nat)
    ensures Clamp(cap, n) < cap <==> n < cap
    ensures Clamp(cap, n + 1) == Clamp(cap, n) + (if n < cap then 1 else 0)
  {
  }

  lemma SeenUpdate(seen: map<string, nat>, era: string, n: nat, e: string)
    ensures SeenAt(seen[era := n], e) == if e == era then n else SeenAt(seen, e)
  {
  }

  method StratifyByEra(rows: seq<Row>, perEraCap: int, totalCap: int) returns (picked: seq<Row>)
    ensures picked == Listing(rows, Kept(rows, perEraCap, totalCap), 0)
  {
    hide SeenRight, RecentFrom, Kept, Recent, SeenAt, Upto;
    picked := [];
    var seen: map<string, nat> := map[];
    var i: nat := |rows|;
    NothingSeen(rows, perEraCap);
    ghost var recent := RecentFrom(rows, perEraCap, 0);
    while i > 0
      invariant i <= |rows|
      invariant SeenRight(rows, perEraCap, i, seen)
      invariant Reversed(picked) == Listing(rows, recent, i)
      invariant |picked| == |RecentFrom(rows, perEraCap, i)| < Room(totalCap)
      decreases i
    {
      i := i - 1;
      ScanStep(rows, perEraCap, i, seen);
      RecentFromStep(rows, perEraCap, i);
      RecentMember(rows, perEraCap, i);
      var era := rows[i].era;
      if SeenAt(seen, era) >= perEraCap {
        continue;
      }
      ReversedSnoc(picked, rows[i]);
      picked := picked + [rows[i]];
      seen := seen[era := SeenAt(seen, era) + 1];
      if |picked| >= totalCap {
        break;
      }
    }
    KeptIsTail(rows, perEraCap, totalCap, i);
    picked := Reversed(picked);
  }

  lemma ReversedSnoc(s: seq<Row>, r: Row)
    ensures Reversed(s + [r]) == [r] + Reversed(s)
  {
    assert (s + [r])[..|s|] == s;
  }

  lemma RecentMember(rows: seq<Row>, cap: int, i: nat)
    requires i < |rows|
    ensures i in RecentFrom(rows, cap, 0) <==> Recent(rows, cap, i)
  {
  }

  /** Once the room is full, or all rows were seen, the rows kept are the recent ones seen. */
  lemma KeptIsTail(rows: seq<Row>, cap: int, total: int, i: nat)
    requires i <= |rows|
    requires |RecentFrom(rows, cap, i)| == Room(total) || (i == 0 && |RecentFrom(rows, cap, 0)| < Room(total))
    ensures Kept(rows, cap, total) == RecentFrom(rows, cap, i)
    ensures Listing(rows, Kept(rows, cap, total), 0) == Listing(rows, RecentFrom(rows, cap, 0), i)
  {
    hide Recent, Upto, Listing, RecentFrom;
    TailMembers(rows, cap, 0);
    TailMembers(rows, cap, i);
    forall j | j in RecentFrom(rows, cap, 0) ensures j in Kept(rows, cap, total) <==> i <= j {
      TailMembers(rows, cap, j + 1);
      if i <= j {
        assert RecentFrom(rows, cap, j + 1) + {j} <= RecentFrom(rows, cap, i);
        SubsetSize(RecentFrom(rows, cap, j + 1) + {j}, RecentFrom(rows, cap, i));
      } else {
        assert RecentFrom(rows, cap, i) <= RecentFrom(rows, cap, j + 1);
        SubsetSize(RecentFrom(rows, cap, i), RecentFrom(rows, cap, j + 1));
      }
    }
    var kept := Kept(rows, cap, total);
    assert kept == RecentFrom(rows, cap, i);
    ListingSkips(rows, kept, 0, i);
    ListingCong(rows, kept, RecentFrom(rows, cap, 0), i);
  }

  lemma {:induction false} ListingSkips(rows: seq<Row>, s: set<nat>, i: nat, j: nat)
    requires i <= j <= |rows| && forall k: nat :: k in s ==> j <= k
    ensures Listing(rows, s, i) == Listing(rows, s, j)
    decreases j - i
  {
    if i < j {
      ListingSkips(rows, s, i + 1, j);
    }
  }

  lemma {:induction false} ListingCong(rows: seq<Row>, s: set<nat>, t: set<nat>, i: nat)
    requires i <= |rows| && forall k: nat :: i <= k ==> (k in s <==> k in t)
    ensures Listing(rows, s, i) == Listing(rows, t, i)
    decreases |rows| - i
  {
    if i < |rows| {
      ListingCong(rows, s, t, i + 1);
    }
  }

  /** The sample lists the rows kept in chronological order. */
  lemma {:induction false} ListingInOrder(rows: seq<Row>, s: set<nat>, i: nat) returns (at: seq<nat>)
    requires i <= |rows|
    ensures Increasing(at) && (forall j: nat :: j in at <==> i <= j < |rows| && j in s)
    ensures |Listing(rows, s, i)| == |at|
    ensures forall r :: 0 <= r < |at| ==> at[r] < |rows| && Listing(rows, s, i)[r] == rows[at[r]]
    decreases |rows| - i
  {
    at := [];
    if i < |rows| {
      at := ListingInOrder(rows, s, i + 1);
      assert forall r :: 0 <= r < |at| ==> at[r] in at;
      if i in s {
        at := [i] + at;
      }
    }
  }

  // ----- What the sample guarantees -----

  function RecentOfEra(rows: seq<Row>, cap: int, i: nat, era: string): set<nat> {
    set j | j in RecentFrom(rows, cap, i) && j < |rows| && rows[j].era == era
  }

  lemma {:induction false} EraCount(rows: seq<Row>, cap: int, i: nat, era: string)
    requires i <= |rows|
    ensures |RecentOfEra(rows, cap, i, era)| == Clamp(cap, |EraFrom(rows, i, era)|)
    decreases |rows| - i
  {
    hide Recent, RecentOfEra, RecentFrom, EraFrom, Clamp, Upto;
    if i == |rows| {
      NoRecentOfEra(rows, cap, era);
      NoneOfEra(rows, era);
      assert Clamp(cap, 0) == 0 by { ClampStart(cap); }
    } else {
      EraCount(rows, cap, i + 1, era);
      EraFromStep(rows, i, era);
      RecentOfEraStep(rows, cap, i, era);
      ClampStep(cap, |EraFrom(rows, i + 1, era)|);
      if rows[i].era == era {
        RecentMeans(rows, cap, i);
      }
    }
  }

  lemma RecentOfEraStep(rows: seq<Row>, cap: int, i: nat, era: string)
    requires i < |rows|
    ensures RecentOfEra(rows, cap, i, era)
         == RecentOfEra(rows, cap, i + 1, era) + (if Recent(rows, cap, i) && rows[i].era == era then {i} else {})
    ensures i !in RecentOfEra(rows, cap, i + 1, era)
  {
    hide Recent, RecentFrom, Upto;
    RecentFromStep(rows, cap, i);
  }

  lemma NoRecentOfEra(rows: seq<Row>, cap: int, era: string)
    ensures RecentOfEra(rows, cap, |rows|, era) == {}
  {
    NothingSeen(rows, cap);
  }

  lemma ClampStart(cap: int)
    ensures Clamp(cap, 0) == 0
  {
  }

  lemma NoneOfEra(rows: seq<Row>, era: string)
    ensures EraFrom(rows, |rows|, era) == {}
  {
  }

  lemma RecentMeans(rows: seq<Row>, cap: int, i: nat)
    requires i < |rows|
    ensures Recent(rows, cap, i) <==> |EraFrom(rows, i + 1, rows[i].era)| < cap
  {
  }

  /** The sample keeps as many rows as there are recent ones, up to the room. */
  lemma KeptCount(rows: seq<Row>, cap: int, total: int)
    ensures |Kept(rows, cap, total)| == Min(Room(total), |RecentFrom(rows, cap, 0)|)
  {
    hide Recent, RecentFrom, Kept;
    var i := Cut(rows, cap, total, 0);
    KeptIsTail(rows, cap, total, i);
    TailMembers(rows, cap, i);
    TailMembers(rows, cap, 0);
    SubsetSize(RecentFrom(rows, cap, i), RecentFrom(rows, cap, 0));
  }

  /** Where the scan stops. */
  lemma {:induction false} Cut(rows: seq<Row>, cap: int, total: int, from: nat) returns (i: nat)
    requires from <= |rows|
    ensures from <= i <= |rows|
    ensures |RecentFrom(rows, cap, i)| == Room(total) || (i == from && |RecentFrom(rows, cap, i)| < Room(total))
    ensures |RecentFrom(rows, cap, from)| >= Room(total) ==> |RecentFrom(rows, cap, i)| == Room(total)
    decreases |rows| - from
  {
    hide Recent, RecentFrom;
    if from == |rows| {
      NothingSeen(rows, cap);
      i := from;
    } else {
      RecentFromStep(rows, cap, from);
      if |RecentFrom(rows, cap, from)| <= Room(total) {
        i := from;
      } else {
        i := Cut(rows, cap, total, from + 1);
      }
    }
  }

  /** No era is kept more often than its cap. */
  lemma EraCapHolds(rows: seq<Row>, cap: int, total: int, era: string)
    ensures |set i | i in Kept(rows, cap, total) && i < |rows| && rows[i].era == era| <= Max(cap, 0)
  {
    hide RecentFrom;
    EraCount(rows, cap, 0, era);
    var kept := set i | i in Kept(rows, cap, total) && i < |rows| && rows[i].era == era;
    SubsetSize(kept, RecentOfEra(rows, cap, 0, era));
  }

  /** Within an era the sample is a suffix: with a row, every later row of its era is kept. */
  lemma EraSuffix(rows: seq<Row>, cap: int, total: int, i: nat, j: nat)
    requires i < j < |rows| && rows[i].era == rows[j].era && i in Kept(rows, cap, total)
    ensures j in Kept(rows, cap, total)
  {
    hide Upto;
    SubsetSize(EraFrom(rows, j + 1, rows[j].era), EraFrom(rows, i + 1, rows[i].era));
    SubsetSize(RecentFrom(rows, cap, j + 1), RecentFrom(rows, cap, i + 1));
  }

  /** A row is dropped exactly when, among the rows kept after it, its era already fills
      its cap or all the room is taken. */
  lemma DroppedExactly(rows: seq<Row>, cap: int, total: int, i: nat)
    requires i < |rows|
    ensures var later := set j | j in Kept(rows, cap, total) && i < j;
      var sameEra := set j | j in later && j < |rows| && rows[j].era == rows[i].era;
      i !in Kept(rows, cap, total) <==> |sameEra| >= Max(cap, 0) || |later| >= Max(total, 1)
  {
    hide Recent, RecentFrom, Kept, EraFrom, Upto;
    var cut := Cut(rows, cap, total, 0);
    KeptIsTail(rows, cap, total, cut);
    var later := set j | j in Kept(rows, cap, total) && i < j;
    var sameEra := set j | j in later && j < |rows| && rows[j].era == rows[i].era;
    TailMembers(rows, cap, cut);
    TailMembers(rows, cap, i + 1);
    RecentMeans(rows, cap, i);
    EraCount(rows, cap, i + 1, rows[i].era);
    if i < cut {
      assert later == RecentFrom(rows, cap, cut);
    } else {
      assert later == RecentFrom(rows, cap, i + 1);
      assert sameEra == RecentOfEra(rows, cap, i + 1, rows[i].era);
      TailMembers(rows, cap, i);
      RecentFromStep(rows, cap, i);
      SubsetSize(RecentFrom(rows, cap, i), RecentFrom(rows, cap, cut));
    }
  }

  lemma TailMembers(rows: seq<Row>, cap: int, i: nat)
    ensures forall j: nat :: j in RecentFrom(rows, cap, i) <==> j < |rows| && i <= j && Recent(rows, cap, j)
  {
  }

  function MembersFrom(rows: seq<Row>, s: set<nat>, i: nat): set<nat> {
    set j | j in s && j < |rows| && i <= j
  }

  /** A listing is as long as there are positions to list. */
  lemma {:induction false} ListingLength(rows: seq<Row>, s: set<nat>, i: nat)
    requires i <= |rows|
    ensures |Listing(rows, s, i)| == |MembersFrom(rows, s, i)|
    decreases |rows| - i
  {
    if i == |rows| {
      assert MembersFrom(rows, s, i) == {};
    } else {
      ListingLength(rows, s, i + 1);
      assert MembersFrom(rows, s, i) == MembersFrom(rows, s, i + 1) + (if i in s then {i} else {});
      assert i !in MembersFrom(rows, s, i + 1);
    }
  }

  /** Unless the caps admit nothing at all, the last row is recent. */
  lemma SomeRecent(rows: seq<Row>, cap: int)
    ensures RecentFrom(rows, cap, 0) == {} <==> rows == [] || cap <= 0
  {
    if rows != [] && cap > 0 {
      var last := |rows| - 1;
      assert EraFrom(rows, |rows|, rows[last].era) == {};
      assert last in RecentFrom(rows, cap, 0);
    }
  }

  /** The sample has as many rows as there are recent ones, up to the room; so it respects
      the total cap exactly when that is at least one or there is nothing to take. */
  lemma SampleSize(rows: seq<Row>, cap: int, total: int)
    ensures |Listing(rows, Kept(rows, cap, total), 0)| == Min(Room(total), |RecentFrom(rows, cap, 0)|)
    ensures |Listing(rows, Kept(rows, cap, total), 0)| <= Max(total, 0) <==> total >= 1 || rows == [] || cap <= 0
  {
    hide Recent, Listing;
    SomeRecent(rows, cap);
    ListingLength(rows, Kept(rows, cap, total), 0);
    KeptCount(rows, cap, total);
    assert MembersFrom(rows, Kept(rows, cap, total), 0) == Kept(rows, cap, total);
  }
}
