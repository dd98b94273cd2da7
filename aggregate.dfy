// The keep/prune partition computed in the body of the retention command:
// the four tiers are concatenated, sorted and deduplicated into the keep
// list, and every enumerated snapshot whose name is not kept is pruned.
module Aggregate {
  import opened Snapshots
  import opened Selection
  import opened Dedup

  /** The four tier counts of the retention command. */
  datatype RetentionPolicy = RetentionPolicy(
    intraDailyDays: int,
    dailyPeriods: int,
    weeklyPeriods: int,
    monthlyPeriods: int)

  /** Period lengths, in days, of the daily, weekly and monthly tiers. */
  const DailyDays: int := 1
  const WeeklyDays: int := 7
  const MonthlyDays: int := 30

  /** The keep candidates before sorting and deduplication, tier by tier. */
  function Candidates(s: seq<Snapshot>, policy: RetentionPolicy): seq<Snapshot>
  {
    IntraDaily(s, policy.intraDailyDays)
    + Retained(s, policy.dailyPeriods, DailyDays)
    + Retained(s, policy.weeklyPeriods, WeeklyDays)
    + Retained(s, policy.monthlyPeriods, MonthlyDays)
  }

  /** The names the partition keeps. */
  function KeepNames(s: seq<Snapshot>, policy: RetentionPolicy): set<string>
  {
    Names(Candidates(s, policy))
  }

  /** The snapshots of `s` whose name is not in `keep`, in their original order. */
  function PruneList(s: seq<Snapshot>, keep: set<string>): (p: seq<Snapshot>)
    ensures |p| <= |s|
    ensures forall k :: 0 <= k < |p| ==> p[k] in s && p[k].name !in keep
  {
    if s == [] then []
    else
      var p := PruneList(s[..|s| - 1], keep);
      if s[|s| - 1].name !in keep then p + [s[|s| - 1]] else p
  }

  /** What the retention command deletes for a policy. */
  function Plan(s: seq<Snapshot>, policy: RetentionPolicy): seq<Snapshot>
  {
    PruneList(s, KeepNames(s, policy))
  }

  /** A snapshot is pruned exactly when it was enumerated and its name is not
      kept. */
  lemma {:induction false} PruneListMembers(s: seq<Snapshot>, keep: set<string>)
    ensures forall x :: x in PruneList(s, keep) <==> x in s && x.name !in keep
  {
    if s != [] {
      var p := s[..|s| - 1];
      PruneListMembers(p, keep);
      assert s == p + [s[|s| - 1]];
    }
  }

  /** The prune filter keeps the enumeration order and decides each snapshot
      on its own. */
  lemma {:induction false} PruneListAppend(a: seq<Snapshot>, b: seq<Snapshot>, keep: set<string>)
    ensures PruneList(a + b, keep) == PruneList(a, keep) + PruneList(b, keep)
  {
    if b == [] {
      assert a + b == a;
    } else {
      var q := b[..|b| - 1];
      PruneListAppend(a, q, keep);
      assert (a + b)[..|a + b| - 1] == a + q;
      assert (a + b)[|a + b| - 1] == b[|b| - 1];
    }
  }

  /** By name, kept and pruned are disjoint and together cover every
      enumerated snapshot. */
  lemma PartitionByName(s: seq<Snapshot>, keep: set<string>)
    ensures Names(PruneList(s, keep)) !! keep
    ensures Names(s) == (Names(s) * keep) + Names(PruneList(s, keep))
  {
    PruneListMembers(s, keep);
  }

  /** Every keep candidate is an enumerated snapshot or the sentinel that an
      empty period contributes. */
  lemma CandidatesFromInput(s: seq<Snapshot>, policy: RetentionPolicy)
    ensures forall x :: x in Candidates(s, policy) ==> x in s || x == Sentinel
  {
    var L := Latest(s).creation;
    WindowMembers(s, L, L - policy.intraDailyDays * SecondsPerDay);
    RetainedFromInput(s, policy.dailyPeriods, DailyDays);
    RetainedFromInput(s, policy.weeklyPeriods, WeeklyDays);
    RetainedFromInput(s, policy.monthlyPeriods, MonthlyDays);
  }

  /** Every pick of a periodic tier is an enumerated snapshot or the sentinel. */
  lemma RetainedFromInput(s: seq<Snapshot>, count: int, days: int)
    ensures forall x :: x in Retained(s, count, days) ==> x in s || x == Sentinel
  {
    forall i | 0 <= i < |Retained(s, count, days)|
      ensures Retained(s, count, days)[i] in s || Retained(s, count, days)[i] == Sentinel
    {
      RetainedEntry(s, count, days, i);
    }
  }

  /** Enumerated names are never empty, so the sentinel's empty name among the
      kept names makes no difference to what is pruned. */
  lemma {:induction false} SentinelNameHarmless(s: seq<Snapshot>, keep: set<string>)
    requires forall x :: x in s ==> x.name != ""
    ensures PruneList(s, keep) == PruneList(s, keep - {""})
  {
    if s != [] {
      var p := s[..|s| - 1];
      assert forall x :: x in p ==> x in s;
      SentinelNameHarmless(p, keep);
      assert s[|s| - 1] in s;
    }
  }

  /** A tier keeps something when it is switched on. */
  predicate AnyTierOn(policy: RetentionPolicy)
  {
    policy.intraDailyDays != 0 || policy.dailyPeriods > 0 || policy.weeklyPeriods > 0 || policy.monthlyPeriods > 0
  }

  /** With any tier switched on, the newest snapshot is among the keep
      candidates. */
  lemma LatestIsCandidate(s: seq<Snapshot>, policy: RetentionPolicy)
    requires AnyTierOn(policy)
    requires exists i :: 0 <= i < |s| && s[i].creation > ZeroTime
    ensures Latest(s) in Candidates(s, policy)
  {
    var latest := Latest(s);
    var intra := IntraDaily(s, policy.intraDailyDays);
    var daily := Retained(s, policy.dailyPeriods, DailyDays);
    var weekly := Retained(s, policy.weeklyPeriods, WeeklyDays);
    var monthly := Retained(s, policy.monthlyPeriods, MonthlyDays);
    assert Candidates(s, policy) == intra + daily + weekly + monthly;
    if policy.intraDailyDays != 0 {
      IntraDailyKeepsLatest(s, policy.intraDailyDays);
      assert latest in intra;
    } else if policy.dailyPeriods > 0 {
      RetainedFirstIsLatest(s, policy.dailyPeriods, DailyDays);
      assert latest in daily;
    } else if policy.weeklyPeriods > 0 {
      RetainedFirstIsLatest(s, policy.weeklyPeriods, WeeklyDays);
      assert latest in weekly;
    } else {
      RetainedFirstIsLatest(s, policy.monthlyPeriods, MonthlyDays);
      assert latest in monthly;
    }
  }

  /** With any tier switched on, the newest snapshot is never pruned, nor is
      anything else carrying its name. */
  lemma LatestNeverPruned(s: seq<Snapshot>, policy: RetentionPolicy)
    requires AnyTierOn(policy)
    requires exists i :: 0 <= i < |s| && s[i].creation > ZeroTime
    ensures Latest(s).name in KeepNames(s, policy)
    ensures forall x :: x in Plan(s, policy) ==> x.name != Latest(s).name
  {
    LatestIsCandidate(s, policy);
    PruneListMembers(s, KeepNames(s, policy));
  }

  /** With every tier switched off nothing is kept and every enumerated
      snapshot is pruned. */
  lemma {:induction false} NoTierPrunesAll(s: seq<Snapshot>, policy: RetentionPolicy)
    requires !AnyTierOn(policy)
    ensures KeepNames(s, policy) == {}
    ensures Plan(s, policy) == s
  {
    assert Candidates(s, policy) == [];
    PruneAllOfEmpty(s);
  }

  /** Filtering against no kept names removes nothing. */
  lemma {:induction false} PruneAllOfEmpty(s: seq<Snapshot>)
    ensures PruneList(s, {}) == s
  {
    if s != [] {
      PruneAllOfEmpty(s[..|s| - 1]);
      assert s == s[..|s| - 1] + [s[|s| - 1]];
    }
  }

  /** The three-snapshot list of the scenarios below, one record at a time. */
  lemma PruneListOfThree(a: Snapshot, b: Snapshot, c: Snapshot, keep: set<string>)
    ensures PruneList([a, b, c], keep) ==
      (if a.name in keep then [] else [a]) + (if b.name in keep then [] else [b]) + (if c.name in keep then [] else [c])
  {
    assert [a, b, c][..2] == [a, b] && [a, b][..1] == [a] && [a][..0] == [];
    assert PruneList([a], keep) == if a.name in keep then [] else [a];
    assert PruneList([a, b], keep) == PruneList([a], keep) + (if b.name in keep then [] else [b]);
  }

  /** The window of the three-snapshot list of the scenarios below, one
      record at a time. */
  lemma WindowOfThree(a: Snapshot, b: Snapshot, c: Snapshot, startTime: int, endTime: int)
    ensures Window([a, b, c], startTime, endTime) ==
      (if InWindow(a.creation, startTime, endTime) then [a] else [])
      + (if InWindow(b.creation, startTime, endTime) then [b] else [])
      + (if InWindow(c.creation, startTime, endTime) then [c] else [])
  {
    assert [a, b, c][..2] == [a, b] && [a, b][..1] == [a] && [a][..0] == [];
    assert Window([a, b], startTime, endTime) == Window([a], startTime, endTime)
      + (if InWindow(b.creation, startTime, endTime) then [b] else []);
  }

  /** The newest of three snapshots whose first is strictly the newest. */
  lemma LatestOfThree(a: Snapshot, b: Snapshot, c: Snapshot)
    requires a.creation > ZeroTime && a.creation >= b.creation && a.creation >= c.creation
    ensures Latest([a, b, c]) == a
  {
    assert [a, b, c][..2] == [a, b] && [a, b][..1] == [a] && [a][..0] == [];
    assert Latest([a]) == a;
    assert Latest([a, b]) == a;
  }

  /** One intra-daily day: a snapshot exactly one day older than the newest
      lies on the window's older bound and is pruned; the others are kept. */
  lemma ScenarioOneDayBoundary()
    ensures var s := [Snapshot("A", 100), Snapshot("B", 90), Snapshot("C", 100 - SecondsPerDay)];
      var policy := RetentionPolicy(1, 0, 0, 0);
      KeepNames(s, policy) == {"A", "B"} && Plan(s, policy) == [Snapshot("C", 100 - SecondsPerDay)]
  {
    var a, b, c := Snapshot("A", 100), Snapshot("B", 90), Snapshot("C", 100 - SecondsPerDay);
    var s := [a, b, c];
    LatestOfThree(a, b, c);
    assert Candidates(s, RetentionPolicy(1, 0, 0, 0)) == IntraDaily(s, 1);
    WindowOfThree(a, b, c, 100, 100 - SecondsPerDay);
    assert Window(s, 100, 100 - SecondsPerDay) == [a, b];
    assert forall x :: x in [a, b] <==> x == a || x == b;
    var keep := KeepNames(s, RetentionPolicy(1, 0, 0, 0));
    assert keep == {"A", "B"};
    PruneListOfThree(a, b, c, keep);
  }

  /** One intra-daily day keeps snapshots that are seconds apart: ninety
      seconds before the newest is well within the day. */
  lemma ScenarioSecondsApart()
    ensures var s := [Snapshot("A", 100), Snapshot("B", 90), Snapshot("C", 10)];
      var policy := RetentionPolicy(1, 0, 0, 0);
      KeepNames(s, policy) == {"A", "B", "C"} && Plan(s, policy) == []
  {
    var a, b, c := Snapshot("A", 100), Snapshot("B", 90), Snapshot("C", 10);
    var s := [a, b, c];
    LatestOfThree(a, b, c);
    assert Candidates(s, RetentionPolicy(1, 0, 0, 0)) == IntraDaily(s, 1);
    WindowOfThree(a, b, c, 100, 100 - SecondsPerDay);
    assert Window(s, 100, 100 - SecondsPerDay) == s;
    assert forall x :: x in s <==> x == a || x == b || x == c;
    var keep := KeepNames(s, RetentionPolicy(1, 0, 0, 0));
    assert keep == {"A", "B", "C"};
    PruneListOfThree(a, b, c, keep);
  }

  /** A name enumerated twice and not kept is pruned twice. */
  lemma ScenarioDuplicatePrunedTwice()
    ensures var s := [Snapshot("X", 100), Snapshot("Y", 50), Snapshot("Y", 50)];
      var policy := RetentionPolicy(0, 1, 0, 0);
      KeepNames(s, policy) == {"X"} && Plan(s, policy) == [Snapshot("Y", 50), Snapshot("Y", 50)]
  {
    var x, y := Snapshot("X", 100), Snapshot("Y", 50);
    var s := [x, y, y];
    var policy := RetentionPolicy(0, 1, 0, 0);
    LatestOfThree(x, y, y);
    RetainedFirstIsLatest(s, 1, DailyDays);
    var daily := Retained(s, 1, DailyDays);
    assert |daily| == 1 && daily[0] == x;
    assert daily == [x];
    assert IntraDaily(s, 0) == [] && Retained(s, 0, WeeklyDays) == [] && Retained(s, 0, MonthlyDays) == [];
    assert Candidates(s, policy) == [x];
    assert KeepNames(s, policy) == {"X"};
    PruneListOfThree(x, y, y, {"X"});
  }

  /** The four tiers' outputs, concatenated in the order the Run body
      appends them. */
  method CollectCandidates(snapshots: seq<Snapshot>, policy: RetentionPolicy)
    returns (keepSnapshots: seq<Snapshot>)
    ensures keepSnapshots == Candidates(snapshots, policy)
  {
    keepSnapshots := [];
    var tier := GetIntraDailySnapshots(snapshots, policy.intraDailyDays);
    keepSnapshots := keepSnapshots + tier;
    tier := FindRetention(snapshots, policy.dailyPeriods, DailyDays);
    keepSnapshots := keepSnapshots + tier;
    tier := FindRetention(snapshots, policy.weeklyPeriods, WeeklyDays);
    keepSnapshots := keepSnapshots + tier;
    tier := FindRetention(snapshots, policy.monthlyPeriods, MonthlyDays);
    keepSnapshots := keepSnapshots + tier;
  }

  /** The map of kept names the Run body fills from the keep list. */
  method KeepNameMap(keepSnapshots: seq<Snapshot>) returns (keepSnapshotNames: map<string, bool>)
    ensures keepSnapshotNames.Keys == Names(keepSnapshots)
  {
    keepSnapshotNames := map[];
    for i := 0 to |keepSnapshots|
      invariant keepSnapshotNames.Keys == Names(keepSnapshots[..i])
    {
      assert keepSnapshots[..i + 1] == keepSnapshots[..i] + [keepSnapshots[i]];
      NamesAppend(keepSnapshots[..i], keepSnapshots[i]);
      keepSnapshotNames := keepSnapshotNames[keepSnapshots[i].name := true];
    }
    assert keepSnapshots[..|keepSnapshots|] == keepSnapshots;
  }

  /** The loop of the Run body that collects every enumerated snapshot whose
      name is not in the map of kept names. */
  method PruneUnkept(snapshots: seq<Snapshot>, keepSnapshotNames: map<string, bool>)
    returns (pruneSnapshots: seq<Snapshot>)
    ensures pruneSnapshots == PruneList(snapshots, keepSnapshotNames.Keys)
  {
    pruneSnapshots := [];
    for i := 0 to |snapshots|
      invariant pruneSnapshots == PruneList(snapshots[..i], keepSnapshotNames.Keys)
    {
      assert snapshots[..i + 1][..i] == snapshots[..i];
      if snapshots[i].name !in keepSnapshotNames {
        pruneSnapshots := pruneSnapshots + [snapshots[i]];
      }
    }
    assert snapshots[..|snapshots|] == snapshots;
  }

  /** The Run body (cmd/retention.go) from the enumerated snapshots to the
      prune list: the keep list is the four tiers' outputs sorted newest
      first with one snapshot per name, and every enumerated snapshot whose
      name is not kept is pruned. */
  method EvaluateRetention(snapshots: seq<Snapshot>, policy: RetentionPolicy)
    returns (keepSnapshots: seq<Snapshot>, pruneSnapshots: seq<Snapshot>)
    ensures SortedByCreationDesc(keepSnapshots) && DistinctNames(keepSnapshots)
    ensures Names(keepSnapshots) == KeepNames(snapshots, policy)
    ensures forall x :: x in keepSnapshots ==> x in snapshots || x == Sentinel
    ensures pruneSnapshots == Plan(snapshots, policy)
  {
    var candidates := CollectCandidates(snapshots, policy);
    var buffer := new Snapshot[|candidates|](i requires 0 <= i < |candidates| => candidates[i]);
    assert buffer[..] == candidates;
    keepSnapshots := SortAndRemoveDuplicates(buffer);
    CandidatesFromInput(snapshots, policy);
    var keepSnapshotNames := KeepNameMap(keepSnapshots);
    pruneSnapshots := PruneUnkept(snapshots, keepSnapshotNames);
  }
}
