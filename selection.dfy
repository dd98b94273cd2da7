// The tier evaluators of the retention command: the scan for the newest
// snapshot, the time-window filter, the intra-daily tier and the periodic
// (daily, weekly, monthly) tier.
module Selection {
  import opened Snapshots

  // ---------------------------------------------------------------------
  // getLatestSnapshot
  // ---------------------------------------------------------------------

  /** The result of scanning `s` from left to right, starting from the zero
      sentinel and replacing the running value only by a snapshot whose
      creation is strictly later. */
  function Latest(s: seq<Snapshot>): (r: Snapshot)
    ensures r == Sentinel || r in s
    ensures ZeroTime <= r.creation
    ensures forall i :: 0 <= i < |s| ==> s[i].creation <= r.creation
  {
    if s == [] then Sentinel
    else
      var m := Latest(s[..|s| - 1]);
      if s[|s| - 1].creation > m.creation then s[|s| - 1] else m
  }

  /** Two cases: when nothing in `s` is later than the zero time, the sentinel
      comes back; otherwise the first snapshot (in list order) that has the
      greatest creation instant does. */
  lemma {:induction false} LatestIsFirstNewest(s: seq<Snapshot>)
    ensures (forall i :: 0 <= i < |s| ==> s[i].creation <= ZeroTime) ==> Latest(s) == Sentinel
    ensures (exists i :: 0 <= i < |s| && s[i].creation > ZeroTime) ==>
      exists k :: 0 <= k < |s| && Latest(s) == s[k] &&
        forall j :: 0 <= j < k ==> s[j].creation < s[k].creation
  {
    if s != [] {
      var p := s[..|s| - 1];
      LatestIsFirstNewest(p);
      assert forall i :: 0 <= i < |p| ==> p[i] == s[i];
      if exists i :: 0 <= i < |s| && s[i].creation > ZeroTime {
        if s[|s| - 1].creation > Latest(p).creation {
          var k := |s| - 1;
          assert forall j :: 0 <= j < k ==> s[j].creation <= Latest(p).creation;
        } else {
          // Latest(p) is later than the zero time, so it is a snapshot of p
          var i :| 0 <= i < |s| && s[i].creation > ZeroTime;
          assert Latest(p).creation > ZeroTime;
          var k :| 0 <= k < |p| && p[k] == Latest(p);
          assert p[k].creation > ZeroTime;
        }
      }
    }
  }

  /** As soon as one snapshot is later than the zero time, the scan returns a
      snapshot of the input rather than the sentinel. */
  lemma LatestInInput(s: seq<Snapshot>)
    requires exists i :: 0 <= i < |s| && s[i].creation > ZeroTime
    ensures Latest(s) in s && Latest(s).creation > ZeroTime
  {
    var i :| 0 <= i < |s| && s[i].creation > ZeroTime;
    assert s[i].creation <= Latest(s).creation;
  }

  /** getLatestSnapshot (cmd/retention.go): a running maximum with a strict
      comparison, so the first of several equally new snapshots wins. */
  method GetLatestSnapshot(snapshots: seq<Snapshot>) returns (latest: Snapshot)
    ensures latest == Latest(snapshots)
  {
    latest := Sentinel;
    for i := 0 to |snapshots|
      invariant latest == Latest(snapshots[..i])
    {
      assert snapshots[..i + 1][..i] == snapshots[..i];
      if snapshots[i].creation > latest.creation {
        latest := snapshots[i];
      }
    }
    assert snapshots[..|snapshots|] == snapshots;
  }

  // ---------------------------------------------------------------------
  // getSnapshotsWithinWindow
  // ---------------------------------------------------------------------

  /** The window test: strictly between the two bounds, or exactly at
      `startTime`. With `endTime < startTime` this is the interval
      `(endTime, startTime]`. */
  predicate InWindow(t: int, startTime: int, endTime: int)
    ensures InWindow(t, startTime, endTime) ==> t <= startTime
    ensures startTime <= endTime ==> (InWindow(t, startTime, endTime) <==> t == startTime)
  {
    (t < startTime && t > endTime) || t == startTime
  }

  /** The snapshots of `s` that pass the window test, in their original order. */
  function Window(s: seq<Snapshot>, startTime: int, endTime: int): seq<Snapshot>
  {
    if s == [] then []
    else
      var w := Window(s[..|s| - 1], startTime, endTime);
      if InWindow(s[|s| - 1].creation, startTime, endTime) then w + [s[|s| - 1]] else w
  }

  /** A snapshot is in the window result exactly when it is in the input and
      passes the window test. */
  lemma {:induction false} WindowMembers(s: seq<Snapshot>, startTime: int, endTime: int)
    ensures forall x :: x in Window(s, startTime, endTime) <==> x in s && InWindow(x.creation, startTime, endTime)
  {
    if s != [] {
      var p := s[..|s| - 1];
      WindowMembers(p, startTime, endTime);
      assert s == p + [s[|s| - 1]];
    }
  }

  /** The boundaries of the window: a snapshot created exactly at
      `startTime` is kept; one created exactly at `endTime` is dropped unless
      the two bounds coincide. */
  lemma WindowBoundary(s: seq<Snapshot>, startTime: int, endTime: int)
    ensures forall x :: x in s && x.creation == startTime ==> x in Window(s, startTime, endTime)
    ensures forall x :: x in s && x.creation == endTime && endTime != startTime ==> x !in Window(s, startTime, endTime)
  {
    WindowMembers(s, startTime, endTime);
  }

  /** The window filter distributes over concatenation: it keeps the input's
      order and decides each snapshot on its own. */
  lemma {:induction false} WindowAppend(a: seq<Snapshot>, b: seq<Snapshot>, startTime: int, endTime: int)
    ensures Window(a + b, startTime, endTime) == Window(a, startTime, endTime) + Window(b, startTime, endTime)
  {
    if b == [] {
      assert a + b == a;
    } else {
      var q := b[..|b| - 1];
      WindowAppend(a, q, startTime, endTime);
      assert (a + b)[..|a + b| - 1] == a + q;
      assert (a + b)[|a + b| - 1] == b[|b| - 1];
    }
  }

  /** The window result never holds more snapshots than its input. */
  lemma {:induction false} WindowLength(s: seq<Snapshot>, startTime: int, endTime: int)
    ensures |Window(s, startTime, endTime)| <= |s|
  {
    if s != [] {
      WindowLength(s[..|s| - 1], startTime, endTime);
    }
  }

  /** getSnapshotsWithinWindow (cmd/retention.go). */
  method GetSnapshotsWithinWindow(snapshots: seq<Snapshot>, startTime: int, endTime: int)
    returns (keep: seq<Snapshot>)
    ensures keep == Window(snapshots, startTime, endTime)
  {
    keep := [];
    for i := 0 to |snapshots|
      invariant keep == Window(snapshots[..i], startTime, endTime)
    {
      assert snapshots[..i + 1][..i] == snapshots[..i];
      if (snapshots[i].creation < startTime && snapshots[i].creation > endTime) || snapshots[i].creation == startTime {
        keep := keep + [snapshots[i]];
      }
    }
    assert snapshots[..|snapshots|] == snapshots;
  }

  /** When the newest snapshot of `s` passes the window test (or `s` holds
      nothing later than the zero time), the newest snapshot of the window is
      the newest snapshot of `s`. */
  lemma {:induction false} LatestOfWindow(s: seq<Snapshot>, startTime: int, endTime: int)
    requires Latest(s) == Sentinel || InWindow(Latest(s).creation, startTime, endTime)
    ensures Latest(Window(s, startTime, endTime)) == Latest(s)
  {
    if s != [] {
      var p := s[..|s| - 1];
      var x := s[|s| - 1];
      var w := Window(p, startTime, endTime);
      WindowMembers(p, startTime, endTime);
      if x.creation > Latest(p).creation {
        assert Latest(w).creation <= Latest(p).creation;
        assert (w + [x])[..|w + [x]| - 1] == w;
      } else {
        LatestOfWindow(p, startTime, endTime);
        if InWindow(x.creation, startTime, endTime) {
          assert (w + [x])[..|w + [x]| - 1] == w;
        }
      }
    }
  }

  // ---------------------------------------------------------------------
  // getIntraDailySnapshots
  // ---------------------------------------------------------------------

  /** Every snapshot within `days` days of the newest one; nothing when the
      tier is switched off with a count of zero. */
  function IntraDaily(s: seq<Snapshot>, days: int): seq<Snapshot>
  {
    if days == 0 then []
    else
      var latest := Latest(s);
      Window(s, latest.creation, latest.creation - days * SecondsPerDay)
  }

  /** getIntraDailySnapshots (cmd/retention.go). */
  method GetIntraDailySnapshots(snapshots: seq<Snapshot>, intraDailyRetention: int)
    returns (keep: seq<Snapshot>)
    ensures keep == IntraDaily(snapshots, intraDailyRetention)
  {
    if intraDailyRetention == 0 {
      return [];
    }
    var latestSnapshot := GetLatestSnapshot(snapshots);
    var startDate := latestSnapshot.creation;
    var endDate := latestSnapshot.creation - intraDailyRetention * SecondsPerDay;
    keep := GetSnapshotsWithinWindow(snapshots, startDate, endDate);
  }

  /** The intra-daily tier keeps nothing when it is switched off or when
      there are no snapshots. */
  lemma IntraDailyEmpty(s: seq<Snapshot>, days: int)
    requires days == 0 || s == []
    ensures IntraDaily(s, days) == []
  {
  }

  /** With a positive day count the intra-daily tier keeps exactly the input
      snapshots created in `(latest - days, latest]`. */
  lemma IntraDailyWithinDays(s: seq<Snapshot>, days: int)
    requires days > 0
    ensures forall x :: x in IntraDaily(s, days) <==>
      x in s && Latest(s).creation - days * SecondsPerDay < x.creation <= Latest(s).creation
  {
    var L := Latest(s).creation;
    WindowMembers(s, L, L - days * SecondsPerDay);
  }

  /** With a negative day count the window is turned around, and only the
      snapshots exactly as new as the newest one pass. */
  lemma IntraDailyNegativeDays(s: seq<Snapshot>, days: int)
    requires days < 0
    ensures forall x :: x in IntraDaily(s, days) <==> x in s && x.creation == Latest(s).creation
  {
    var L := Latest(s).creation;
    WindowMembers(s, L, L - days * SecondsPerDay);
  }

  /** Whenever the tier is on and some snapshot is later than the zero time,
      the newest snapshot itself is kept. */
  lemma {:induction false} IntraDailyKeepsLatest(s: seq<Snapshot>, days: int)
    requires days != 0
    requires exists i :: 0 <= i < |s| && s[i].creation > ZeroTime
    ensures Latest(s) in IntraDaily(s, days)
  {
    LatestInInput(s);
    var latest := Latest(s);
    var endDate := latest.creation - days * SecondsPerDay;
    assert latest in Window(s, latest.creation, endDate) by {
      WindowMembers(s, latest.creation, endDate);
    }
  }

  // ---------------------------------------------------------------------
  // findRetention
  // ---------------------------------------------------------------------

  /** The newer bound of period `i` of `days` days, counted back from `anchor`. */
  function PeriodStart(anchor: int, i: int, days: int): int
  {
    anchor - i * days * SecondsPerDay
  }

  /** What period `i` contributes: the newest snapshot of `s` in the window of
      that period, or the sentinel when there is none. */
  function PeriodPick(s: seq<Snapshot>, anchor: int, i: int, days: int): Snapshot
  {
    Latest(Window(s, PeriodStart(anchor, i, days), PeriodStart(anchor, i + 1, days)))
  }

  /** One pick per period for `count` consecutive periods of `days` days,
      counted back from the newest snapshot. */
  function Retained(s: seq<Snapshot>, count: int, days: int): (r: seq<Snapshot>)
    ensures |r| == if count > 0 then count else 0
  {
    if count <= 0 then []
    else
      var anchor := Latest(s).creation;
      seq(count, i requires 0 <= i < count => PeriodPick(s, anchor, i, days))
  }

  /** findRetention (cmd/retention.go). */
  method FindRetention(snapshots: seq<Snapshot>, retentionPeriodCount: int, retentionPeriodDurationDays: int)
    returns (keep: seq<Snapshot>)
    ensures keep == Retained(snapshots, retentionPeriodCount, retentionPeriodDurationDays)
  {
    if retentionPeriodCount == 0 {
      return [];
    }
    var latestSnapshot := GetLatestSnapshot(snapshots);
    keep := [];
    var i := 0;
    while i < retentionPeriodCount
      invariant 0 <= i && |keep| == i
      invariant retentionPeriodCount > 0 ==> i <= retentionPeriodCount
      invariant retentionPeriodCount < 0 ==> i == 0
      invariant forall j :: 0 <= j < i ==>
        keep[j] == PeriodPick(snapshots, latestSnapshot.creation, j, retentionPeriodDurationDays)
    {
      var startTime := latestSnapshot.creation - i * retentionPeriodDurationDays * SecondsPerDay;
      var endTime := latestSnapshot.creation - (i + 1) * retentionPeriodDurationDays * SecondsPerDay;
      var snapshotsWithinWindow := GetSnapshotsWithinWindow(snapshots, startTime, endTime);
      var newest := GetLatestSnapshot(snapshotsWithinWindow);
      keep := keep + [newest];
      i := i + 1;
    }
    assert retentionPeriodCount > 0 ==> keep == Retained(snapshots, retentionPeriodCount, retentionPeriodDurationDays);
  }

  /** Entry `i` of the periodic tier is either the sentinel or a snapshot of
      the input that falls in period `i`, and it is at least as new as every
      input snapshot of that period. */
  lemma RetainedEntry(s: seq<Snapshot>, count: int, days: int, i: int)
    requires 0 <= i < count
    ensures var r := Retained(s, count, days)[i];
      var hi := PeriodStart(Latest(s).creation, i, days);
      var lo := PeriodStart(Latest(s).creation, i + 1, days);
      && (r == Sentinel || (r in s && InWindow(r.creation, hi, lo)))
      && (forall x :: x in s && InWindow(x.creation, hi, lo) ==> x.creation <= r.creation)
  {
    var hi := PeriodStart(Latest(s).creation, i, days);
    var lo := PeriodStart(Latest(s).creation, i + 1, days);
    var w := Window(s, hi, lo);
    WindowMembers(s, hi, lo);
    forall x | x in s && InWindow(x.creation, hi, lo)
      ensures x.creation <= Latest(w).creation
    {
      var k :| 0 <= k < |w| && w[k] == x;
    }
  }

  /** Entry `i` of the periodic tier is the sentinel exactly when no input
      snapshot of period `i` is later than the zero time. */
  lemma RetainedEntryEmpty(s: seq<Snapshot>, count: int, days: int, i: int)
    requires 0 <= i < count
    ensures var hi := PeriodStart(Latest(s).creation, i, days);
      var lo := PeriodStart(Latest(s).creation, i + 1, days);
      Retained(s, count, days)[i] == Sentinel <==>
        forall x :: x in s && InWindow(x.creation, hi, lo) ==> x.creation <= ZeroTime
  {
    var hi := PeriodStart(Latest(s).creation, i, days);
    var lo := PeriodStart(Latest(s).creation, i + 1, days);
    var w := Window(s, hi, lo);
    WindowMembers(s, hi, lo);
    LatestIsFirstNewest(w);
    if Latest(w) == Sentinel {
      forall x | x in s && InWindow(x.creation, hi, lo) ensures x.creation <= ZeroTime {
        var k :| 0 <= k < |w| && w[k] == x;
      }
    } else {
      assert Latest(w) in w;
      var x := Latest(w);
      assert x in s && InWindow(x.creation, hi, lo);
      assert x.creation > ZeroTime;
    }
  }

  /** For periods of positive length, period `i` is the interval
      `(anchor - (i+1)*days, anchor - i*days]`. */
  lemma PeriodInterval(anchor: int, days: int, i: int, t: int)
    requires days > 0
    ensures InWindow(t, PeriodStart(anchor, i, days), PeriodStart(anchor, i + 1, days)) <==>
      anchor - (i + 1) * days * SecondsPerDay < t <= anchor - i * days * SecondsPerDay
  {
    assert (i + 1) * days * SecondsPerDay == i * days * SecondsPerDay + days * SecondsPerDay;
  }

  /** With at least one period, the first pick is the newest snapshot itself. */
  lemma RetainedFirstIsLatest(s: seq<Snapshot>, count: int, days: int)
    requires count > 0
    ensures Retained(s, count, days)[0] == Latest(s)
  {
    var a := Latest(s).creation;
    LatestOfWindow(s, PeriodStart(a, 0, days), PeriodStart(a, 1, days));
  }

  /** The quotient is the only whole number of periods that brackets `d`. */
  lemma QuotientUnique(d: int, len: int, j: int)
    requires len > 0 && j * len <= d < j * len + len
    ensures j == d / len
  {
    var q, r := d / len, d % len;
    assert d == q * len + r && 0 <= r < len;
    if j < q {
      MulMonotone(j + 1, q, len);
      assert false;
    } else if j > q {
      MulMonotone(q + 1, j, len);
      assert false;
    }
  }

  /** Multiplying by a natural number keeps order. */
  lemma MulMonotone(a: int, b: int, c: nat)
    ensures a <= b ==> a * c <= b * c
  {
    if a <= b {
      assert b * c - a * c == (b - a) * c;
    }
  }

  /** The periods tile the past: for periods of positive length, an instant no
      later than the anchor lies in exactly one period, the one numbered by
      how many whole periods it lies behind the anchor. An instant on a
      boundary belongs to the older of the two periods, as that period's
      newer bound. */
  lemma PeriodsTile(anchor: int, days: int, t: int)
    requires days > 0 && t <= anchor
    ensures var i := (anchor - t) / (days * SecondsPerDay);
      InWindow(t, PeriodStart(anchor, i, days), PeriodStart(anchor, i + 1, days))
    ensures forall j :: InWindow(t, PeriodStart(anchor, j, days), PeriodStart(anchor, j + 1, days)) ==>
      j == (anchor - t) / (days * SecondsPerDay)
  {
    var len := days * SecondsPerDay;
    var i := (anchor - t) / len;
    var rem := (anchor - t) % len;
    assert anchor - t == i * len + rem;
    assert PeriodStart(anchor, i, days) == anchor - i * len;
    assert PeriodStart(anchor, i + 1, days) == anchor - (i * len + len);
    forall j | InWindow(t, PeriodStart(anchor, j, days), PeriodStart(anchor, j + 1, days))
      ensures j == i
    {
      var hi, lo := PeriodStart(anchor, j, days), PeriodStart(anchor, j + 1, days);
      assert hi == anchor - j * len;
      assert lo == anchor - (j * len + len);
      assert j * len <= anchor - t < j * len + len;
      QuotientUnique(anchor - t, len, j);
    }
  }

}
