// sortAndRemoveDuplicates: an in-place sort, newest first, followed by a
// scan that keeps the first snapshot seen under each name.
module Dedup {
  import opened Snapshots

  /** The first-occurrence filter by name: a snapshot is kept when no earlier
      snapshot of the list carries its name. */
  function FirstByName(s: seq<Snapshot>): (r: seq<Snapshot>)
    ensures DistinctNames(r)
    ensures Names(r) == Names(s)
    ensures forall x :: x in r ==> x in s
  {
    if s == [] then []
    else
      var p := s[..|s| - 1];
      var x := s[|s| - 1];
      assert s == p + [x];
      NamesAppend(p, x);
      NamesAppend(FirstByName(p), x);
      if x.name in Names(p) then FirstByName(p) else FirstByName(p) + [x]
  }

  /** A snapshot is kept exactly when it occurs at a position before which
      its name does not occur. */
  lemma FirstByNameKeeps(s: seq<Snapshot>, x: Snapshot)
    ensures x in FirstByName(s) <==> exists i :: 0 <= i < |s| && s[i] == x && x.name !in Names(s[..i])
  {
    if x in FirstByName(s) {
      KeptIsFirst(s, x);
    }
    if exists i :: 0 <= i < |s| && s[i] == x && x.name !in Names(s[..i]) {
      var i :| 0 <= i < |s| && s[i] == x && x.name !in Names(s[..i]);
      FirstIsKept(s, i);
    }
  }

  /** A kept snapshot is the first of its name. */
  lemma {:induction false} KeptIsFirst(s: seq<Snapshot>, x: Snapshot)
    requires x in FirstByName(s)
    ensures exists i :: 0 <= i < |s| && s[i] == x && x.name !in Names(s[..i])
  {
    var p := s[..|s| - 1];
    if x in FirstByName(p) {
      KeptIsFirst(p, x);
      var i :| 0 <= i < |p| && p[i] == x && x.name !in Names(p[..i]);
      assert s[..i] == p[..i];
    } else {
      assert x == s[|s| - 1] && x.name !in Names(p);
      assert s[..|s| - 1] == p;
    }
  }

  /** The first snapshot of its name is kept. */
  lemma {:induction false} FirstIsKept(s: seq<Snapshot>, i: nat)
    requires i < |s| && s[i].name !in Names(s[..i])
    ensures s[i] in FirstByName(s)
  {
    var p := s[..|s| - 1];
    if i < |p| {
      assert s[..i] == p[..i];
      FirstIsKept(p, i);
    } else {
      assert s[..i] == p;
    }
  }

  /** The filter keeps the input's order, so a list sorted newest first stays
      sorted. */
  lemma {:induction false} FirstByNameSorted(s: seq<Snapshot>)
    requires SortedByCreationDesc(s)
    ensures SortedByCreationDesc(FirstByName(s))
  {
    if s != [] {
      var p := s[..|s| - 1];
      var x := s[|s| - 1];
      FirstByNameSorted(p);
      forall y | y in FirstByName(p) ensures y.creation >= x.creation {
        var i :| 0 <= i < |p| && p[i] == y;
      }
    }
  }

  /** On a list whose names are already distinct the filter changes nothing. */
  lemma {:induction false} FirstByNameOfDistinct(s: seq<Snapshot>)
    requires DistinctNames(s)
    ensures FirstByName(s) == s
  {
    if s != [] {
      var p := s[..|s| - 1];
      var x := s[|s| - 1];
      FirstByNameOfDistinct(p);
      assert x.name !in Names(p);
      assert s == p + [x];
    }
  }

  /** Removing duplicates twice is the same as removing them once. */
  lemma FirstByNameIdempotent(s: seq<Snapshot>)
    ensures FirstByName(FirstByName(s)) == FirstByName(s)
  {
    FirstByNameOfDistinct(FirstByName(s));
  }

  /** The position of a newest snapshot among `a[lo..]`: the inner scan of
      the sort. */
  method IndexOfNewest(a: array<Snapshot>, lo: nat) returns (m: nat)
    requires lo < a.Length
    ensures lo <= m < a.Length
    ensures forall j :: lo <= j < a.Length ==> a[j].creation <= a[m].creation
  {
    m := lo;
    for k := lo + 1 to a.Length
      invariant lo <= m < k
      invariant forall j :: lo <= j < k ==> a[j].creation <= a[m].creation
    {
      if a[k].creation > a[m].creation {
        m := k;
      }
    }
  }

  /** The first `i` snapshots are sorted newest first and none is older than
      any snapshot after them: the invariant of the selection sort. */
  predicate SortedPrefix(s: seq<Snapshot>, i: nat)
    requires i <= |s|
  {
    && (forall j, k :: 0 <= j < k < i ==> s[j].creation >= s[k].creation)
    && (forall j, k :: 0 <= j < i <= k < |s| ==> s[j].creation >= s[k].creation)
  }

  /** Exchanging position `i` with a position `m` that holds a newest
      snapshot of `s[i..]` extends the sorted prefix by one and permutes
      the list. */
  lemma SwapStep(s: seq<Snapshot>, i: nat, m: nat)
    requires i <= m < |s| && SortedPrefix(s, i)
    requires forall j :: i <= j < |s| ==> s[j].creation <= s[m].creation
    ensures SortedPrefix(s[i := s[m]][m := s[i]], i + 1)
    ensures multiset(s[i := s[m]][m := s[i]]) == multiset(s)
  {
    var t := s[i := s[m]][m := s[i]];
    forall j, k | 0 <= j < i + 1 <= k < |t| ensures t[j].creation >= t[k].creation {
      if j < i {
        assert t[j] == s[j];
        assert t[k] == s[k] || t[k] == s[i];
      }
    }
  }

  /** The sort step of sortAndRemoveDuplicates: newest first, a permutation of
      what was there. Like Go's sort.Slice it says nothing about the order of
      snapshots with equal creation instants. */
  method SortByCreationDesc(a: array<Snapshot>)
    modifies a
    ensures SortedByCreationDesc(a[..])
    ensures multiset(a[..]) == old(multiset(a[..]))
  {
    for i := 0 to a.Length
      invariant SortedPrefix(a[..], i)
      invariant multiset(a[..]) == old(multiset(a[..]))
    {
      var m := IndexOfNewest(a, i);
      ghost var before := a[..];
      SwapStep(before, i, m);
      a[i], a[m] := a[m], a[i];
      assert a[..] == before[i := before[m]][m := before[i]];
    }
  }

  /** sortAndRemoveDuplicates (cmd/retention.go): sorts the caller's array in
      place and returns, newest first, one snapshot per name. */
  method SortAndRemoveDuplicates(snapshots: array<Snapshot>) returns (result: seq<Snapshot>)
    modifies snapshots
    ensures SortedByCreationDesc(snapshots[..])
    ensures multiset(snapshots[..]) == old(multiset(snapshots[..]))
    ensures result == FirstByName(snapshots[..])
    ensures SortedByCreationDesc(result) && DistinctNames(result)
    ensures Names(result) == Names(old(snapshots[..]))
    ensures forall x :: x in result ==> x in old(snapshots[..])
  {
    SortByCreationDesc(snapshots);
    var seen: map<string, bool> := map[];
    result := [];
    for i := 0 to snapshots.Length
      invariant result == FirstByName(snapshots[..i])
      invariant seen.Keys == Names(snapshots[..i])
    {
      var snapshot := snapshots[i];
      assert snapshots[..i + 1] == snapshots[..i] + [snapshot];
      if snapshot.name !in seen {
        seen := seen[snapshot.name := true];
        result := result + [snapshot];
      }
    }
    assert snapshots[..snapshots.Length] == snapshots[..];
    FirstByNameSorted(snapshots[..]);
    NamesOfPermutation(snapshots[..], old(snapshots[..]));
    forall x | x in result ensures x in old(snapshots[..]) {
      assert x in multiset(snapshots[..]);
    }
  }
}
