// Snapshot records and the notions of time, order and naming that the
// retention selector works with.
module Snapshots {

  /** Length of one day in seconds. Days are taken to be of fixed length. */
  const SecondsPerDay: int := 86400

  /** Go's zero `time.Time` (00:00:00 UTC on 1 January of year 1) in Unix seconds. */
  const ZeroTime: int := -62135596800

  /** A snapshot of the dataset: its full name and its creation instant in
      Unix seconds. */
  datatype Snapshot = Snapshot(name: string, creation: int)

  /** The zero value `Snapshot{}`: an empty name and the zero time. It is what
      the scan for the newest snapshot starts from and what it returns when
      nothing is strictly later. */
  const Sentinel: Snapshot := Snapshot("", ZeroTime)

  /** The set of names occurring in a list of snapshots. */
  function Names(s: seq<Snapshot>): set<string>
  {
    set x | x in s :: x.name
  }

  /** Newest first: creation instants never increase along the list. */
  predicate SortedByCreationDesc(s: seq<Snapshot>)
  {
    forall i, j :: 0 <= i < j < |s| ==> s[i].creation >= s[j].creation
  }

  /** No two positions of the list carry the same name. */
  predicate DistinctNames(s: seq<Snapshot>)
  {
    forall i, j :: 0 <= i < j < |s| ==> s[i].name != s[j].name
  }

  /** Appending a snapshot adds its name to the names of the list. */
  lemma NamesAppend(s: seq<Snapshot>, x: Snapshot)
    ensures Names(s + [x]) == Names(s) + {x.name}
  {
    assert forall y :: y in s + [x] <==> y in s || y == x;
  }

  /** Snapshots with the same multiset of records have the same names. */
  lemma NamesOfPermutation(s: seq<Snapshot>, t: seq<Snapshot>)
    requires multiset(s) == multiset(t)
    ensures Names(s) == Names(t)
  {
    forall n | n in Names(s) ensures n in Names(t) {
      var x :| x in s && x.name == n;
      assert x in multiset(s);
    }
    forall n | n in Names(t) ensures n in Names(s) {
      var x :| x in t && x.name == n;
      assert x in multiset(t);
    }
  }
}
