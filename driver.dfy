// The control flow of the retention command: its early exits, and one
// deletion request per pruned snapshot whatever the earlier requests answered.
// The storage subsystem is outside the model: whether the dataset exists and
// what `zfs list` printed are inputs, and `zfs destroy` is an oracle that
// answers each numbered request.
module Driver {
  import opened Snapshots
  import opened ZfsList
  import opened Aggregate

  /** What `zfs destroy` answers: its output, or an error. */
  datatype DestroyReply = Destroyed(output: string) | DestroyFailed(error: string)

  /** One deletion request: the snapshot's name and whether the deletion is
      only simulated (`zfs destroy -n`). */
  datatype DestroyCall = DestroyCall(name: string, simulate: bool)

  /** The lines the command logs. */
  datatype LogLine =
    | DatasetMissing(dataset: string)
    | DryRunNotice
    | NotRootNotice
    | NoSnapshots(dataset: string)
    | NothingToPrune(dataset: string)
    | Pruning(count: nat, dataset: string)
    | DeleteFailed(name: string, error: string)
    | DeleteOutput(output: string)

  /** How a run ends: a process exit code, Go's panic on a malformed listing
      line, or the end of the deletion loop. */
  datatype Ending = Exit(code: int) | Panicked(failure: IndexOutOfRange) | Completed

  /** Deletions are simulated when asked for, and also when the command does
      not run as root. */
  function Simulated(dryRunFlag: bool, isRoot: bool): bool
  {
    dryRunFlag || !isRoot
  }

  /** The line logged about the dry-run mode before anything is enumerated. */
  function Preamble(dryRunFlag: bool, isRoot: bool): seq<LogLine>
  {
    if dryRunFlag then [DryRunNotice] else if !isRoot then [NotRootNotice] else []
  }

  /** The line logged for one deletion request. */
  function Report(name: string, reply: DestroyReply): LogLine
  {
    match reply
    case Destroyed(output) => DeleteOutput(output)
    case DestroyFailed(error) => DeleteFailed(name, error)
  }

  /** The deletion phase: after `header` and the line announcing the count,
      one request per pruned snapshot, in order, with the given simulation
      flag, and one report line per answer. */
  predicate Deletes(prune: seq<Snapshot>, dataset: string, header: seq<LogLine>, simulate: bool,
                    destroy: (nat, DestroyCall) -> DestroyReply, calls: seq<DestroyCall>, log: seq<LogLine>)
  {
    var logged := header + [Pruning(|prune|, dataset)];
    && |calls| == |prune|
    && (forall i :: 0 <= i < |prune| ==> calls[i] == DestroyCall(prune[i].name, simulate))
    && |log| == |logged| + |prune| && log[..|logged|] == logged
    && (forall i :: 0 <= i < |prune| ==> log[|logged| + i] == Report(prune[i].name, destroy(i, calls[i])))
  }

  /** retentionCmd.Run (cmd/retention.go) after the logger is open. */
  method Run(dataset: string, policy: RetentionPolicy, dryRunFlag: bool, isRoot: bool,
             datasetExists: bool, listing: Option<string>,
             destroy: (nat, DestroyCall) -> DestroyReply)
    returns (calls: seq<DestroyCall>, log: seq<LogLine>, ending: Ending)
    // a missing dataset ends the run before anything else
    ensures !datasetExists ==> calls == [] && log == [DatasetMissing(dataset)] && ending == Exit(1)
    // a listing line with too few fields panics before any deletion
    ensures datasetExists && Enumerated(listing).Err? ==>
      calls == [] && log == Preamble(dryRunFlag, isRoot) && ending == Panicked(Enumerated(listing).error)
    // no snapshots: a benign exit without deletion
    ensures datasetExists && Enumerated(listing) == Ok([]) ==>
      calls == [] && log == Preamble(dryRunFlag, isRoot) + [NoSnapshots(dataset)] && ending == Exit(0)
    // nothing to prune: a benign exit without deletion
    ensures (datasetExists && Enumerated(listing).Ok? && Enumerated(listing).value != [] &&
             Plan(Enumerated(listing).value, policy) == []) ==>
      calls == [] && log == Preamble(dryRunFlag, isRoot) + [NothingToPrune(dataset)] && ending == Exit(0)
    // otherwise one request per pruned snapshot, in order, each reported
    ensures (datasetExists && Enumerated(listing).Ok? && Enumerated(listing).value != [] &&
             Plan(Enumerated(listing).value, policy) != []) ==>
      ending == Completed &&
      Deletes(Plan(Enumerated(listing).value, policy), dataset, Preamble(dryRunFlag, isRoot),
              Simulated(dryRunFlag, isRoot), destroy, calls, log)
  {
    calls, log := [], [];
    if !datasetExists {
      log := [DatasetMissing(dataset)];
      return calls, log, Exit(1);
    }

    var dryRun := dryRunFlag;
    if dryRun {
      log := log + [DryRunNotice];
    } else if !isRoot {
      log := log + [NotRootNotice];
      dryRun := true;
    }
    assert log == Preamble(dryRunFlag, isRoot) && dryRun == Simulated(dryRunFlag, isRoot);

    calls, log, ending := EnumerateAndPrune(dataset, policy, listing, dryRun, destroy, log);
  }

  /** The Run body from the enumeration on, after the lines `header` were
      logged: a malformed line panics, no snapshots ends the run, otherwise
      the retention policy decides what is destroyed. */
  method EnumerateAndPrune(dataset: string, policy: RetentionPolicy, listing: Option<string>, dryRun: bool,
                           destroy: (nat, DestroyCall) -> DestroyReply, header: seq<LogLine>)
    returns (calls: seq<DestroyCall>, log: seq<LogLine>, ending: Ending)
    ensures Enumerated(listing).Err? ==>
      calls == [] && log == header && ending == Panicked(Enumerated(listing).error)
    ensures Enumerated(listing) == Ok([]) ==>
      calls == [] && log == header + [NoSnapshots(dataset)] && ending == Exit(0)
    ensures (Enumerated(listing).Ok? && Enumerated(listing).value != [] &&
             Plan(Enumerated(listing).value, policy) == []) ==>
      calls == [] && log == header + [NothingToPrune(dataset)] && ending == Exit(0)
    ensures (Enumerated(listing).Ok? && Enumerated(listing).value != [] &&
             Plan(Enumerated(listing).value, policy) != []) ==>
      ending == Completed &&
      Deletes(Plan(Enumerated(listing).value, policy), dataset, header, dryRun, destroy, calls, log)
  {
    var enumerated := GetSnapshots(listing);
    if enumerated.Err? {
      return [], header, Panicked(enumerated.error);
    }
    var snapshots := enumerated.value;
    if |snapshots| == 0 {
      return [], header + [NoSnapshots(dataset)], Exit(0);
    }
    calls, log, ending := RetainAndPrune(dataset, policy, snapshots, dryRun, destroy, header);
  }

  /** The Run body from a non-empty enumeration on, after the lines `header`
      were logged: nothing to prune ends the run, otherwise every pruned
      snapshot is destroyed in turn. */
  method RetainAndPrune(dataset: string, policy: RetentionPolicy, snapshots: seq<Snapshot>, dryRun: bool,
                        destroy: (nat, DestroyCall) -> DestroyReply, header: seq<LogLine>)
    returns (calls: seq<DestroyCall>, log: seq<LogLine>, ending: Ending)
    ensures Plan(snapshots, policy) == [] ==>
      calls == [] && log == header + [NothingToPrune(dataset)] && ending == Exit(0)
    ensures Plan(snapshots, policy) != [] ==>
      ending == Completed && Deletes(Plan(snapshots, policy), dataset, header, dryRun, destroy, calls, log)
  {
    var keepSnapshots, pruneSnapshots := EvaluateRetention(snapshots, policy);
    if |pruneSnapshots| == 0 {
      return [], header + [NothingToPrune(dataset)], Exit(0);
    }
    var reports;
    calls, reports := DestroyEach(pruneSnapshots, dryRun, destroy);
    log := header + [Pruning(|pruneSnapshots|, dataset)];
    log := log + reports;
    ending := Completed;
  }

  /** The deletion loop of the Run body: one request per pruned snapshot, in
      order, each one reported, and a failed request does not stop the loop. */
  method DestroyEach(pruneSnapshots: seq<Snapshot>, dryRun: bool, destroy: (nat, DestroyCall) -> DestroyReply)
    returns (calls: seq<DestroyCall>, reports: seq<LogLine>)
    ensures |calls| == |pruneSnapshots| && |reports| == |pruneSnapshots|
    ensures forall i :: 0 <= i < |pruneSnapshots| ==> calls[i] == DestroyCall(pruneSnapshots[i].name, dryRun)
    ensures forall i :: 0 <= i < |pruneSnapshots| ==> reports[i] == Report(pruneSnapshots[i].name, destroy(i, calls[i]))
  {
    calls, reports := [], [];
    for i := 0 to |pruneSnapshots|
      invariant |calls| == i && |reports| == i
      invariant forall j :: 0 <= j < i ==> calls[j] == DestroyCall(pruneSnapshots[j].name, dryRun)
      invariant forall j :: 0 <= j < i ==> reports[j] == Report(pruneSnapshots[j].name, destroy(j, calls[j]))
    {
      var call := DestroyCall(pruneSnapshots[i].name, dryRun);
      var reply := destroy(i, call);
      calls := calls + [call];
      if reply.DestroyFailed? {
        reports := reports + [DeleteFailed(pruneSnapshots[i].name, reply.error)];
      } else {
        reports := reports + [DeleteOutput(reply.output)];
      }
    }
  }
}
