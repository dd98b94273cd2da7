# zfskeeper retention, modelled in Dafny

The `retention` command of zfskeeper deletes ZFS snapshots of a dataset that
no retention tier keeps. `cmd/retention.go` works in these steps:

1. It enumerates the dataset's snapshots from the output of
   `zfs list -Hp -o name,creation`.
2. It computes the keep list, tier by tier:
   - the intra-daily tier keeps every snapshot within N days of the newest;
   - the daily, weekly and monthly tiers keep the newest snapshot of each of
     the last N periods of 1, 7 and 30 days, counted back from the newest
     snapshot.
3. It sorts the keep list newest first and keeps one snapshot per name.
4. It prunes every enumerated snapshot whose name is not kept.
5. It issues one `zfs destroy` per pruned snapshot. The destroy is simulated
   with `-n` in dry-run mode or when the command does not run as root.

The model has six modules:

- `Snapshots` (`snapshot.dfy`): the snapshot record, Go's zero time, the
  zero-valued `Snapshot{}` sentinel, and the order and name predicates.
- `Selection` (`selection.dfy`): these functions of the source, each a
  method proved against a specification function:
  - `getLatestSnapshot`;
  - `getSnapshotsWithinWindow`;
  - `getIntraDailySnapshots`;
  - `findRetention`.
- `Dedup` (`dedup.dfy`): `sortAndRemoveDuplicates`. The sort works in place on
  an array and is specified as any permutation sorted newest first, as Go's
  `sort.Slice` promises. The deduplication keeps the first snapshot of each
  name.
- `Aggregate` (`aggregate.dfy`): the keep/prune partition of the command's
  body, and the properties of the whole policy.
- `ZfsList` (`zfslist.dfy`): the line-parsing loop of `getSnapshots`, with
  these Go library functions written out:
  - `strings.Split` on `"\n"`;
  - `strings.Fields`;
  - `strconv.ParseInt(s, 10, 64)`.
  It also proves a round trip from a well-formed listing back to its
  snapshots.
- `Driver` (`driver.dfy`): the control flow of the command's `Run` body. The
  dataset check, the listing and `zfs destroy` are inputs; destroy is an
  oracle that answers each numbered request.

Times are Unix seconds held in unbounded integers. A day is 86400 seconds.
Go's zero `time.Time` is -62135596800, which is 1 January of year 1 UTC.

## Model

| member | source | states |
|---|---|---|
| Selection.Latest | cmd/retention.go:102-110 | the newest snapshot is the zero-valued sentinel or an input snapshot; it is never earlier than the zero time and at least as new as every input |
| Selection.LatestIsFirstNewest | cmd/retention.go:103-109 | the result is the sentinel exactly when no input is later than the zero time; otherwise it is the first input, in order, with the greatest creation time |
| Selection.LatestInInput | cmd/retention.go:104-108 | when some input is later than the zero time, the result is an input snapshot later than the zero time |
| Selection.GetLatestSnapshot | cmd/retention.go:102-110 | the scan loop returns `Latest` of its input |
| Selection.InWindow | cmd/retention.go:116 | a snapshot in the window is never newer than the start bound; when the end bound is not before the start only the start instant itself passes |
| Selection.WindowMembers | cmd/retention.go:115-119 | a snapshot is in the window list iff it is an input and it is strictly between the bounds or exactly at the start |
| Selection.WindowBoundary | cmd/retention.go:116 | a snapshot exactly at the start bound is kept; one exactly at the end bound is dropped unless the bounds coincide |
| Selection.WindowAppend | cmd/retention.go:114-120 | the filter keeps input order: the window of a concatenation is the concatenation of the windows |
| Selection.WindowLength | cmd/retention.go:114-120 | the window list is never longer than its input |
| Selection.GetSnapshotsWithinWindow | cmd/retention.go:113-121 | the filter loop returns `Window` of its input |
| Selection.LatestOfWindow | cmd/retention.go:129-135 | when the newest input lies in a window, or there is none, the window has the same newest snapshot |
| Selection.GetIntraDailySnapshots | cmd/retention.go:124-137 | the method returns `IntraDaily` of its input |
| Selection.IntraDailyEmpty | cmd/retention.go:125-127 | zero days, or no input, keeps nothing |
| Selection.IntraDailyWithinDays | cmd/retention.go:128-135 | for N > 0 days a snapshot is kept iff it is an input created in (newest - N days, newest] |
| Selection.IntraDailyNegativeDays | cmd/retention.go:131-135 | for N < 0 days only the snapshots created at the newest instant are kept |
| Selection.IntraDailyKeepsLatest | cmd/retention.go:129-135 | for N other than zero the newest snapshot is kept |
| Selection.Retained | cmd/retention.go:141-158 | the periodic tier yields exactly P picks for P > 0, and none otherwise |
| Selection.FindRetention | cmd/retention.go:141-158 | the period loop returns `Retained` of its input |
| Selection.RetainedEntry | cmd/retention.go:152-157 | pick i is the sentinel or an input in period i, (newest - (i+1)·D days, newest - i·D days]; no input of that period is newer |
| Selection.RetainedEntryEmpty | cmd/retention.go:155-156 | pick i is the sentinel iff no input of period i is later than the zero time |
| Selection.PeriodInterval | cmd/retention.go:153-155 | for D > 0, period i is the half-open interval (anchor - (i+1)·D days, anchor - i·D days] |
| Selection.RetainedFirstIsLatest | cmd/retention.go:146-156 | the first pick is the newest snapshot |
| Selection.PeriodsTile | cmd/retention.go:152-155 | for D > 0 every instant at or before the anchor lies in exactly one period, the one numbered (anchor - t) div (D days) |
| Dedup.FirstByName | cmd/retention.go:59-67 | the first-occurrence filter yields distinct names, the same set of names as its input, and only input snapshots |
| Dedup.FirstByNameKeeps | cmd/retention.go:62-66 | a snapshot is kept iff it occurs at a position before which its name does not occur |
| Dedup.FirstByNameSorted | cmd/retention.go:59-67 | a list sorted newest first stays sorted |
| Dedup.FirstByNameOfDistinct | cmd/retention.go:59-67 | a list with distinct names is unchanged |
| Dedup.FirstByNameIdempotent | cmd/retention.go:53-70 | deduplicating twice equals deduplicating once |
| Dedup.SortByCreationDesc | cmd/retention.go:54-57 | the array ends sorted newest first and is a permutation of what it held |
| Dedup.SortAndRemoveDuplicates | cmd/retention.go:53-70 | the array is sorted in place as a permutation; the result is the first-occurrence filter of the sorted array, sorted, with distinct names, the same names as the input, and only input snapshots |
| Aggregate.CollectCandidates | cmd/retention.go:223-227 | the four tiers' outputs are concatenated in the order intra-daily, daily (1 day), weekly (7), monthly (30) |
| Aggregate.KeepNameMap | cmd/retention.go:232-236 | the keys of the map of kept names are exactly the names of the keep list |
| Aggregate.PruneUnkept | cmd/retention.go:238-243 | the loop returns the enumerated snapshots whose name is not kept, in order |
| Aggregate.EvaluateRetention | cmd/retention.go:223-243 | the keep list is sorted newest first with distinct names; its names are the tiers' names; it holds only enumerated snapshots or the sentinel; the prune list is `Plan` |
| Aggregate.PruneList | cmd/retention.go:239-243 | the prune list is no longer than the enumeration, and holds only enumerated snapshots whose name is not kept |
| Aggregate.PruneListMembers | cmd/retention.go:239-243 | a snapshot is pruned iff it was enumerated and its name is not kept |
| Aggregate.PruneListAppend | cmd/retention.go:239-243 | the prune filter keeps input order and distributes over concatenation |
| Aggregate.PartitionByName | cmd/retention.go:230-243 | pruned names and kept names are disjoint, and every enumerated name is kept or pruned |
| Aggregate.CandidatesFromInput | cmd/retention.go:223-227 | every keep candidate is an enumerated snapshot or the sentinel |
| Aggregate.RetainedFromInput | cmd/retention.go:152-157 | every periodic pick is an enumerated snapshot or the sentinel |
| Aggregate.SentinelNameHarmless | cmd/retention.go:233-243 | when no enumerated name is empty, the sentinel's empty name among the kept names does not change what is pruned |
| Aggregate.LatestIsCandidate | cmd/retention.go:223-227 | with any tier switched on and some snapshot later than the zero time, the newest snapshot is a keep candidate |
| Aggregate.LatestNeverPruned | cmd/retention.go:223-243 | with any tier switched on and some snapshot later than the zero time, the newest snapshot's name is kept and nothing of that name is pruned |
| Aggregate.NoTierPrunesAll | cmd/retention.go:223-243 | with every tier off nothing is kept and every enumerated snapshot is pruned |
| Aggregate.PruneAllOfEmpty | cmd/retention.go:239-243 | with no kept names the prune list is the whole input |
| Aggregate.ScenarioOneDayBoundary | cmd/retention.go:116 | with one intra-daily day, a snapshot exactly one day before the newest is pruned |
| Aggregate.ScenarioSecondsApart | cmd/retention.go:128-135 | with one intra-daily day, snapshots at 100, 90 and 10 s are all kept and nothing is pruned |
| Aggregate.ScenarioDuplicatePrunedTwice | cmd/retention.go:239-243 | a name enumerated twice and not kept is pruned twice |
| ZfsList.SplitLines | cmd/retention.go:81 | splitting on newline yields at least one piece, no piece holds a newline, and joining the pieces gives the text back |
| ZfsList.SplitAfterLine | cmd/retention.go:81 | splitting a line, a newline and the rest yields the line and then the split of the rest |
| ZfsList.SplitJoin | cmd/retention.go:81 | splitting the join of newline-free lines gives the lines back |
| ZfsList.SplitNoNewline | cmd/retention.go:81 | text without a newline splits into itself alone |
| ZfsList.WordLength | cmd/retention.go:87 | the length of the leading word is the index of the first white-space character, or the whole length |
| ZfsList.Fields | cmd/retention.go:87 | every field is a non-empty word free of white space |
| ZfsList.WordLengthOfWord | cmd/retention.go:87 | a word followed by white space or nothing is read whole |
| ZfsList.FieldsOfWord | cmd/retention.go:87 | a word, a white-space separator and a rest split into the word and the fields of the rest |
| ZfsList.FieldsOfLoneWord | cmd/retention.go:87 | a lone word is its own only field |
| ZfsList.ParseInt64 | cmd/retention.go:90 | a parsed value lies in the 64-bit signed range |
| ZfsList.ParseFormatInt | cmd/retention.go:90 | parsing the decimal text of a 64-bit integer gives it back |
| ZfsList.ParseLine | cmd/retention.go:84-94 | an empty line is skipped; a non-empty line panics iff it has fewer than two fields, reading the first missing field; a line read as a snapshot gives a name that is a word and a creation time in the 64-bit range |
| ZfsList.ParseLines | cmd/retention.go:83-96 | the loop reads at most one snapshot per line; a panic reads field 0 or 1 of a line that has exactly that many fields |
| ZfsList.ParseLinesPanicStops | cmd/retention.go:83-96 | once a line has panicked, later lines change nothing |
| ZfsList.ParseLinesAppend | cmd/retention.go:83-97 | parsing a concatenation of lines parses the first part, then continues with the second |
| ZfsList.GetSnapshots | cmd/retention.go:75-99 | the parse loop returns `Enumerated` of the output: an empty list when `zfs list` failed, the parsed snapshots, or the panic of a line with fewer than two fields |
| ZfsList.ParsedSnapshotsWellFormed | cmd/retention.go:87-95 | every snapshot read has a name that is a word and a creation time in the 64-bit range |
| ZfsList.ParseRecordLine | cmd/retention.go:84-95 | a line of the form name, tab, decimal time parses to that snapshot |
| ZfsList.SpacedNameSkipped | cmd/retention.go:87-94 | the line `p@a b\t5`, a name with a space followed by a word that is not a number, has three fields and is skipped |
| ZfsList.FieldsOfSpacedLine | cmd/retention.go:87 | a name holding one space, a tab and an epoch split into three fields: the two parts of the name and the epoch |
| ZfsList.SpacedNameMisread | cmd/retention.go:87-94 | for a name holding one space, the line is skipped when the word after the space is not a 64-bit decimal; otherwise it is read as a snapshot named by the part before the space, created at the instant that word denotes |
| ZfsList.SpacedNameNumeric | cmd/retention.go:87-94 | the line `p@a 7\t5` is read as the snapshot `p@a` created at 7 |
| ZfsList.SplitListing | cmd/retention.go:81 | a listing splits into its record lines followed by one empty line |
| ZfsList.ParseRecordLines | cmd/retention.go:83-97 | parsing record lines gives back their snapshots, in order |
| ZfsList.ListingRoundTrip | cmd/retention.go:75-99 | enumerating the listing of well-formed snapshots gives those snapshots back |
| Driver.Run | cmd/retention.go:197-261 | a missing dataset exits 1 before anything else; a malformed line panics before any deletion; no snapshots, or nothing to prune, exits 0 without deletion; otherwise `Deletes` holds for the plan: one destroy per pruned snapshot, in order, simulated in dry-run mode or when not root, with the count logged first and each answer logged |
| Driver.EnumerateAndPrune | cmd/retention.go:214-261 | after the preamble: the panic, no-snapshots and nothing-to-prune exits, or the deletion of the plan |
| Driver.RetainAndPrune | cmd/retention.go:223-261 | for enumerated snapshots: exit 0 with nothing to prune, or the deletion of exactly the plan |
| Driver.DestroyEach | cmd/retention.go:253-261 | one destroy request per pruned snapshot, in order; one report line per answer; a failed request does not stop the loop |

## Left out

- The logger: its creation and failure (lines 190-195) are left out, and the log is a list of structured lines rather than formatted text.
- `exec.Command`: the dataset check, `zfs list` and `zfs destroy` calls become inputs. `Driver.Run` takes whether the dataset exists and the listing output (`None` when the command failed). Destroy is an oracle from request number and call to answer. `pruneSnapshot` is modelled only as the call it makes, `DestroyCall(name, simulate)`.
- `os.Geteuid`: the root check is the `isRoot` input.
- `time.Sleep` between deletions is left out.
- `os.Exit` is modelled as the run's ending value.
- The cobra command, flag parsing and `init` are left out. `cmd/documentation.go` and `utils/logger.go` are not part of this model.
- Selection.IntraDailyWithinDays: `AddDate(0, 0, -N)` is taken as exactly N·86400 seconds. Across a daylight-saving change in a local time zone Go's calendar arithmetic can differ by an hour.
- Selection.FindRetention: the period bounds are exact. Go computes `i·24·D` hours as an int64 count of nanoseconds, which wraps once i·D exceeds about 106751 days; with the monthly tier the end bound of period 3558 and every later bound wrap.
- Selection.Latest: times are unbounded integers in whole seconds. Go's `time.Time` also has a nanosecond part, which `time.Unix(epoch, 0)` sets to zero.
- ZfsList.ParseInt64: an accepted epoch is kept as an unbounded integer. Go's `time.Unix(epoch, 0)` stores `epoch + 62135596800` seconds in an int64, so an epoch above 9223371974719179007 wraps to before year 1; Go then never picks it as the newest and every window treats it as the oldest snapshot, while the model treats it as the newest. `AddDate(0, 0, -N)` wraps in the same way once N passes about 1.07e14 days. Neither wrap is modelled.
- ZfsList.Fields: text is a sequence of Unicode code points. Go splits bytes and treats invalid UTF-8 as non-space runes; that is not modelled.
- Dedup.SortByCreationDesc: the order of snapshots with equal creation times after Go's `sort.Slice` is not determined. The model proves every property for any sorted permutation.

## Behaviour worth knowing

- One intra-daily day keeps snapshots created at 100, 90 and 10 s: the window is a whole day wide (`Aggregate.ScenarioSecondsApart`). Only a snapshot a full day or more older than the newest is pruned (`Aggregate.ScenarioOneDayBoundary`).
- The prune loop walks the enumerated records, not the names. A name enumerated twice and not kept is pruned, and destroyed, twice (`Aggregate.ScenarioDuplicatePrunedTwice`).
- A name holding a space splits its line into three fields, and the loop reads only the first two: the part of the name before the space and the word after it (`ZfsList.SpacedNameMisread`).
  - When that word is not a decimal number, the line is skipped and the snapshot is neither kept nor pruned (`ZfsList.SpacedNameSkipped`).
  - When it is a decimal number, the line is read as a snapshot with the shortened name, created at the instant the word denotes; the real creation time is ignored (`ZfsList.SpacedNameNumeric`). That record takes part in every tier. A large number makes it the newest snapshot, so every window is counted back from it. If it is pruned, `zfs destroy` is issued for the shortened name, which is another snapshot or none.
