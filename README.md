# swarm-service-control, modelled in Dafny

swarm-service-control is a command line tool for Docker Swarm services. It can restart or stop
the services named by comma-separated name fragments (or, with `-all`, every deployed service).
It can also back up the cluster's "name replicas" listing to `swarm-service-backup.txt` and later
restore it by scaling every listed service back to its replica count. All of it sits in `main.go`.

This project models the tool's reconciliation logic. The `docker service` command line becomes an
abstract cluster adapter (`Adapter.Cluster`) with four calls:

- list the service names;
- read one service's replica count;
- set one service's replica count;
- list every service with its replica summary.

Every call may fail. The cluster records each call, with its reply, in a trace of events. Its
replies are arbitrary functions of the trace so far (`Adapter.Behaviour`). So every property below
holds whatever the cluster answers, failures included.

The modules follow the program's parts:

- `Text`: the Go string functions the program uses, as functions over `string`:
  - `strings.ToLower` on ASCII letters, and `strings.Contains`;
  - `strings.Split` and `strings.Join` with a one-character separator;
  - `strings.SplitN(v, "/", 2)[0]` and `strings.Fields`.
- `Adapter`: the adapter as a class, its events and its errors.
- `Matcher`: `filterServices`, as a loop method proved against a specification function. The
  lemmas cover first match, dropped fragments, kept duplicates, the empty fragment and `-all`.
- `Lifecycle`: `stopServices`, `startServices` and `restartServices`.
  - Each is a loop method over the cluster, proved equal to a state-passing specification
    function.
  - Lemmas give each run's trace in closed form: the calls in input order, abort on the first
    failure, and capture of the scale before the stop.
  - Go's map order in `startServices` is unspecified. The model proves that a run follows some
    order of distinct keys, and covers every key when it succeeds.
- `BackupRestore`:
  - `backupServices` writes the listing's non-empty lines into a `BackupFile` object.
  - `restoreServices` parses those lines into the services map (a later line wins) and starts
    it. A line with fewer than two fields panics the Go program.
  - A round trip relates a cluster listing to the map restored from its backup.
- `Control`: `main` after flag parsing.
  - The action-flag check admits exactly one action.
  - Services are selected, with `-all` replacing `-services` by the joined deployed names.
  - The action then runs, and `Run` returns the process's exit code.

Two behaviours of `main.go` are easy to misread; the model follows the code:

- Exit codes. A failed listing during a backup and a missing backup file are only printed. A
  failed start during a restore is not even printed: main.go:157-159 builds an error value with
  `fmt.Errorf` and discards it. In all three cases the process still exits with code 0. A
  malformed backup line is a Go panic, which exits with code 2, not 1.
- `-all`. It does not simply act on the live list. The joined names are split and matched again,
  so a service whose lower-cased name occurs in an earlier-listed name is never selected. The
  earlier service is selected twice instead (`Matcher.AllSkipsContainedName`).

## Model

| member | source | states |
|---|---|---|
| `Text.Lower` | main.go:26 | the result has the input's length, no ASCII upper-case letter, and each character is the input's or its upper-case letter shifted to lower case |
| `Text.Contains` | main.go:26 | a string contains only strings no longer than itself |
| `Text.ContainsEmpty` | main.go:26 | the empty fragment occurs in every name |
| `Text.ContainsSelf` | main.go:26 | every name contains itself |
| `Text.Split` | main.go:192 | at least one piece, no piece holds the separator, and joining the pieces with the separator gives back the input |
| `Text.SplitWithoutSeparator` | main.go:192 | a string without the separator splits into itself alone |
| `Text.SplitAfterPiece` | main.go:129 | a separator-free first piece followed by the separator is split off exactly |
| `Text.Join` | main.go:190 | joining no parts gives the empty string, otherwise the result starts with the first part |
| `Text.SplitJoin` | main.go:190-192 | splitting the join of separator-free pieces gives the pieces back |
| `Text.ReplicaPrefix` | main.go:75-76 | the result is the longest prefix without '/': a prefix, '/'-free, and followed by '/' when shorter than the value |
| `Text.ReplicaPrefixIsFirstPiece` | main.go:75-76 | the prefix equals the first piece of splitting at '/' |
| `Text.ReplicaPrefixWithoutSlash` | main.go:75-76 | a value without '/' is used unchanged |
| `Text.ReplicaPrefixOfCompound` | main.go:75-76 | "running/desired" yields "running" |
| `Text.Fields` | main.go:153 | every field is a non-empty run of non-white-space characters; `Text.FieldsAppend` and `Text.FieldsOfSpaces` tie the fields to the whole line |
| `Text.WordPrefix` | main.go:153 | the first word of a line is not changed by text appended after white space |
| `Text.FieldsOfSpaces` | main.go:153 | a line of white space only has no fields |
| `Text.FieldsAppend` | main.go:153 | two pieces of a line split at white space have, together, the fields of the line, in order |
| `Text.FieldsOfPair` | main.go:153-154 | a name, white space and a replica value give exactly the fields name and replicas |
| `Text.FieldsJoin` | main.go:153 | splitting into fields undoes joining non-empty space-free fields with single spaces |
| `Adapter.Cluster.ListNames` | main.go:36-45 | the reply is the behaviour's answer for the trace so far, and exactly one list event is recorded |
| `Adapter.Cluster.GetScale` | main.go:48-56 | the reply is the behaviour's answer, and exactly one inspect event is recorded |
| `Adapter.Cluster.SetScale` | main.go:62-63 | the reply is the behaviour's answer, and exactly one set-scale event with the service and replicas is recorded |
| `Adapter.Cluster.ListNamesAndReplicas` | main.go:111-114 | the reply is the behaviour's answer, and exactly one listing event is recorded |
| `Matcher.Selects` | main.go:26 | a fragment selects only names at least as long as itself |
| `Matcher.Matches` | main.go:21-31 | every match is a deployed name, and there are no more matches than fragments |
| `Matcher.FirstMatch` | main.go:24-30 | the index found is the first deployed name selected by the fragment; none found means no name is selected |
| `Matcher.MatchServices` | main.go:21-31 | the nested loops with `break` compute the specified matches |
| `Matcher.FilterServices` | main.go:15-33 | one listing call; a failed listing gives the listing error and no matches, otherwise the matches against the listed names |
| `Matcher.MatchesAppend` | main.go:23-31 | the result is the per-fragment contributions in fragment order |
| `Matcher.MatchesSingle` | main.go:24-30 | a fragment contributes nothing exactly when no name is selected, otherwise exactly the first selected name |
| `Matcher.MatchesFull` | main.go:23-31 | one result per fragment exactly when every fragment selects a name |
| `Matcher.UnmatchedDropped` | main.go:23-31 | a fragment that selects nothing can be removed without changing the result, and raises no error |
| `Matcher.DuplicatesKept` | main.go:23-31 | two fragments selecting the same name yield it twice |
| `Matcher.EmptyFragmentSelectsFirst` | main.go:192 | the default empty `-services` selects the first deployed service |
| `Matcher.WebExample` | main.go:26 | "web" against web-frontend, web-backend, cache selects web-frontend |
| `Matcher.AllSelectsEveryService` | main.go:184-192 | with `-all`, comma-free names none of which occurs in an earlier one are all selected once, in listing order |
| `Matcher.AllSkipsContainedName` | main.go:184-192 | with `-all` over web-frontend and web, web is never selected and web-frontend is selected twice |
| `Lifecycle.Stop` | main.go:59-70 | the trace and error of the loop are those of the stop specification from the entry trace |
| `Lifecycle.Start` | main.go:73-86 | the run is the start specification for some order of distinct keys, and that order covers all keys when it succeeds |
| `Lifecycle.Restart` | main.go:89-107 | the trace and error of the loop are those of the restart specification from the entry trace |
| `Lifecycle.StopSpec` | main.go:60-66 | a stop run only appends to the trace, at most one call per service |
| `Lifecycle.StartSpec` | main.go:74-81 | a start run only appends to the trace, at most one call per key |
| `Lifecycle.RestartSpec` | main.go:90-103 | a restart run only appends to the trace, at most three calls per service |
| `Lifecycle.SingleKeyOrder` | main.go:101 | the only orders of the one-key map are empty or that key |
| `Lifecycle.StartSpecAppend` | main.go:74-84 | visiting one more key after a successful run adds exactly one set-scale call to its replica prefix |
| `Lifecycle.StopShape` | main.go:60-66 | "scale s=0" per service in input order, all successful but possibly the last; a failure ends the run with the stop error and nothing follows; success exactly when every service got a successful call |
| `Lifecycle.StartShape` | main.go:74-81 | one set-scale per visited key to the prefix of its value before '/', with the same abort-on-first-failure shape and the start error |
| `Lifecycle.StartEachKeyOnce` | main.go:74-85 | a successful start scales every key exactly once, to its replica prefix |
| `Lifecycle.RestartSucceeded` | main.go:90-106 | a successful restart is, per service in order: scale read, scale to 0, scale to the captured prefix, all successful |
| `Lifecycle.RestartStopsAtFailure` | main.go:90-103 | a failed restart is completed restarts of the first services, then the failed restart of the next with its wrapped error; a failed scale read issues no mutation, and later services get no call |
| `Lifecycle.RestartOneShape` | main.go:92-103 | restarting one service succeeds as a completed restart, or fails in one of its three steps |
| `Lifecycle.RestartOne` | main.go:92-103 | restart of one service is exactly: one scale read, then scale to 0, then scale to the captured prefix, stopping at the first failure |
| `Lifecycle.RestartSequential` | main.go:90-103 | restarting a list is restarting its first part and, only on success, the rest |
| `BackupRestore.NonEmpty` | main.go:129-134 | only the non-empty pieces are kept, each one present and none added |
| `BackupRestore.NonEmptyCounts` | main.go:129-134 | every non-empty piece is kept as often as it occurs, and only empty pieces are dropped |
| `BackupRestore.NonEmptyAppend` | main.go:129-134 | writing one more piece appends it exactly when it is non-empty |
| `BackupRestore.BackupLines` | main.go:129-134 | every line written is non-empty and holds no newline, and there are no more lines than pieces of the listing |
| `BackupRestore.NonEmptyKeepsAll` | main.go:129-134 | a listing without empty lines is written unchanged |
| `BackupRestore.SnapshotFrom` | main.go:151-155 | a panic is reported at the first line with fewer than two fields; success means every line has two fields, and keys are never lost |
| `BackupRestore.Snapshot` | main.go:148-155 | parsing succeeds exactly when every line has two fields; otherwise the panic is at the first line with fewer |
| `BackupRestore.ParseBackup` | main.go:150-155 | the scanning loop computes the specified map or panic line |
| `BackupRestore.Backup` | main.go:110-136 | one listing call; on failure the file is untouched, otherwise the file exists and holds exactly the listing's non-empty lines |
| `BackupRestore.Restore` | main.go:139-162 | no file: no call; a malformed line: a panic at that line and no call; otherwise the run is a start run of the parsed map in some order of distinct keys |
| `BackupRestore.SnapshotKeys` | main.go:151-155 | the restored map's keys are exactly the first fields of the lines |
| `BackupRestore.SnapshotLastWins` | main.go:154 | a name gets the second field of its last line |
| `BackupRestore.SnapshotUntouched` | main.go:154 | a name no line mentions keeps its value |
| `BackupRestore.BackupRestoreRoundTrip` | main.go:129-155 | restoring a backup of a listing of whitespace-free names and replicas gives each service its last listed replicas |
| `BackupRestore.ApiWorkerExample` | main.go:129-155 | "api 2/2" and "worker 0/3" restore to api 2/2 and worker 0/3, which start as 2 and 0 |
| `BackupRestore.ShortLinePanics` | main.go:153-154 | a line with fewer than two fields after well-formed lines panics on exactly that line |
| `Control.ActionChosen` | main.go:175-182 | the two checks admit exactly the flag sets with exactly one action |
| `Control.Select` | main.go:184-197 | the services are resolved as specified, with `-all` listing first |
| `Control.Run` | main.go:164-217 | no valid action: exit 1 and no call; listing failure: exit 1; restart and stop: their runs, exit 1 on error; backup: exit 0 with the file written; restore: exit 2 on a malformed line, otherwise exit 0 after a start run |
| `Control.SelectSpec` | main.go:184-197 | selection only lists names (once, twice with `-all`), fails exactly when a listing failed with the listing error, and returns only names of the last listing, no more of them than `-services` fragments |
| `Control.SelectAll` | main.go:184-192 | with `-all` and a stable listing of names none of which occurs in an earlier one, every service is selected |
| `Control.SelectDefault` | main.go:167 | without `-services` and `-all`, only the first deployed service is selected |

## Left out

- Text.Lower: lower-cases ASCII letters only. Go's `strings.ToLower` also maps other Unicode upper-case letters.
- Text.Fields: works over Unicode scalar values with Go's `unicode.IsSpace` set. Invalid UTF-8 in a backup line is not modelled.
- The docker command line (`exec.Command`, `CombinedOutput`) is replaced by the adapter. `getDeployedServices` trims and splits its output at newlines, and `getScale` trims its output. Both parsings are part of the adapter's reply, which may be any list or string. This includes the `[""]` of an empty listing.
- Error text is not modelled. `Adapter.Error` records which step failed and, for restart, which service. The wrapped docker message is not recorded.
- `fmt` output is not modelled: success messages, the printed `filteredServices` line and the printed errors.
- Backup file I/O is modelled as the file's presence and its lines. Not modelled:
  - failures of `os.Create` and of writes or close;
  - open failures other than a missing file;
  - the line scanner's 64 KiB token limit, which ends the scan silently;
  - its removal of a trailing carriage return. A trailing carriage return is white space to `Fields`, so the parsed map does not change.
- Flag parsing (`flag.Parse`, including its own exit on bad flags) is left out. `Control.Run` starts from the parsed flags.
- Lifecycle.Start: Go's randomized map iteration order is shown only as the existence of a suitable order of distinct keys. Which order a run takes is not modelled.
- The `fmt.Errorf` value built and discarded on a failed restore is left out. It is neither printed nor returned, and has no effect beyond the early return, which is modelled.
- A panic's stack trace is not modelled. Its exit code, 2, is modelled as `Control.Run`'s result.
