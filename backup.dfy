/** backupServices and restoreServices. A backup writes every non-empty line of the cluster's
    "<name> <replicas>" listing to the backup file; a restore reads the file back line by line,
    takes the first two whitespace-separated fields of each line as a service name and its
    replica value (a later line for the same name wins), and hands the resulting map to
    startServices. A line with fewer than two fields makes the Go program index out of range,
    which is a panic: the restore ends there and nothing is started. */
module BackupRestore {
  import opened Wrappers
  import opened Text
  import opened Adapter
  import opened Lifecycle

  /** The backup file "swarm-service-backup.txt", as the lines a line scanner reads from it. */
  class BackupFile {
    var present: bool
    var lines: seq<string>

    constructor (present: bool, lines: seq<string>)
      ensures this.present == present && this.lines == lines
    {
      this.present := present;
      this.lines := lines;
    }
  }

  /** The pieces that are not empty, in their order. */
  function NonEmpty(pieces: seq<string>): (r: seq<string>)
    ensures |r| <= |pieces|
    ensures forall x :: x in r <==> x in pieces && x != ""
    decreases |pieces|
  {
    if pieces == [] then []
    else
      var rest := NonEmpty(pieces[1..]);
      if pieces[0] == "" then rest else [pieces[0]] + rest
  }

  /** Every non-empty piece is kept as often as it occurs, and only the empty ones go. */
  lemma {:induction false} NonEmptyCounts(pieces: seq<string>)
    ensures multiset(NonEmpty(pieces)) == multiset(pieces)["" := 0]
    decreases |pieces|
  {
    if pieces != [] {
      NonEmptyCounts(pieces[1..]);
      assert pieces == [pieces[0]] + pieces[1..];
    }
  }

  /** The lines a backup writes for a listing (main.go lines 129-134). */
  function BackupLines(listing: string): (r: seq<string>)
    ensures forall l :: l in r ==> l != "" && '\n' !in l
    ensures |r| <= |Split(listing, '\n')|
  {
    NonEmpty(Split(listing, '\n'))
  }

  /** The map restore builds from `lines`, starting from `acc`, where `index` numbers the first
      line; Failure(i) is the panic on line i, the first with fewer than two fields. */
  function SnapshotFrom(acc: map<string, string>, lines: seq<string>, index: nat): (r: Result<map<string, string>, nat>)
    ensures r.Failure? ==>
      && index <= r.error < index + |lines|
      && |Fields(lines[r.error - index])| < 2
      && forall j :: 0 <= j < r.error - index ==> |Fields(lines[j])| >= 2
    ensures r.Success? ==> forall j :: 0 <= j < |lines| ==> |Fields(lines[j])| >= 2
    ensures r.Success? ==> acc.Keys <= r.value.Keys
    decreases |lines|
  {
    if lines == [] then Success(acc)
    else
      var f := Fields(lines[0]);
      if |f| < 2 then Failure(index)
      else
        var acc' := acc[f[0] := f[1]];
        assert acc.Keys <= acc'.Keys;
        var r := SnapshotFrom(acc', lines[1..], index + 1);
        assert forall j :: 0 <= j < |lines| - 1 ==> lines[1..][j] == lines[j + 1];
        r
  }

  /** The services map of restoreServices (main.go lines 148-155). */
  function Snapshot(lines: seq<string>): (r: Result<map<string, string>, nat>)
    ensures r.Success? <==> forall j :: 0 <= j < |lines| ==> |Fields(lines[j])| >= 2
    ensures r.Failure? ==>
      && r.error < |lines|
      && |Fields(lines[r.error])| < 2
      && forall j :: 0 <= j < r.error ==> |Fields(lines[j])| >= 2
  {
    SnapshotFrom(map[], lines, 0)
  }

  /** The scanning loop of restoreServices (main.go lines 150-155); it only computes. */
  method ParseBackup(lines: seq<string>) returns (r: Result<map<string, string>, nat>)
    ensures r == Snapshot(lines)
  {
    var services: map<string, string> := map[];
    for i := 0 to |lines|
      invariant Snapshot(lines) == SnapshotFrom(services, lines[i..], i)
    {
      assert lines[i..][0] == lines[i] && lines[i..][1..] == lines[i + 1..];
      var service := Fields(lines[i]);
      if |service| < 2 {
        return Failure(i);
      }
      services := services[service[0] := service[1]];
    }
    return Success(services);
  }

  /** backupServices (main.go lines 110-136). A failed listing leaves the file alone; otherwise
      the file is (re)created holding the listing's non-empty lines. */
  method Backup(cluster: Cluster, file: BackupFile) returns (r: Outcome<Error>)
    modifies cluster, file
    ensures cluster.trace == old(cluster.trace) + [ListedWithReplicas(cluster.behaviour.listing(old(cluster.trace)))]
    ensures cluster.behaviour.listing(old(cluster.trace)).None? ==>
      r == Fail(ListFailed) && unchanged(file)
    ensures cluster.behaviour.listing(old(cluster.trace)).Some? ==>
      r == Pass && file.present && file.lines == BackupLines(cluster.behaviour.listing(old(cluster.trace)).value)
  {
    var listing := cluster.ListNamesAndReplicas();
    if listing.None? {
      return Fail(ListFailed);
    }
    var pieces := Split(listing.value, '\n');
    file.present := true;
    file.lines := [];
    for i := 0 to |pieces|
      modifies file
      invariant file.present
      invariant file.lines == NonEmpty(pieces[..i])
    {
      NonEmptyAppend(pieces[..i], pieces[i]);
      assert pieces[..i + 1] == pieces[..i] + [pieces[i]];
      if pieces[i] != "" {
        file.lines := file.lines + [pieces[i]];
      }
    }
    assert pieces[..|pieces|] == pieces;
    return Pass;
  }

  /** What restoreServices ends with: no backup file (the open failed), a panic on a line, or
      the outcome of startServices on the map read. */
  datatype RestoreResult = NoBackup | Panicked(line: nat) | Started(outcome: Outcome<Error>)

  /** restoreServices (main.go lines 139-162). */
  method Restore(cluster: Cluster, file: BackupFile) returns (r: RestoreResult)
    modifies cluster
    ensures !file.present ==> r == NoBackup && cluster.trace == old(cluster.trace)
    ensures file.present && Snapshot(file.lines).Failure? ==>
      r == Panicked(Snapshot(file.lines).error) && cluster.trace == old(cluster.trace)
    ensures file.present && Snapshot(file.lines).Success? ==>
      var services := Snapshot(file.lines).value;
      r.Started? && exists order ::
        && Distinct(order)
        && (forall k :: k in order ==> k in services)
        && (r.outcome.Pass? ==> forall k :: k in services ==> k in order)
        && Effect(cluster.trace, r.outcome) == StartSpec(cluster.behaviour, old(cluster.trace), order, services)
  {
    if !file.present {
      return NoBackup;
    }
    var parsed := ParseBackup(file.lines);
    if parsed.Failure? {
      return Panicked(parsed.error);
    }
    var outcome := Start(cluster, parsed.value);
    return Started(outcome);
  }

  /** Dropping empty pieces commutes with appending one piece. */
  lemma {:induction false} NonEmptyAppend(pieces: seq<string>, x: string)
    ensures NonEmpty(pieces + [x]) == NonEmpty(pieces) + (if x == "" then [] else [x])
    decreases |pieces|
  {
    if pieces == [] {
      assert [] + [x] == [x];
      assert [x][1..] == [];
    } else {
      assert (pieces + [x])[0] == pieces[0];
      assert (pieces + [x])[1..] == pieces[1..] + [x];
      NonEmptyAppend(pieces[1..], x);
    }
  }

  /** Pieces that are all non-empty pass through unchanged. */
  lemma {:induction false} NonEmptyKeepsAll(pieces: seq<string>)
    requires forall p :: p in pieces ==> p != ""
    ensures NonEmpty(pieces) == pieces
    decreases |pieces|
  {
    if pieces != [] {
      assert pieces[0] in pieces;
      assert forall p :: p in pieces[1..] ==> p in pieces;
      NonEmptyKeepsAll(pieces[1..]);
    }
  }

  /** The restored map has the keys given and exactly the names of the lines. */
  lemma {:induction false} SnapshotKeys(acc: map<string, string>, lines: seq<string>, index: nat, k: string)
    requires SnapshotFrom(acc, lines, index).Success?
    ensures k in SnapshotFrom(acc, lines, index).value <==>
      k in acc || exists j :: 0 <= j < |lines| && Fields(lines[j])[0] == k
    decreases |lines|
  {
    if lines != [] {
      var f := Fields(lines[0]);
      SnapshotKeys(acc[f[0] := f[1]], lines[1..], index + 1, k);
      if exists j :: 0 <= j < |lines| && Fields(lines[j])[0] == k {
        var j :| 0 <= j < |lines| && Fields(lines[j])[0] == k;
        if j > 0 {
          assert lines[1..][j - 1] == lines[j];
        }
      }
      if exists j :: 0 <= j < |lines[1..]| && Fields(lines[1..][j])[0] == k {
        var j :| 0 <= j < |lines[1..]| && Fields(lines[1..][j])[0] == k;
        assert lines[j + 1] == lines[1..][j];
      }
    }
  }

  /** Last line wins: a line whose name no later line repeats fixes that service's value. */
  lemma {:induction false} SnapshotLastWins(acc: map<string, string>, lines: seq<string>, index: nat, j: nat)
    requires SnapshotFrom(acc, lines, index).Success?
    requires j < |lines|
    requires forall l :: j < l < |lines| ==> Fields(lines[l])[0] != Fields(lines[j])[0]
    ensures Fields(lines[j])[0] in SnapshotFrom(acc, lines, index).value
    ensures SnapshotFrom(acc, lines, index).value[Fields(lines[j])[0]] == Fields(lines[j])[1]
    decreases |lines|
  {
    var f := Fields(lines[0]);
    var acc' := acc[f[0] := f[1]];
    if j == 0 {
      SnapshotUntouched(acc', lines[1..], index + 1, f[0]);
    } else {
      forall l | j - 1 < l < |lines[1..]|
        ensures Fields(lines[1..][l])[0] != Fields(lines[1..][j - 1])[0]
      {
        assert lines[1..][l] == lines[l + 1];
      }
      SnapshotLastWins(acc', lines[1..], index + 1, j - 1);
    }
  }

  /** A name no line mentions keeps the value it had in `acc`. */
  lemma {:induction false} SnapshotUntouched(acc: map<string, string>, lines: seq<string>, index: nat, k: string)
    requires SnapshotFrom(acc, lines, index).Success?
    requires k in acc
    requires forall l :: 0 <= l < |lines| ==> Fields(lines[l])[0] != k
    ensures SnapshotFrom(acc, lines, index).value[k] == acc[k]
    decreases |lines|
  {
    if lines != [] {
      var f := Fields(lines[0]);
      forall l | 0 <= l < |lines[1..]|
        ensures Fields(lines[1..][l])[0] != k
      {
        assert lines[1..][l] == lines[l + 1];
      }
      SnapshotUntouched(acc[f[0] := f[1]], lines[1..], index + 1, k);
    }
  }

  /** One service as the cluster lists it: its name and its replica summary, such as "2/3". */
  datatype Entry = Entry(name: string, replicas: string)

  /** The cluster's listing for `entries`: one "<name> <replicas>" line each, every line ended
      by a newline. */
  function Listing(entries: seq<Entry>): string
    decreases |entries|
  {
    if entries == [] then ""
    else entries[0].name + " " + entries[0].replicas + "\n" + Listing(entries[1..])
  }

  /** `acc` updated with each entry in turn. */
  function EntriesMap(acc: map<string, string>, entries: seq<Entry>): map<string, string>
    decreases |entries|
  {
    if entries == [] then acc
    else EntriesMap(acc[entries[0].name := entries[0].replicas], entries[1..])
  }

  /** Backup then restore parsing round trip: for names and replica summaries without
      whitespace, the restored map gives each listed service its last listed summary. */
  lemma {:induction false} BackupRestoreRoundTrip(acc: map<string, string>, entries: seq<Entry>, index: nat)
    requires forall e :: e in entries ==> IsField(e.name) && IsField(e.replicas)
    ensures SnapshotFrom(acc, BackupLines(Listing(entries)), index) == Success(EntriesMap(acc, entries))
    decreases |entries|
  {
    if entries == [] {
      assert Split("", '\n') == [""];
      assert BackupLines("") == [];
    } else {
      var e := entries[0];
      var line := e.name + " " + e.replicas;
      var rest := Listing(entries[1..]);
      assert IsField(e.name) && IsField(e.replicas);
      assert Listing(entries) == line + ['\n'] + rest;
      assert '\n' !in line by {
        assert IsSpace('\n');
        assert forall i :: 0 <= i < |line| ==> line[i] in e.name || line[i] == ' ' || line[i] in e.replicas;
      }
      SplitAfterPiece(line, '\n', rest);
      assert line != "";
      assert BackupLines(Listing(entries)) == [line] + BackupLines(rest) by {
        var ps := [line] + Split(rest, '\n');
        assert ps[1..] == Split(rest, '\n');
      }
      assert Join([e.name, e.replicas], ' ') == line;
      FieldsJoin([e.name, e.replicas]);
      assert forall x :: x in entries[1..] ==> x in entries;
      BackupRestoreRoundTrip(acc[e.name := e.replicas], entries[1..], index + 1);
      assert ([line] + BackupLines(rest))[1..] == BackupLines(rest);
    }
  }

  /** A listing of two services, "api 2/2" and "worker 0/3", restores api to 2 and worker to 0
      replicas: the running count is what startServices sets. */
  lemma ApiWorkerExample(listing: string, expected: map<string, string>)
    requires listing == "api 2/2\nworker 0/3\n"
    requires expected == map["api" := "2/2", "worker" := "0/3"]
    ensures Snapshot(BackupLines(listing)) == Success(expected)
    ensures ReplicaPrefix(expected["api"]) == "2" && ReplicaPrefix(expected["worker"]) == "0"
  {
    var entries := [Entry("api", "2/2"), Entry("worker", "0/3")];
    ApiWorkerFields(entries);
    ApiWorkerListing(entries);
    ApiWorkerMap(entries);
    BackupRestoreRoundTrip(map[], entries, 0);
    ReplicaPrefixOfCompound("2", "2");
    ReplicaPrefixOfCompound("0", "3");
  }

  lemma ApiWorkerFields(entries: seq<Entry>)
    requires entries == [Entry("api", "2/2"), Entry("worker", "0/3")]
    ensures forall e :: e in entries ==> IsField(e.name) && IsField(e.replicas)
  {
    assert IsField("api") && IsField("2/2") && IsField("worker") && IsField("0/3");
  }

  lemma ApiWorkerListing(entries: seq<Entry>)
    requires entries == [Entry("api", "2/2"), Entry("worker", "0/3")]
    ensures Listing(entries) == "api 2/2\nworker 0/3\n"
  {
    var worker := entries[1];
    assert entries[1..] == [worker] && [worker][1..] == [];
    assert Listing([worker]) == "worker 0/3\n";
  }

  lemma ApiWorkerMap(entries: seq<Entry>)
    requires entries == [Entry("api", "2/2"), Entry("worker", "0/3")]
    ensures EntriesMap(map[], entries) == map["api" := "2/2", "worker" := "0/3"]
  {
    var api, worker := entries[0], entries[1];
    assert entries[1..] == [worker] && [worker][1..] == [];
    var first := map[][api.name := api.replicas];
    assert EntriesMap(map[], entries) == EntriesMap(first, [worker]);
    assert EntriesMap(first, [worker]) == EntriesMap(first[worker.name := worker.replicas], []);
  }

  /** A line holding a single field makes restore panic on that line, before anything starts. */
  lemma ShortLinePanics(good: seq<string>, bad: string, rest: seq<string>)
    requires forall j :: 0 <= j < |good| ==> |Fields(good[j])| >= 2
    requires |Fields(bad)| < 2
    ensures Snapshot(good + [bad] + rest) == Failure(|good|)
  {
    var lines := good + [bad] + rest;
    assert forall j :: 0 <= j < |good| ==> lines[j] == good[j];
    assert lines[|good|] == bad;
  }
}
