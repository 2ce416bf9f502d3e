/** The command line program: exactly one of the actions restart, stop, backup and restore must be
    chosen; the services to act on are resolved (the comma-separated `-services` fragments, or
    with `-all` every deployed service), then the action runs. The result is the process's exit
    code: 1 for a bad action choice, a failed listing, or a failed restart or stop; 2 for the
    panic of a restore reading a malformed backup line; 0 otherwise, including a backup or
    restore that only printed its error. */
module Control {
  import opened Wrappers
  import opened Text
  import opened Adapter
  import opened Matcher
  import opened Lifecycle
  import opened BackupRestore

  /** The parsed command line flags. */
  datatype Flags = Flags(services: string, restart: bool, stop: bool, backup: bool, restore: bool, all: bool)

  function Bit(b: bool): nat {
    if b then 1 else 0
  }

  /** How many of the four actions are chosen. */
  function ActionCount(f: Flags): nat {
    Bit(f.restart) + Bit(f.stop) + Bit(f.backup) + Bit(f.restore)
  }

  /** The two checks of main.go lines 175-182: some action, and no two actions, are chosen;
      together they admit exactly one action. */
  function ActionChosen(f: Flags): (r: bool)
    ensures r <==> ActionCount(f) == 1
  {
    var none := !f.restart && !f.stop && !f.backup && !f.restore;
    var several := (f.restart && f.stop) || (f.restart && f.backup) || (f.restart && f.restore)
                || (f.stop && f.backup) || (f.stop && f.restore) || (f.backup && f.restore);
    !none && !several
  }

  /** The trace left by resolving the services, and the services or the listing error. */
  datatype Selection = Selection(trace: seq<Event>, result: Result<seq<string>, Error>)

  /** filterServices from trace `h`. */
  function FilterSpec(b: Behaviour, h: seq<Event>, requested: seq<string>): Selection {
    var names := b.names(h);
    Selection(h + [Listed(names)],
              if names.None? then Failure(ListFailed) else Success(Matches(requested, names.value)))
  }

  /** main.go lines 184-197 from trace `h`: with `-all` the deployed names, joined with ',',
      replace `-services`; the string is split at ',' and filtered. Resolving the services
      changes nothing in the cluster: it only lists names, once, or twice with `-all`. It fails
      exactly when a listing failed, and otherwise returns names of the last listing, no more
      of them than fragments. */
  function SelectSpec(b: Behaviour, h: seq<Event>, f: Flags): (s: Selection)
    ensures h <= s.trace
    ensures |s.trace| == |h| + (if f.all && b.names(h).Some? then 2 else 1)
    ensures forall i :: |h| <= i < |s.trace| ==> s.trace[i].Listed?
    ensures s.result.Failure? <==> s.trace[|s.trace| - 1].Failed()
    ensures s.result.Failure? ==> s.result.error == ListFailed
    ensures s.result.Success? ==>
      var deployed := s.trace[|s.trace| - 1].names.value;
      forall x :: x in s.result.value ==> x in deployed
    ensures !f.all && s.result.Success? ==> |s.result.value| <= |Split(f.services, ',')|
  {
    if f.all then
      var names := b.names(h);
      var h1 := h + [Listed(names)];
      if names.None? then Selection(h1, Failure(ListFailed))
      else FilterSpec(b, h1, Split(Join(names.value, ','), ','))
    else FilterSpec(b, h, Split(f.services, ','))
  }

  /** main.go lines 184-197. */
  method Select(cluster: Cluster, f: Flags) returns (r: Result<seq<string>, Error>)
    modifies cluster
    ensures Selection(cluster.trace, r) == SelectSpec(cluster.behaviour, old(cluster.trace), f)
  {
    var services := f.services;
    if f.all {
      var running := cluster.ListNames();
      if running.None? {
        return Failure(ListFailed);
      }
      services := Join(running.value, ',');
    }
    r := FilterServices(cluster, Split(services, ','));
  }

  /** main (main.go lines 164-217), after flag parsing. */
  method Run(cluster: Cluster, file: BackupFile, f: Flags) returns (code: nat)
    modifies cluster, file
    ensures !ActionChosen(f) ==> code == 1 && cluster.trace == old(cluster.trace) && unchanged(file)
    ensures ActionChosen(f) && SelectSpec(cluster.behaviour, old(cluster.trace), f).result.Failure? ==>
      code == 1 && cluster.trace == SelectSpec(cluster.behaviour, old(cluster.trace), f).trace && unchanged(file)
    ensures ActionChosen(f) && f.restart && SelectSpec(cluster.behaviour, old(cluster.trace), f).result.Success? ==>
      var s := SelectSpec(cluster.behaviour, old(cluster.trace), f);
      var e := RestartSpec(cluster.behaviour, s.trace, s.result.value);
      cluster.trace == e.trace && code == (if e.outcome.Pass? then 0 else 1) && unchanged(file)
    ensures ActionChosen(f) && f.stop && SelectSpec(cluster.behaviour, old(cluster.trace), f).result.Success? ==>
      var s := SelectSpec(cluster.behaviour, old(cluster.trace), f);
      var e := StopSpec(cluster.behaviour, s.trace, s.result.value);
      cluster.trace == e.trace && code == (if e.outcome.Pass? then 0 else 1) && unchanged(file)
    ensures ActionChosen(f) && f.backup && SelectSpec(cluster.behaviour, old(cluster.trace), f).result.Success? ==>
      var s := SelectSpec(cluster.behaviour, old(cluster.trace), f);
      var listing := cluster.behaviour.listing(s.trace);
      && code == 0
      && cluster.trace == s.trace + [ListedWithReplicas(listing)]
      && (listing.None? ==> unchanged(file))
      && (listing.Some? ==> file.present && file.lines == BackupLines(listing.value))
    ensures ActionChosen(f) && f.restore && SelectSpec(cluster.behaviour, old(cluster.trace), f).result.Success? ==>
      var s := SelectSpec(cluster.behaviour, old(cluster.trace), f);
      && unchanged(file)
      && (!file.present ==> code == 0 && cluster.trace == s.trace)
      && (file.present && Snapshot(file.lines).Failure? ==> code == 2 && cluster.trace == s.trace)
      && (file.present && Snapshot(file.lines).Success? ==>
            var services := Snapshot(file.lines).value;
            code == 0 && exists order ::
              && Distinct(order)
              && (forall k :: k in order ==> k in services)
              && (StartSpec(cluster.behaviour, s.trace, order, services).outcome.Pass? ==>
                    forall k :: k in services ==> k in order)
              && cluster.trace == StartSpec(cluster.behaviour, s.trace, order, services).trace)
  {
    if !ActionChosen(f) {
      return 1;
    }
    var selected := Select(cluster, f);
    if selected.Failure? {
      return 1;
    }
    if f.restart {
      var outcome := Restart(cluster, selected.value);
      if outcome.Fail? {
        return 1;
      }
    }
    if f.stop {
      var outcome := Stop(cluster, selected.value);
      if outcome.Fail? {
        return 1;
      }
    }
    if f.backup {
      var _ := Backup(cluster, file);
    }
    if f.restore {
      ghost var before := cluster.trace;
      var result := Restore(cluster, file);
      if result.Panicked? {
        return 2;
      }
      if result.Started? {
        ghost var services := Snapshot(file.lines).value;
        ghost var order :| && Distinct(order)
                           && (forall k :: k in order ==> k in services)
                           && (result.outcome.Pass? ==> forall k :: k in services ==> k in order)
                           && Effect(cluster.trace, result.outcome) == StartSpec(cluster.behaviour, before, order, services);
      }
    }
    return 0;
  }

  /** With `-all`, if both listings return the same names, no name holds ',' and no name's
      lower-cased form occurs in an earlier name's, every deployed service is selected once, in
      listing order. */
  lemma SelectAll(b: Behaviour, h: seq<Event>, f: Flags, deployed: seq<string>)
    requires f.all
    requires |deployed| > 0
    requires b.names(h) == Some(deployed)
    requires b.names(h + [Listed(Some(deployed))]) == Some(deployed)
    requires forall n :: n in deployed ==> ',' !in n
    requires forall i, j :: 0 <= j < i < |deployed| ==> !Selects(deployed[j], deployed[i])
    ensures SelectSpec(b, h, f).result == Success(deployed)
  {
    AllSelectsEveryService(deployed);
  }

  /** Without `-services` and `-all`, the empty fragment selects the first deployed service:
      `-stop` alone stops it. */
  lemma SelectDefault(b: Behaviour, h: seq<Event>, f: Flags, deployed: seq<string>)
    requires !f.all && f.services == ""
    requires b.names(h) == Some(deployed) && |deployed| > 0
    ensures SelectSpec(b, h, f).result == Success([deployed[0]])
  {
    EmptyFragmentSelectsFirst(deployed);
  }
}
