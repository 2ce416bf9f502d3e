/** stopServices, startServices and restartServices. Each walks its input and issues adapter
    calls one after another, returning the first error and issuing nothing after it. The
    functions StopSpec, StartSpec and RestartSpec give, for any cluster behaviour, the trace and
    outcome of a run started from a given trace; the methods are proved to produce exactly that,
    and the lemmas state the promised shape of those runs in closed form. */
module Lifecycle {
  import opened Wrappers
  import opened Text
  import opened Adapter

  /** stopServices from trace `h`: "scale s=0" per service, in order, until one fails. */
  function StopSpec(b: Behaviour, h: seq<Event>, services: seq<string>): (e: Effect)
    ensures h <= e.trace && |e.trace| <= |h| + |services|
    decreases |services|
  {
    if services == [] then Effect(h, Pass)
    else
      var ok := b.scaled(h, services[0], "0");
      var h' := h + [Scaled(services[0], "0", ok)];
      if !ok then Effect(h', Fail(StopFailed)) else StopSpec(b, h', services[1..])
  }

  /** startServices from trace `h`, visiting the keys of `services` in the given order: "scale
      name=<replicas up to the first '/'>" per key, until one fails. */
  function StartSpec(b: Behaviour, h: seq<Event>, order: seq<string>, services: map<string, string>): (e: Effect)
    requires forall k :: k in order ==> k in services
    ensures h <= e.trace && |e.trace| <= |h| + |order|
    decreases |order|
  {
    if order == [] then Effect(h, Pass)
    else
      var name := order[0];
      var replicas := ReplicaPrefix(services[name]);
      var ok := b.scaled(h, name, replicas);
      var h' := h + [Scaled(name, replicas, ok)];
      if !ok then Effect(h', Fail(StartFailed)) else StartSpec(b, h', order[1..], services)
  }

  /** restartServices from trace `h`: per service, read its scale, stop it, start it at the
      scale read; the first error, wrapped with the service's name, ends the run. */
  function RestartSpec(b: Behaviour, h: seq<Event>, services: seq<string>): (e: Effect)
    ensures h <= e.trace && |e.trace| <= |h| + 3 * |services|
    decreases |services|
  {
    if services == [] then Effect(h, Pass)
    else
      var s := services[0];
      var scale := b.scale(h, s);
      var h1 := h + [Inspected(s, scale)];
      if scale.None? then Effect(h1, Fail(RestartFailed(s, InspectFailed)))
      else
        var stopped := StopSpec(b, h1, [s]);
        if stopped.outcome.Fail? then Effect(stopped.trace, Fail(RestartFailed(s, stopped.outcome.error)))
        else
          var started := StartSpec(b, stopped.trace, [s], map[s := scale.value]);
          if started.outcome.Fail? then Effect(started.trace, Fail(RestartFailed(s, started.outcome.error)))
          else RestartSpec(b, started.trace, services[1..])
  }

  predicate Distinct(xs: seq<string>) {
    forall i, j :: 0 <= i < j < |xs| ==> xs[i] != xs[j]
  }

  /** stopServices (main.go lines 59-70). */
  method Stop(cluster: Cluster, services: seq<string>) returns (r: Outcome<Error>)
    modifies cluster
    ensures Effect(cluster.trace, r) == StopSpec(cluster.behaviour, old(cluster.trace), services)
  {
    for i := 0 to |services|
      invariant StopSpec(cluster.behaviour, old(cluster.trace), services)
             == StopSpec(cluster.behaviour, cluster.trace, services[i..])
    {
      assert services[i..][0] == services[i] && services[i..][1..] == services[i + 1..];
      var ok := cluster.SetScale(services[i], "0");
      if !ok {
        return Fail(StopFailed);
      }
    }
    return Pass;
  }

  /** startServices (main.go lines 73-86). Go visits a map in an unspecified order: the run is
      that of some order of distinct keys, the keys tried before it ended, covering every key
      when it succeeded. */
  method Start(cluster: Cluster, services: map<string, string>) returns (r: Outcome<Error>)
    modifies cluster
    ensures exists order ::
      && Distinct(order)
      && (forall k :: k in order ==> k in services)
      && (r.Pass? ==> forall k :: k in services ==> k in order)
      && Effect(cluster.trace, r) == StartSpec(cluster.behaviour, old(cluster.trace), order, services)
  {
    var remaining := services.Keys;
    ghost var order: seq<string> := [];
    while remaining != {}
      invariant remaining <= services.Keys
      invariant forall k :: k in order ==> k in services && k !in remaining
      invariant forall k :: k in services ==> k in remaining || k in order
      invariant Distinct(order)
      invariant StartSpec(cluster.behaviour, old(cluster.trace), order, services) == Effect(cluster.trace, Pass)
      decreases remaining
    {
      var name :| name in remaining;
      var replicas := ReplicaPrefix(services[name]);
      StartSpecAppend(cluster.behaviour, old(cluster.trace), order, services, name);
      var ok := cluster.SetScale(name, replicas);
      order := order + [name];
      remaining := remaining - {name};
      if !ok {
        return Fail(StartFailed);
      }
    }
    return Pass;
  }

  /** restartServices (main.go lines 89-107). */
  method Restart(cluster: Cluster, services: seq<string>) returns (r: Outcome<Error>)
    modifies cluster
    ensures Effect(cluster.trace, r) == RestartSpec(cluster.behaviour, old(cluster.trace), services)
  {
    for i := 0 to |services|
      invariant RestartSpec(cluster.behaviour, old(cluster.trace), services)
             == RestartSpec(cluster.behaviour, cluster.trace, services[i..])
    {
      var service := services[i];
      assert services[i..][0] == service && services[i..][1..] == services[i + 1..];
      var scale := cluster.GetScale(service);
      if scale.None? {
        return Fail(RestartFailed(service, InspectFailed));
      }
      var stopped := Stop(cluster, [service]);
      if stopped.Fail? {
        return Fail(RestartFailed(service, stopped.error));
      }
      ghost var before := cluster.trace;
      var single := map[service := scale.value];
      var started := Start(cluster, single);
      ghost var order :| && Distinct(order)
                         && (forall k :: k in order ==> k in single)
                         && (started.Pass? ==> forall k :: k in single ==> k in order)
                         && Effect(cluster.trace, started) == StartSpec(cluster.behaviour, before, order, single);
      SingleKeyOrder(order, service);
      if started.Fail? {
        return Fail(RestartFailed(service, started.error));
      }
    }
    return Pass;
  }

  /** An order of distinct keys drawn from {s} is empty or [s]. */
  lemma SingleKeyOrder(order: seq<string>, s: string)
    requires Distinct(order)
    requires forall k :: k in order ==> k == s
    ensures order == [] || order == [s]
  {
    if |order| > 1 {
      TwoDistinctKeys(order);
      assert false;
    }
    if |order| == 1 {
      assert order[0] in order;
    }
  }

  lemma TwoDistinctKeys(order: seq<string>)
    requires Distinct(order) && |order| > 1
    ensures order[0] in order && order[1] in order && order[0] != order[1]
  {
  }

  /** Visiting one more key after a successful run extends it by exactly one set-scale call. */
  lemma {:induction false} StartSpecAppend(b: Behaviour, h: seq<Event>, order: seq<string>,
                                           services: map<string, string>, name: string)
    requires forall k :: k in order ==> k in services
    requires name in services
    requires StartSpec(b, h, order, services).outcome.Pass?
    ensures var t := StartSpec(b, h, order, services).trace;
            var replicas := ReplicaPrefix(services[name]);
            var ok := b.scaled(t, name, replicas);
            StartSpec(b, h, order + [name], services)
              == Effect(t + [Scaled(name, replicas, ok)], if ok then Pass else Fail(StartFailed))
    decreases |order|
  {
    if order == [] {
      assert [] + [name] == [name];
    } else {
      var n := order[0];
      var replicas := ReplicaPrefix(services[n]);
      var h' := h + [Scaled(n, replicas, b.scaled(h, n, replicas))];
      assert (order + [name])[0] == n && (order + [name])[1..] == order[1..] + [name];
      StartSpecAppend(b, h', order[1..], services, name);
    }
  }

  /** The calls stopServices makes: "scale s=0" for the services in input order, all
      succeeding but possibly the last, which ends the run with the stop error; no call is made
      for any later service, and the run succeeds exactly when every service got its call. */
  predicate StopRun(added: seq<Event>, outcome: Outcome<Error>, services: seq<string>) {
    && |added| <= |services|
    && (forall i :: 0 <= i < |added| ==> added[i].Scaled? && added[i].service == services[i] && added[i].replicas == "0")
    && AbortsOnFirstFailure(added, outcome)
    && (outcome.Pass? <==> |added| == |services| && (forall i :: 0 <= i < |added| ==> added[i].ok))
    && (outcome.Fail? ==> outcome.error == StopFailed)
  }

  /** A successful call for the first service, followed by a run over the others, is a run over
      all of them. */
  lemma StopRunPrepend(ev: Event, rest: seq<Event>, outcome: Outcome<Error>, services: seq<string>)
    requires services != []
    requires ev == Scaled(services[0], "0", true)
    requires StopRun(rest, outcome, services[1..])
    ensures StopRun([ev] + rest, outcome, services)
  {
    var added := [ev] + rest;
    assert forall i :: 1 <= i < |added| ==> added[i] == rest[i - 1] && services[i] == services[1..][i - 1];
    if |rest| > 0 {
      assert added[|added| - 1] == rest[|rest| - 1];
    }
  }

  lemma {:induction false} StopShape(b: Behaviour, h: seq<Event>, services: seq<string>)
    ensures var e := StopSpec(b, h, services);
      h <= e.trace && StopRun(e.trace[|h|..], e.outcome, services)
    decreases |services|
  {
    if services != [] {
      var ok := b.scaled(h, services[0], "0");
      var ev := Scaled(services[0], "0", ok);
      var h' := h + [ev];
      if ok {
        StopShape(b, h', services[1..]);
        var e := StopSpec(b, h, services);
        assert e == StopSpec(b, h', services[1..]);
        var rest := e.trace[|h'|..];
        assert e.trace[|h|..] == [ev] + rest;
        StopRunPrepend(ev, rest, e.outcome, services);
      } else {
        assert h'[|h|..] == [ev];
      }
    }
  }

  /** The calls startServices makes for a visiting order: one "scale name=<prefix>" per key in
      that order, where <prefix> is the key's value up to its first '/'; all succeed but
      possibly the last, which ends the run with the start error. */
  predicate StartRun(added: seq<Event>, outcome: Outcome<Error>, order: seq<string>, services: map<string, string>)
    requires forall k :: k in order ==> k in services
  {
    && |added| <= |order|
    && (forall i :: 0 <= i < |added| ==>
          && added[i].Scaled? && added[i].service == order[i]
          && added[i].replicas == ReplicaPrefix(services[order[i]]))
    && AbortsOnFirstFailure(added, outcome)
    && (outcome.Pass? <==> |added| == |order| && (forall i :: 0 <= i < |added| ==> added[i].ok))
    && (outcome.Fail? ==> outcome.error == StartFailed)
  }

  /** A successful call for the first key, followed by a run over the other keys, is a run over
      all of them. */
  lemma StartRunPrepend(ev: Event, rest: seq<Event>, outcome: Outcome<Error>, order: seq<string>,
                        services: map<string, string>)
    requires order != [] && forall k :: k in order ==> k in services
    requires ev == Scaled(order[0], ReplicaPrefix(services[order[0]]), true)
    requires StartRun(rest, outcome, order[1..], services)
    ensures StartRun([ev] + rest, outcome, order, services)
  {
    var added := [ev] + rest;
    assert forall i :: 1 <= i < |added| ==> added[i] == rest[i - 1] && order[i] == order[1..][i - 1];
    if |rest| > 0 {
      assert added[|added| - 1] == rest[|rest| - 1];
    }
  }

  lemma {:induction false} StartShape(b: Behaviour, h: seq<Event>, order: seq<string>,
                                      services: map<string, string>)
    requires forall k :: k in order ==> k in services
    ensures var e := StartSpec(b, h, order, services);
      h <= e.trace && StartRun(e.trace[|h|..], e.outcome, order, services)
    decreases |order|
  {
    if order != [] {
      var n := order[0];
      var replicas := ReplicaPrefix(services[n]);
      var ok := b.scaled(h, n, replicas);
      var ev := Scaled(n, replicas, ok);
      var h' := h + [ev];
      if ok {
        StartShape(b, h', order[1..], services);
        var e := StartSpec(b, h, order, services);
        assert e == StartSpec(b, h', order[1..], services);
        var rest := e.trace[|h'|..];
        assert e.trace[|h|..] == [ev] + rest;
        StartRunPrepend(ev, rest, e.outcome, order, services);
      } else {
        assert h'[|h|..] == [ev];
      }
    }
  }

  /** A successful startServices run scales every key of the map exactly once, to the prefix of
      its value before the first '/'. */
  lemma StartEachKeyOnce(b: Behaviour, h: seq<Event>, order: seq<string>,
                         services: map<string, string>, k: string)
    requires Distinct(order)
    requires forall key :: key in order ==> key in services
    requires forall key :: key in services ==> key in order
    requires StartSpec(b, h, order, services).outcome.Pass?
    requires k in services
    ensures var added := StartSpec(b, h, order, services).trace[|h|..];
      exists i :: && 0 <= i < |added|
                  && added[i] == Scaled(k, ReplicaPrefix(services[k]), true)
                  && forall j :: 0 <= j < |added| && j != i ==> !(added[j].Scaled? && added[j].service == k)
  {
    StartShape(b, h, order, services);
    var added := StartSpec(b, h, order, services).trace[|h|..];
    assert StartRun(added, StartSpec(b, h, order, services).outcome, order, services);
    var i :| 0 <= i < |order| && order[i] == k;
    assert added[i].Scaled? && added[i].ok;
    assert added[i] == Scaled(k, ReplicaPrefix(services[k]), true);
  }

  /** A completed restart of service `s`: its scale was read, then it was scaled to 0, then to
      the read scale up to its first '/', all successfully. */
  predicate Restarted(s: string, block: seq<Event>) {
    && |block| == 3
    && block[0].Inspected? && block[0].service == s && block[0].scale.Some?
    && block[1] == Scaled(s, "0", true)
    && block[2] == Scaled(s, ReplicaPrefix(block[0].scale.value), true)
  }

  /** The events are one completed restart per service, in order. */
  predicate AllRestarted(services: seq<string>, events: seq<Event>)
    decreases |services|
  {
    if services == [] then events == []
    else |events| >= 3 && Restarted(services[0], events[..3]) && AllRestarted(services[1..], events[3..])
  }

  /** A restart of `s` that failed, with the error it returns: the scale read failed (no
      mutation at all), or scaling to 0 failed, or scaling back to the read scale failed. */
  predicate RestartFailedWith(s: string, tail: seq<Event>, error: Error) {
    || (tail == [Inspected(s, None)] && error == RestartFailed(s, InspectFailed))
    || (&& |tail| == 2 && tail[0].Inspected? && tail[0].service == s && tail[0].scale.Some?
        && tail[1] == Scaled(s, "0", false) && error == RestartFailed(s, StopFailed))
    || (&& |tail| == 3 && tail[0].Inspected? && tail[0].service == s && tail[0].scale.Some?
        && tail[1] == Scaled(s, "0", true)
        && tail[2] == Scaled(s, ReplicaPrefix(tail[0].scale.value), false)
        && error == RestartFailed(s, StartFailed))
  }

  /** A successful run of restartServices is one completed restart per service, in order. */
  lemma {:induction false} RestartSucceeded(b: Behaviour, h: seq<Event>, services: seq<string>)
    requires RestartSpec(b, h, services).outcome.Pass?
    ensures AllRestarted(services, RestartSpec(b, h, services).trace[|h|..])
    decreases |services|
  {
    var e := RestartSpec(b, h, services);
    if services == [] {
      assert e.trace[|h|..] == [];
    } else {
      var s := services[0];
      var rest := services[1..];
      assert services == [s] + rest;
      RestartSequential(b, h, [s], rest);
      var e1 := RestartSpec(b, h, [s]);
      assert e1.outcome.Pass? && e == RestartSpec(b, e1.trace, rest);
      RestartOneShape(b, h, s);
      RestartSucceeded(b, e1.trace, rest);
      TraceSplit(h, e1.trace, e.trace);
    }
  }

  /** A trace that extends `t1`, itself an extension of `h`, adds the events `t1` added followed
      by its own. */
  lemma TraceSplit(h: seq<Event>, t1: seq<Event>, t2: seq<Event>)
    requires h <= t1 <= t2
    ensures t2[|h|..][..|t1| - |h|] == t1[|h|..]
    ensures t2[|h|..][|t1| - |h|..] == t2[|t1|..]
  {
  }

  /** The events are completed restarts of the first services, in order, followed by a failed
      restart of the next one with the given error; nothing is issued for any later service. */
  predicate FailedRun(services: seq<string>, events: seq<Event>, error: Error)
    decreases |services|
  {
    && |services| > 0
    && (|| RestartFailedWith(services[0], events, error)
        || (&& |events| >= 3 && Restarted(services[0], events[..3])
            && FailedRun(services[1..], events[3..], error)))
  }

  /** A failed run of restartServices stops at the first service whose restart failed. */
  lemma {:induction false} RestartStopsAtFailure(b: Behaviour, h: seq<Event>, services: seq<string>)
    requires RestartSpec(b, h, services).outcome.Fail?
    ensures var e := RestartSpec(b, h, services);
      FailedRun(services, e.trace[|h|..], e.outcome.error)
    decreases |services|
  {
    var e := RestartSpec(b, h, services);
    var s := services[0];
    var rest := services[1..];
    assert services == [s] + rest;
    RestartSequential(b, h, [s], rest);
    var e1 := RestartSpec(b, h, [s]);
    RestartOneShape(b, h, s);
    if e1.outcome.Pass? {
      assert e == RestartSpec(b, e1.trace, rest);
      RestartStopsAtFailure(b, e1.trace, rest);
      TraceSplit(h, e1.trace, e.trace);
    }
  }

  /** The restart of one service, read off its closed form. */
  lemma RestartOneShape(b: Behaviour, h: seq<Event>, s: string)
    ensures var e := RestartSpec(b, h, [s]);
      && (e.outcome.Pass? ==> Restarted(s, e.trace[|h|..]))
      && (e.outcome.Fail? ==> RestartFailedWith(s, e.trace[|h|..], e.outcome.error))
  {
    RestartOne(b, h, s);
    var e := RestartSpec(b, h, [s]);
    var scale := b.scale(h, s);
    var h1 := h + [Inspected(s, scale)];
    if scale.None? {
      assert e.trace[|h|..] == [Inspected(s, scale)];
    } else {
      var ok1 := b.scaled(h1, s, "0");
      var h2 := h1 + [Scaled(s, "0", ok1)];
      if !ok1 {
        assert e.trace[|h|..] == [Inspected(s, scale), Scaled(s, "0", false)];
      } else {
        var replicas := ReplicaPrefix(scale.value);
        var ok2 := b.scaled(h2, s, replicas);
        assert e.trace[|h|..] == [Inspected(s, scale), Scaled(s, "0", true), Scaled(s, replicas, ok2)];
      }
    }
  }

  /** restart([s]) issues exactly: one scale read of s, then s=0, then s=<read scale up to its
      first '/'>, stopping at the first call that fails. */
  lemma RestartOne(b: Behaviour, h: seq<Event>, s: string)
    ensures var scale := b.scale(h, s);
      var h1 := h + [Inspected(s, scale)];
      var e := RestartSpec(b, h, [s]);
      if scale.None? then e == Effect(h1, Fail(RestartFailed(s, InspectFailed)))
      else
        var ok1 := b.scaled(h1, s, "0");
        var h2 := h1 + [Scaled(s, "0", ok1)];
        if !ok1 then e == Effect(h2, Fail(RestartFailed(s, StopFailed)))
        else
          var replicas := ReplicaPrefix(scale.value);
          var ok2 := b.scaled(h2, s, replicas);
          e == Effect(h2 + [Scaled(s, replicas, ok2)],
                      if ok2 then Pass else Fail(RestartFailed(s, StartFailed)))
  {
    var scale := b.scale(h, s);
    if scale.Some? {
      var h1 := h + [Inspected(s, scale)];
      var ok1 := b.scaled(h1, s, "0");
      var h2 := h1 + [Scaled(s, "0", ok1)];
      assert StopSpec(b, h1, [s]) == Effect(h2, if ok1 then Pass else Fail(StopFailed));
      var replicas := ReplicaPrefix(scale.value);
      var ok2 := b.scaled(h2, s, replicas);
      assert StartSpec(b, h2, [s], map[s := scale.value])
          == Effect(h2 + [Scaled(s, replicas, ok2)], if ok2 then Pass else Fail(StartFailed));
    }
  }

  /** Restarting a list is restarting its first part and, only if that succeeded, the rest
      from the trace it left. */
  lemma {:induction false} RestartSequential(b: Behaviour, h: seq<Event>, first: seq<string>, rest: seq<string>)
    ensures RestartSpec(b, h, first + rest)
         == (var e := RestartSpec(b, h, first);
             if e.outcome.Fail? then e else RestartSpec(b, e.trace, rest))
    decreases |first|
  {
    if first == [] {
      assert first + rest == rest;
    } else {
      var s := first[0];
      assert (first + rest)[0] == s && (first + rest)[1..] == first[1..] + rest;
      var scale := b.scale(h, s);
      if scale.Some? {
        var h1 := h + [Inspected(s, scale)];
        var stopped := StopSpec(b, h1, [s]);
        if stopped.outcome.Pass? {
          var started := StartSpec(b, stopped.trace, [s], map[s := scale.value]);
          if started.outcome.Pass? {
            RestartSequential(b, started.trace, first[1..], rest);
          }
        }
      }
    }
  }
}
