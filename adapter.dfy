/** The cluster control plane, reached through four `docker service` invocations: list the
    service names, read one service's replica count, set one service's replica count, and list
    every service with its replica summary. Each invocation may fail. The cluster is recorded
    as a trace of events, each holding the call made and the reply it got; what the cluster
    replies is an arbitrary function of the trace so far, so a property proved for every
    `Behaviour` holds whatever the cluster does. */
module Adapter {
  import opened Wrappers

  /** The errors the program reports, each wrapping the failed operation as its messages do. */
  datatype Error =
    | ListFailed                                  // "error getting running services"
    | InspectFailed                               // "error getting service scale"
    | StopFailed                                  // "error stopping service"
    | StartFailed                                 // "error starting service"
    | RestartFailed(service: string, cause: Error) // "error restarting service <s>: ..."

  /** One adapter call together with its reply (None: the invocation failed). */
  datatype Event =
    | Listed(names: Option<seq<string>>)
    | Inspected(service: string, scale: Option<string>)
    | Scaled(service: string, replicas: string, ok: bool)
    | ListedWithReplicas(listing: Option<string>)
  {
    predicate Failed() {
      match this
      case Listed(names) => names.None?
      case Inspected(_, scale) => scale.None?
      case Scaled(_, _, ok) => !ok
      case ListedWithReplicas(listing) => listing.None?
    }

    /** Only a set-scale call changes the cluster. */
    predicate IsMutation() {
      Scaled?
    }
  }

  /** How the cluster answers each kind of call, given every event before it. */
  datatype Behaviour = Behaviour(
    names: seq<Event> -> Option<seq<string>>,
    scale: (seq<Event>, string) -> Option<string>,
    scaled: (seq<Event>, string, string) -> bool,
    listing: seq<Event> -> Option<string>)

  /** A trace together with the error value a Go function returned at its end. */
  datatype Effect = Effect(trace: seq<Event>, outcome: Outcome<Error>)

  class Cluster {
    const behaviour: Behaviour
    var trace: seq<Event>

    constructor (b: Behaviour)
      ensures behaviour == b && trace == []
    {
      behaviour := b;
      trace := [];
    }

    /** `docker service ls --format {{.Name}}` (getDeployedServices). */
    method ListNames() returns (names: Option<seq<string>>)
      modifies this
      ensures names == behaviour.names(old(trace))
      ensures trace == old(trace) + [Listed(names)]
    {
      names := behaviour.names(trace);
      trace := trace + [Listed(names)];
    }

    /** `docker service inspect --format {{.Spec.Mode.Replicated.Replicas}} <s>` (getScale). */
    method GetScale(service: string) returns (scale: Option<string>)
      modifies this
      ensures scale == behaviour.scale(old(trace), service)
      ensures trace == old(trace) + [Inspected(service, scale)]
    {
      scale := behaviour.scale(trace, service);
      trace := trace + [Inspected(service, scale)];
    }

    /** `docker service scale <s>=<replicas>`. */
    method SetScale(service: string, replicas: string) returns (ok: bool)
      modifies this
      ensures ok == behaviour.scaled(old(trace), service, replicas)
      ensures trace == old(trace) + [Scaled(service, replicas, ok)]
    {
      ok := behaviour.scaled(trace, service, replicas);
      trace := trace + [Scaled(service, replicas, ok)];
    }

    /** `docker service ls --format "{{.Name}} {{.Replicas}}"` (the listing backed up). */
    method ListNamesAndReplicas() returns (listing: Option<string>)
      modifies this
      ensures listing == behaviour.listing(old(trace))
      ensures trace == old(trace) + [ListedWithReplicas(listing)]
    {
      listing := behaviour.listing(trace);
      trace := trace + [ListedWithReplicas(listing)];
    }
  }

  /** The events are all successful except possibly the last, and the outcome is a failure
      exactly when the last one failed: processing aborted at the first failing call. */
  predicate AbortsOnFirstFailure(events: seq<Event>, outcome: Outcome<Error>) {
    && (forall i :: 0 <= i < |events| - 1 ==> !events[i].Failed())
    && (outcome.Fail? <==> |events| > 0 && events[|events| - 1].Failed())
  }
}
