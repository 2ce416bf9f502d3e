/** filterServices: resolves the requested name fragments against the deployed services. Each
    fragment selects the first deployed name whose lower-cased form contains the fragment's
    lower-cased form; a fragment that selects nothing is dropped without an error, and two
    fragments selecting the same name put it in the result twice. */
module Matcher {
  import opened Wrappers
  import opened Text
  import opened Adapter

  /** The test on main.go line 26. */
  predicate Selects(name: string, fragment: string)
    ensures Selects(name, fragment) ==> |fragment| <= |name|
  {
    Contains(Lower(name), Lower(fragment))
  }

  /** The index of the first deployed name the fragment selects, if any. */
  function FirstMatch(fragment: string, deployed: seq<string>): (r: Option<nat>)
    ensures r.Some? ==> r.value < |deployed| && Selects(deployed[r.value], fragment)
    ensures r.Some? ==> forall k :: 0 <= k < r.value ==> !Selects(deployed[k], fragment)
    ensures r.None? ==> forall k :: 0 <= k < |deployed| ==> !Selects(deployed[k], fragment)
  {
    if deployed == [] then None
    else if Selects(deployed[0], fragment) then Some(0)
    else
      match FirstMatch(fragment, deployed[1..])
      case None => None
      case Some(i) => Some(i + 1)
  }

  /** What one fragment contributes to the result. */
  function MatchOne(fragment: string, deployed: seq<string>): seq<string> {
    match FirstMatch(fragment, deployed)
    case None => []
    case Some(i) => [deployed[i]]
  }

  /** The result of filterServices once the deployed list is known: deployed names only, and
      no more of them than fragments. */
  function Matches(requested: seq<string>, deployed: seq<string>): (r: seq<string>)
    ensures |r| <= |requested|
    ensures forall x :: x in r ==> x in deployed
    decreases |requested|
  {
    if requested == [] then []
    else
      var n := |requested| - 1;
      Matches(requested[..n], deployed) + MatchOne(requested[n], deployed)
  }

  /** The nested loops of filterServices (main.go lines 21-32). */
  method MatchServices(requested: seq<string>, deployed: seq<string>) returns (matched: seq<string>)
    ensures matched == Matches(requested, deployed)
  {
    matched := [];
    for i := 0 to |requested|
      invariant matched == Matches(requested[..i], deployed)
    {
      var fragment := requested[i];
      assert requested[..i + 1][..i] == requested[..i];
      var j := 0;
      while j < |deployed|
        invariant 0 <= j <= |deployed|
        invariant forall k :: 0 <= k < j ==> !Selects(deployed[k], fragment)
        invariant matched == Matches(requested[..i], deployed)
      {
        if Contains(Lower(deployed[j]), Lower(fragment)) {
          matched := matched + [deployed[j]];
          break;
        }
        j := j + 1;
      }
    }
    assert requested[..|requested|] == requested;
  }

  /** filterServices: one listing call; its failure is the only error, and yields no matches. */
  method FilterServices(cluster: Cluster, requested: seq<string>)
    returns (r: Result<seq<string>, Error>)
    modifies cluster
    ensures cluster.trace == old(cluster.trace) + [Listed(cluster.behaviour.names(old(cluster.trace)))]
    ensures match cluster.behaviour.names(old(cluster.trace))
            case None => r == Failure(ListFailed)
            case Some(deployed) => r == Success(Matches(requested, deployed))
  {
    var names := cluster.ListNames();
    if names.None? {
      return Failure(ListFailed);
    }
    var matched := MatchServices(requested, names.value);
    r := Success(matched);
  }

  /** Matching distributes over concatenation of the requested fragments: the result lists the
      contribution of each fragment in fragment order. */
  lemma {:induction false} MatchesAppend(a: seq<string>, b: seq<string>, deployed: seq<string>)
    ensures Matches(a + b, deployed) == Matches(a, deployed) + Matches(b, deployed)
    decreases |b|
  {
    if b == [] {
      assert a + b == a;
    } else {
      var n := |b| - 1;
      assert (a + b)[..|a + b| - 1] == a + b[..n];
      assert (a + b)[|a + b| - 1] == b[n];
      MatchesAppend(a, b[..n], deployed);
    }
  }

  /** A single fragment contributes nothing exactly when it selects no deployed name, and
      otherwise the first deployed name it selects. */
  lemma MatchesSingle(fragment: string, deployed: seq<string>)
    ensures Matches([fragment], deployed) == [] <==>
      forall k :: 0 <= k < |deployed| ==> !Selects(deployed[k], fragment)
    ensures Matches([fragment], deployed) != [] ==>
      exists k :: 0 <= k < |deployed| && Matches([fragment], deployed) == [deployed[k]]
        && Selects(deployed[k], fragment)
        && forall j :: 0 <= j < k ==> !Selects(deployed[j], fragment)
  {
    SingleFragment(fragment, deployed);
    match FirstMatch(fragment, deployed)
    case None =>
    case Some(k) =>
      assert Matches([fragment], deployed) == [deployed[k]];
  }

  lemma SingleFragment(fragment: string, deployed: seq<string>)
    ensures Matches([fragment], deployed) == MatchOne(fragment, deployed)
  {
    assert [fragment][..0] == [];
  }

  /** The result has one entry per fragment exactly when every fragment selects a name. */
  lemma {:induction false} MatchesFull(requested: seq<string>, deployed: seq<string>)
    ensures |Matches(requested, deployed)| == |requested| <==>
      forall i :: 0 <= i < |requested| ==> FirstMatch(requested[i], deployed).Some?
  {
    if requested != [] {
      var n := |requested| - 1;
      var prefix := requested[..n];
      MatchesFull(prefix, deployed);
      assert Matches(requested, deployed) == Matches(prefix, deployed) + MatchOne(requested[n], deployed);
      assert |MatchOne(requested[n], deployed)| == if FirstMatch(requested[n], deployed).Some? then 1 else 0;
      assert forall i :: 0 <= i < n ==> prefix[i] == requested[i];
    }
  }

  /** A fragment that selects nothing can be removed without changing the result. */
  lemma UnmatchedDropped(a: seq<string>, fragment: string, b: seq<string>, deployed: seq<string>)
    requires forall k :: 0 <= k < |deployed| ==> !Selects(deployed[k], fragment)
    ensures Matches(a + [fragment] + b, deployed) == Matches(a + b, deployed)
  {
    var m := Matches([fragment], deployed);
    SingleFragment(fragment, deployed);
    assert m == [];
    MatchesAppend(a + [fragment], b, deployed);
    MatchesAppend(a, [fragment], deployed);
    MatchesAppend(a, b, deployed);
    calc {
      Matches(a + [fragment] + b, deployed);
      Matches(a + [fragment], deployed) + Matches(b, deployed);
      Matches(a, deployed) + m + Matches(b, deployed);
      { assert Matches(a, deployed) + m == Matches(a, deployed); }
      Matches(a, deployed) + Matches(b, deployed);
      Matches(a + b, deployed);
    }
  }

  /** No duplicate suppression: two fragments selecting the same name yield it twice. */
  lemma DuplicatesKept(f: string, g: string, deployed: seq<string>, k: nat)
    requires FirstMatch(f, deployed) == Some(k) && FirstMatch(g, deployed) == Some(k)
    ensures Matches([f, g], deployed) == [deployed[k], deployed[k]]
  {
    MatchesAppend([f], [g], deployed);
    assert [f][..0] == [] && [g][..0] == [];
  }

  /** The default `-services=""` splits into [""], and the empty fragment selects the first
      deployed service. */
  lemma EmptyFragmentSelectsFirst(deployed: seq<string>)
    requires |deployed| > 0
    ensures Matches(Split("", ','), deployed) == [deployed[0]]
  {
    assert Split("", ',') == [""];
    assert Lower("") == "";
    ContainsEmpty(Lower(deployed[0]));
    assert [""][..0] == [];
  }

  /** Fragment "web" against ["web-frontend", "web-backend", "cache"] selects "web-frontend". */
  lemma WebExample()
    ensures Matches(["web"], ["web-frontend", "web-backend", "cache"]) == ["web-frontend"]
  {
    var deployed := ["web-frontend", "web-backend", "cache"];
    assert Lower("web") == "web";
    assert Lower("web-frontend") == "web-frontend";
    assert OccursAt("web-frontend", "web", 0);
    assert Selects(deployed[0], "web");
    assert ["web"][..0] == [];
  }

  /** With `-all`, main joins the deployed names with ',' and filters the split list again. When
      no name's lower-cased form occurs in an earlier name's, this selects every deployed
      service once, in listing order. */
  lemma AllSelectsEveryService(deployed: seq<string>)
    requires |deployed| > 0
    requires forall n :: n in deployed ==> ',' !in n
    requires forall i, j :: 0 <= j < i < |deployed| ==> !Selects(deployed[j], deployed[i])
    ensures Matches(Split(Join(deployed, ','), ','), deployed) == deployed
  {
    SplitJoin(deployed, ',');
    SelfMatches(deployed, |deployed|);
    assert deployed[..|deployed|] == deployed;
  }

  lemma {:induction false} SelfMatches(deployed: seq<string>, n: nat)
    requires n <= |deployed|
    requires forall i, j :: 0 <= j < i < |deployed| ==> !Selects(deployed[j], deployed[i])
    ensures Matches(deployed[..n], deployed) == deployed[..n]
  {
    if n > 0 {
      SelfMatches(deployed, n - 1);
      assert deployed[..n][..n - 1] == deployed[..n - 1];
      ContainsSelf(Lower(deployed[n - 1]));
      assert FirstMatch(deployed[n - 1], deployed) == Some(n - 1);
      assert deployed[..n] == deployed[..n - 1] + [deployed[n - 1]];
    }
  }

  /** With `-all`, a service whose name occurs in an earlier-listed name is never selected;
      the earlier one is selected in its place. */
  lemma AllSkipsContainedName(deployed: seq<string>)
    requires deployed == ["web-frontend", "web"]
    ensures Matches(Split(Join(deployed, ','), ','), deployed) == ["web-frontend", "web-frontend"]
  {
    var front, web := deployed[0], deployed[1];
    assert ',' !in front && ',' !in web;
    SplitJoin(deployed, ',');
    assert Split(Join(deployed, ','), ',') == [front, web];
    FrontSelected(front, web);
    assert FirstMatch(front, deployed) == Some(0);
    assert FirstMatch(web, deployed) == Some(0);
    DuplicatesKept(front, web, deployed, 0);
  }

  /** "web-frontend" is selected by itself and by "web". */
  lemma FrontSelected(front: string, web: string)
    requires front == "web-frontend" && web == "web"
    ensures Selects(front, front) && Selects(front, web)
  {
    assert Lower(web) == web;
    assert Lower(front) == front;
    ContainsSelf(front);
    assert OccursAt(front, web, 0);
  }
}
