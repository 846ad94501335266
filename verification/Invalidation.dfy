/** Which paths of a source have to be analyzed again: one pass over the recorded dependencies
    (internal/analysis/runner.go:1155-1208). */
module Invalidation {

  datatype Artifact = Artifact(path: string, hash: string)

  datatype Dependency = Dependency(fromPath: string, toPath: string)

  ghost predicate IsCurrent(artifacts: seq<Artifact>, path: string) {
    exists i :: 0 <= i < |artifacts| && artifacts[i].path == path
  }

  /** Changed, new or deleted. */
  ghost predicate Touched(previous: map<string, string>, artifacts: seq<Artifact>, path: string) {
    || (exists i ::
          0 <= i < |artifacts| && artifacts[i].path == path
          && (path !in previous || previous[path] != artifacts[i].hash))
    || (path in previous && !IsCurrent(artifacts, path))
  }

  /** The path leads to a touched one through recorded dependencies, each taken from an earlier place in
      the list than the one before, all but the last from paths that still exist. */
  ghost predicate Leads(previous: map<string, string>, deps: seq<Dependency>, artifacts: seq<Artifact>, path: string,
      chain: seq<nat>)
    decreases |chain|
  {
    if chain == [] then Touched(previous, artifacts, path)
    else
      && chain[0] < |deps| && deps[chain[0]].fromPath == path && IsCurrent(artifacts, path)
      && (|chain| > 1 ==> chain[1] < chain[0])
      && Leads(previous, deps, artifacts, deps[chain[0]].toPath, chain[1..])
  }

  ghost predicate LeadsBelow(previous: map<string, string>, deps: seq<Dependency>, artifacts: seq<Artifact>,
      path: string, chain: seq<nat>, n: nat) {
    Leads(previous, deps, artifacts, path, chain) && (chain != [] ==> chain[0] < n)
  }

  ghost predicate IsInvalid(previous: map<string, string>, deps: seq<Dependency>, artifacts: seq<Artifact>,
      path: string) {
    exists chain :: Leads(previous, deps, artifacts, path, chain)
  }

  /** Invalidated by the touched paths and the first `n` dependencies. */
  ghost predicate Reached(previous: map<string, string>, deps: seq<Dependency>, artifacts: seq<Artifact>, path: string,
      n: nat) {
    exists chain :: LeadsBelow(previous, deps, artifacts, path, chain, n)
  }

  /** `invalidatedPathsWithIndex`: exactly the paths with such a chain. */
  method InvalidatedPaths(previous: map<string, string>, deps: seq<Dependency>, artifacts: seq<Artifact>)
    returns (invalidated: set<string>)
    ensures forall path :: path in invalidated <==> IsInvalid(previous, deps, artifacts, path)
  {
    invalidated := {};
    var current: set<string> := {};
    var i := 0;
    while i < |artifacts|
      invariant 0 <= i <= |artifacts|
      invariant forall path :: path in current <==> IsCurrent(artifacts[..i], path)
      invariant forall path :: path in invalidated <==> exists j ::
          0 <= j < i && artifacts[j].path == path && (path !in previous || previous[path] != artifacts[j].hash)
    {
      var a := artifacts[i];
      CurrentNext(artifacts, i);
      current := current + {a.path};
      if a.path !in previous || previous[a.path] != a.hash {
        invalidated := invalidated + {a.path};
      }
      i := i + 1;
    }
    assert artifacts[..i] == artifacts;
    invalidated := invalidated + (set path | path in previous && path !in current);
    assert forall path :: path in invalidated <==> Touched(previous, artifacts, path);
    var n := 0;
    NoneBelow(previous, deps, artifacts);
    while n < |deps|
      invariant 0 <= n <= |deps|
      invariant forall path :: path in invalidated <==> Reached(previous, deps, artifacts, path, n)
    {
      var d := deps[n];
      ghost var was := invalidated;
      if d.toPath in invalidated && d.fromPath in current {
        invalidated := invalidated + {d.fromPath};
      }
      forall path
        ensures path in invalidated <==> Reached(previous, deps, artifacts, path, n + 1)
      {
        OneMoreDependency(previous, deps, artifacts, path, n);
      }
      n := n + 1;
    }
    forall path
      ensures path in invalidated <==> IsInvalid(previous, deps, artifacts, path)
    {
      AllBelow(previous, deps, artifacts, path);
    }
  }

  lemma AllBelow(previous: map<string, string>, deps: seq<Dependency>, artifacts: seq<Artifact>, path: string)
    ensures IsInvalid(previous, deps, artifacts, path) <==> Reached(previous, deps, artifacts, path, |deps|)
  {
    if IsInvalid(previous, deps, artifacts, path) {
      var chain :| Leads(previous, deps, artifacts, path, chain);
      assert LeadsBelow(previous, deps, artifacts, path, chain, |deps|);
    }
  }

  lemma CurrentNext(artifacts: seq<Artifact>, i: nat)
    requires i < |artifacts|
    ensures forall path ::
        IsCurrent(artifacts[..i + 1], path) <==> IsCurrent(artifacts[..i], path) || path == artifacts[i].path
  {
    var few, more := artifacts[..i], artifacts[..i + 1];
    forall path
      ensures IsCurrent(more, path) <==> IsCurrent(few, path) || path == artifacts[i].path
    {
      if IsCurrent(few, path) {
        var j :| 0 <= j < i && few[j].path == path;
        assert more[j].path == path;
      } else if path == artifacts[i].path {
        assert more[i].path == path;
      } else {
        assert forall j | 0 <= j < i :: few[j].path == more[j].path;
      }
    }
  }

  lemma NoneBelow(previous: map<string, string>, deps: seq<Dependency>, artifacts: seq<Artifact>)
    ensures forall path :: Touched(previous, artifacts, path) <==> Reached(previous, deps, artifacts, path, 0)
  {
    forall path
      ensures Touched(previous, artifacts, path) <==> Reached(previous, deps, artifacts, path, 0)
    {
      assert Touched(previous, artifacts, path) ==> LeadsBelow(previous, deps, artifacts, path, [], 0);
      if chain :| LeadsBelow(previous, deps, artifacts, path, chain, 0) {
        assert chain == [];
      }
    }
  }

  lemma OneMoreDependency(previous: map<string, string>, deps: seq<Dependency>, artifacts: seq<Artifact>, path: string,
      n: nat)
    requires n < |deps|
    ensures Reached(previous, deps, artifacts, path, n + 1) <==>
            Reached(previous, deps, artifacts, path, n)
            || (path == deps[n].fromPath && IsCurrent(artifacts, path)
                && Reached(previous, deps, artifacts, deps[n].toPath, n))
  {
    if Reached(previous, deps, artifacts, path, n + 1) {
      var chain :| LeadsBelow(previous, deps, artifacts, path, chain, n + 1);
      if chain != [] && chain[0] == n {
        assert LeadsBelow(previous, deps, artifacts, deps[n].toPath, chain[1..], n);
      } else {
        assert LeadsBelow(previous, deps, artifacts, path, chain, n);
      }
    }
    if chain :| LeadsBelow(previous, deps, artifacts, path, chain, n) {
      assert LeadsBelow(previous, deps, artifacts, path, chain, n + 1);
    }
    if path == deps[n].fromPath && IsCurrent(artifacts, path) {
      if chain :| LeadsBelow(previous, deps, artifacts, deps[n].toPath, chain, n) {
        assert ([n] + chain)[1..] == chain;
        assert LeadsBelow(previous, deps, artifacts, path, [n] + chain, n + 1);
      }
    }
  }

  // ---------- bounds ----------

  /** Connected to a touched path through the recorded dependencies, in any order. */
  ghost predicate Connected(previous: map<string, string>, deps: seq<Dependency>, artifacts: seq<Artifact>,
      path: string, route: seq<string>)
    decreases |route|
  {
    if route == [] then Touched(previous, artifacts, path)
    else Dependency(path, route[0]) in deps && Connected(previous, deps, artifacts, route[0], route[1..])
  }

  /** At least every touched path and every current direct dependent of one. */
  lemma AtLeastDirect(previous: map<string, string>, deps: seq<Dependency>, artifacts: seq<Artifact>, k: nat)
    requires k < |deps| && Touched(previous, artifacts, deps[k].toPath) && IsCurrent(artifacts, deps[k].fromPath)
    ensures IsInvalid(previous, deps, artifacts, deps[k].fromPath)
    ensures IsInvalid(previous, deps, artifacts, deps[k].toPath)
  {
    assert Leads(previous, deps, artifacts, deps[k].toPath, []);
    assert [k][1..] == [];
    assert Leads(previous, deps, artifacts, deps[k].fromPath, [k]);
  }

  /** At most the paths connected to a touched one. */
  lemma {:induction false} AtMostConnected(previous: map<string, string>, deps: seq<Dependency>,
      artifacts: seq<Artifact>, path: string, chain: seq<nat>)
    requires Leads(previous, deps, artifacts, path, chain)
    ensures exists route :: |route| == |chain| && Connected(previous, deps, artifacts, path, route)
    decreases |chain|
  {
    if chain == [] {
      assert Connected(previous, deps, artifacts, path, []);
    } else {
      var next := deps[chain[0]].toPath;
      AtMostConnected(previous, deps, artifacts, next, chain[1..]);
      var route :| |route| == |chain[1..]| && Connected(previous, deps, artifacts, next, route);
      assert ([next] + route)[1..] == route;
      assert deps[chain[0]] == Dependency(path, next);
      assert Connected(previous, deps, artifacts, path, [next] + route);
    }
  }

  /** An unchanged source: the same paths with the same contents. */
  ghost predicate SameSource(previous: map<string, string>, artifacts: seq<Artifact>) {
    && (forall i | 0 <= i < |artifacts| ::
        artifacts[i].path in previous && previous[artifacts[i].path] == artifacts[i].hash)
    && (forall path | path in previous :: IsCurrent(artifacts, path))
  }

  /** Nothing is invalidated exactly when the source is unchanged. */
  lemma NothingInvalidatedExact(previous: map<string, string>, deps: seq<Dependency>, artifacts: seq<Artifact>)
    ensures SameSource(previous, artifacts) <==> forall path :: !IsInvalid(previous, deps, artifacts, path)
  {
    if SameSource(previous, artifacts) {
      forall path, chain
        ensures !Leads(previous, deps, artifacts, path, chain)
      {
        NoChain(previous, deps, artifacts, path, chain);
      }
    } else if i :|
        0 <= i < |artifacts| && (artifacts[i].path !in previous || previous[artifacts[i].path] != artifacts[i].hash) {
      assert Leads(previous, deps, artifacts, artifacts[i].path, []);
      assert IsInvalid(previous, deps, artifacts, artifacts[i].path);
    } else {
      var path :| path in previous && !IsCurrent(artifacts, path);
      assert Leads(previous, deps, artifacts, path, []);
      assert IsInvalid(previous, deps, artifacts, path);
    }
  }

  lemma {:induction false} NoChain(previous: map<string, string>, deps: seq<Dependency>, artifacts: seq<Artifact>,
      path: string, chain: seq<nat>)
    requires SameSource(previous, artifacts)
    ensures !Leads(previous, deps, artifacts, path, chain)
    decreases |chain|
  {
    if chain != [] && chain[0] < |deps| {
      NoChain(previous, deps, artifacts, deps[chain[0]].toPath, chain[1..]);
    }
  }
}
