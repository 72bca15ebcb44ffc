/** Recursive enumeration of predecessor paths (internal/graph/utils.go).
    The predecessor map lists, for each vertex, its predecessors in the order
    in which Go's map iteration happened to visit them; `rank` is a ghost
    ranking that strictly grows along every edge, which is what makes the
    recursion terminate. */
module GraphPaths {

  type Path = seq<string>

  /** Every listed predecessor ranks strictly below the vertex it precedes. */
  ghost predicate RankedPreds(pm: map<string, seq<string>>, rank: map<string, nat>) {
    forall k :: k in pm ==>
      && k in rank
      && forall j :: 0 <= j < |pm[k]| ==> pm[k][j] in rank && rank[pm[k][j]] < rank[k]
  }

  function Parents(pm: map<string, seq<string>>, v: string): seq<string> {
    if v in pm then pm[v] else []
  }

  /** fetchPathsToTarget: a vertex without predecessors ends the path; otherwise
      the vertex is appended and each predecessor is explored in turn. */
  function FetchPathsToTarget(source: string, target: string, pm: map<string, seq<string>>,
                              currentPath: Path, ghost rank: map<string, nat>): seq<Path>
    requires RankedPreds(pm, rank)
    decreases if source in rank then rank[source] else 0, 1
  {
    if |Parents(pm, source)| == 0 then [currentPath]
    else FetchParents(source, target, pm, currentPath + [source], 0, [], rank)
  }

  /** The loop over the predecessors of `source`, with `paths` the paths
      gathered so far. Meeting the target resets them to the current path. */
  function FetchParents(source: string, target: string, pm: map<string, seq<string>>,
                        currentPath: Path, i: nat, paths: seq<Path>,
                        ghost rank: map<string, nat>): seq<Path>
    requires RankedPreds(pm, rank)
    requires source in pm && i <= |pm[source]|
    decreases rank[source], 0, |pm[source]| - i
  {
    if i == |pm[source]| then paths
    else
      var parent := pm[source][i];
      var reset := if parent == target then [currentPath] else paths;
      FetchParents(source, target, pm, currentPath, i + 1,
                   reset + FetchPathsToTarget(parent, target, pm, currentPath, rank), rank)
  }

  /** A vertex without predecessors yields exactly the incoming path. */
  lemma NoParentsYieldsCurrentPath(source: string, target: string, pm: map<string, seq<string>>,
                                   currentPath: Path, rank: map<string, nat>)
    requires RankedPreds(pm, rank) && |Parents(pm, source)| == 0
    ensures FetchPathsToTarget(source, target, pm, currentPath, rank) == [currentPath]
  {
  }

  /** Every enumerated path extends the incoming path, and there is at least one. */
  lemma {:induction false} FetchExtendsCurrentPath(source: string, target: string,
                                                   pm: map<string, seq<string>>,
                                                   currentPath: Path, rank: map<string, nat>)
    requires RankedPreds(pm, rank)
    ensures var r := FetchPathsToTarget(source, target, pm, currentPath, rank);
            |r| > 0 && forall k :: 0 <= k < |r| ==> currentPath <= r[k]
    decreases if source in rank then rank[source] else 0, 1
  {
    if |Parents(pm, source)| > 0 {
      FetchParentsExtend(source, target, pm, currentPath + [source], 0, [], rank);
    }
  }

  lemma {:induction false} FetchParentsExtend(source: string, target: string,
                                              pm: map<string, seq<string>>, currentPath: Path,
                                              i: nat, paths: seq<Path>, rank: map<string, nat>)
    requires RankedPreds(pm, rank)
    requires source in pm && i <= |pm[source]|
    requires forall k :: 0 <= k < |paths| ==> currentPath <= paths[k]
    requires |paths| > 0 || i < |pm[source]|
    ensures var r := FetchParents(source, target, pm, currentPath, i, paths, rank);
            |r| > 0 && forall k :: 0 <= k < |r| ==> currentPath <= r[k]
    decreases rank[source], 0, |pm[source]| - i
  {
    if i < |pm[source]| {
      var parent := pm[source][i];
      var reset := if parent == target then [currentPath] else paths;
      var found := FetchPathsToTarget(parent, target, pm, currentPath, rank);
      FetchExtendsCurrentPath(parent, target, pm, currentPath, rank);
      FetchParentsExtend(source, target, pm, currentPath, i + 1, reset + found, rank);
    }
  }

  /** The paths gathered so far are a prefix of the final result when no
      later predecessor is the target. */
  lemma {:induction false} FetchParentsKeeps(source: string, target: string,
                                             pm: map<string, seq<string>>, currentPath: Path,
                                             i: nat, paths: seq<Path>, rank: map<string, nat>)
    requires RankedPreds(pm, rank)
    requires source in pm && i <= |pm[source]|
    requires forall j :: i <= j < |pm[source]| ==> pm[source][j] != target
    ensures paths <= FetchParents(source, target, pm, currentPath, i, paths, rank)
    decreases |pm[source]| - i
  {
    if i < |pm[source]| {
      var found := FetchPathsToTarget(pm[source][i], target, pm, currentPath, rank);
      FetchParentsKeeps(source, target, pm, currentPath, i + 1, paths + found, rank);
    }
  }

  lemma {:induction false} FetchParentsFindsTarget(source: string, target: string,
                                                   pm: map<string, seq<string>>, currentPath: Path,
                                                   i: nat, paths: seq<Path>, j: nat,
                                                   rank: map<string, nat>)
    requires RankedPreds(pm, rank)
    requires source in pm && i <= j < |pm[source]| && pm[source][j] == target
    ensures currentPath in FetchParents(source, target, pm, currentPath, i, paths, rank)
    decreases |pm[source]| - i
  {
    var parent := pm[source][i];
    var reset := if parent == target then [currentPath] else paths;
    var next := reset + FetchPathsToTarget(parent, target, pm, currentPath, rank);
    if exists j' :: i < j' < |pm[source]| && pm[source][j'] == target {
      var j' :| i < j' < |pm[source]| && pm[source][j'] == target;
      FetchParentsFindsTarget(source, target, pm, currentPath, i + 1, next, j', rank);
    } else {
      assert parent == target;
      FetchParentsKeeps(source, target, pm, currentPath, i + 1, next, rank);
      assert next[0] == currentPath;
    }
  }

  /** When the target is a direct predecessor of `source`, the path extended
      by `source` is among the results. */
  lemma DirectTargetIsFound(source: string, target: string, pm: map<string, seq<string>>,
                            currentPath: Path, rank: map<string, nat>)
    requires RankedPreds(pm, rank)
    requires target in Parents(pm, source)
    ensures currentPath + [source] in FetchPathsToTarget(source, target, pm, currentPath, rank)
  {
    var j :| 0 <= j < |pm[source]| && pm[source][j] == target;
    FetchParentsFindsTarget(source, target, pm, currentPath + [source], 0, [], j, rank);
  }
}
