/** The deployment graph (internal/graph/graph.go and the graph the reducer in
    internal/dependency/deployment.go rewrites). The third-party directed graph
    is replaced by an owned one: vertices keyed by path, and a set of edges from
    which the adjacency and predecessor maps are derived. */
module DependencyGraph {
  import opened DependencyNode
  import opened Wrappers
  import GraphPaths

  datatype Edge = Edge(source: string, target: string)

  /** The adjacency map at `p`: the targets of the edges leaving `p`. */
  function Children(edges: set<Edge>, p: string): set<string> {
    set e | e in edges && e.source == p :: e.target
  }

  /** The predecessor map at `p`: the sources of the edges entering `p`. */
  function Preds(edges: set<Edge>, p: string): set<string> {
    set e | e in edges && e.target == p :: e.source
  }

  ghost predicate EdgesWithin(edges: set<Edge>, vs: set<string>) {
    forall e :: e in edges ==> e.source in vs && e.target in vs
  }

  /** A ranking that grows strictly along every edge: the graph is acyclic. */
  ghost predicate Ranked(edges: set<Edge>, rank: map<string, nat>) {
    forall e :: e in edges ==> e.source in rank && e.target in rank && rank[e.source] < rank[e.target]
  }

  /** `s` is a walk along edges. */
  ghost predicate IsPath(edges: set<Edge>, s: seq<string>) {
    |s| > 0 && forall i :: 0 <= i < |s| - 1 ==> Edge(s[i], s[i + 1]) in edges
  }

  ghost predicate Reachable(edges: set<Edge>, x: string, y: string) {
    exists s :: IsPath(edges, s) && s[0] == x && s[|s| - 1] == y
  }

  lemma ReachRefl(edges: set<Edge>, x: string)
    ensures Reachable(edges, x, x)
  {
    assert IsPath(edges, [x]);
  }

  lemma ReachPrepend(edges: set<Edge>, a: string, b: string, y: string)
    requires Edge(a, b) in edges && Reachable(edges, b, y)
    ensures Reachable(edges, a, y)
  {
    var s :| IsPath(edges, s) && s[0] == b && s[|s| - 1] == y;
    var t := [a] + s;
    assert forall i :: 1 <= i < |t| - 1 ==> t[i] == s[i - 1] && t[i + 1] == s[i];
    assert IsPath(edges, t);
  }

  lemma ReachAppend(edges: set<Edge>, x: string, b: string, c: string)
    requires Reachable(edges, x, b) && Edge(b, c) in edges
    ensures Reachable(edges, x, c)
  {
    var s :| IsPath(edges, s) && s[0] == x && s[|s| - 1] == b;
    var t := s + [c];
    assert forall i :: 0 <= i < |s| ==> t[i] == s[i];
    assert IsPath(edges, t);
  }

  /** A set of vertices closed under taking children holds everything
      reachable from its members. */
  lemma {:induction false} ClosedHoldsReachable(edges: set<Edge>, closed: set<string>, s: seq<string>)
    requires IsPath(edges, s) && s[0] in closed
    requires forall v :: v in closed ==> Children(edges, v) <= closed
    ensures s[|s| - 1] in closed
    decreases |s|
  {
    if |s| > 1 {
      assert s[1] in Children(edges, s[0]);
      PathSuffix(edges, s, 1);
      ClosedHoldsReachable(edges, closed, s[1..]);
    }
  }

  lemma PathSuffix(edges: set<Edge>, s: seq<string>, k: nat)
    requires IsPath(edges, s) && k < |s|
    ensures IsPath(edges, s[k..])
  {
    var t := s[k..];
    forall i | 0 <= i < |t| - 1
      ensures Edge(t[i], t[i + 1]) in edges
    {
      assert t[i] == s[k + i] && t[i + 1] == s[k + i + 1];
    }
  }

  lemma PathPrefix(edges: set<Edge>, s: seq<string>, k: nat)
    requires IsPath(edges, s) && 0 < k <= |s|
    ensures IsPath(edges, s[..k])
  {
    var t := s[..k];
    forall i | 0 <= i < |t| - 1
      ensures Edge(t[i], t[i + 1]) in edges
    {
      assert t[i] == s[i] && t[i + 1] == s[i + 1];
    }
  }

  /** Two walks, the second starting where the first ends, make one walk. */
  lemma PathJoin(edges: set<Edge>, s: seq<string>, t: seq<string>)
    requires IsPath(edges, s) && IsPath(edges, t) && s[|s| - 1] == t[0]
    ensures IsPath(edges, s + t[1..])
  {
    var u := s + t[1..];
    forall i | 0 <= i < |u| - 1
      ensures Edge(u[i], u[i + 1]) in edges
    {
      if i < |s| - 1 {
        assert u[i] == s[i] && u[i + 1] == s[i + 1];
      } else {
        assert u[i] == t[i - |s| + 1] && u[i + 1] == t[i - |s| + 2];
      }
    }
  }

  /** The first position of `p` in `s`. */
  lemma {:induction false} FirstOccurrence(s: seq<string>, p: string) returns (i: nat)
    requires p in s
    ensures i < |s| && s[i] == p
    ensures forall k :: 0 <= k < i ==> s[k] != p
  {
    if s[0] == p {
      i := 0;
    } else {
      var j := FirstOccurrence(s[1..], p);
      i := j + 1;
      assert forall k :: 1 <= k < i ==> s[k] == s[1..][k - 1];
    }
  }

  /** The last position of `p` in `s`. */
  lemma {:induction false} LastOccurrence(s: seq<string>, p: string) returns (i: nat)
    requires p in s
    ensures i < |s| && s[i] == p
    ensures forall k :: i < k < |s| ==> s[k] != p
  {
    if s[|s| - 1] == p {
      i := |s| - 1;
    } else {
      var init := s[..|s| - 1];
      assert p in init by {
        var k :| 0 <= k < |s| && s[k] == p;
        assert init[k] == p;
      }
      i := LastOccurrence(init, p);
      assert forall k :: i < k < |s| - 1 ==> s[k] == init[k];
    }
  }

  function Elements(s: seq<string>): set<string> {
    set x | x in s
  }

  function PathsOf(ns: seq<Node>): set<string> {
    set i | 0 <= i < |ns| :: ns[i].path
  }

  lemma PathsOfAppend(ns: seq<Node>, n: Node)
    ensures PathsOf(ns + [n]) == PathsOf(ns) + {n.path}
  {
    var ms := ns + [n];
    assert forall i :: 0 <= i < |ns| ==> ms[i] == ns[i];
    assert ms[|ns|] == n;
  }

  lemma SubsetCard(a: set<string>, b: set<string>)
    requires a <= b
    ensures |a| <= |b|
  {
    assert b == a + (b - a);
  }

  lemma {:induction false} DistinctPathsCard(ns: seq<Node>)
    requires DistinctPaths(ns)
    ensures |PathsOf(ns)| == |ns|
  {
    if |ns| > 0 {
      var init := ns[..|ns| - 1];
      assert ns == init + [ns[|ns| - 1]];
      DistinctPathsCard(init);
      PathsOfAppend(init, ns[|ns| - 1]);
      assert ns[|ns| - 1].path !in PathsOf(init);
    }
  }

  /** The nodes of `ns` whose type is `typ`, in order. */
  function OfType(ns: seq<Node>, typ: Type): seq<Node> {
    if |ns| == 0 then []
    else OfType(ns[..|ns| - 1], typ) + (if ns[|ns| - 1].typ == typ then [ns[|ns| - 1]] else [])
  }

  /** No two nodes in `ns` share a path. */
  predicate DistinctPaths(ns: seq<Node>) {
    forall i, j :: 0 <= i < j < |ns| ==> ns[i].path != ns[j].path
  }

  lemma OfTypeStep(ns: seq<Node>, i: nat, typ: Type)
    requires i < |ns|
    ensures OfType(ns[..i + 1], typ) == OfType(ns[..i], typ) + (if ns[i].typ == typ then [ns[i]] else [])
  {
    assert ns[..i + 1][..i] == ns[..i];
  }

  lemma {:induction false} OfTypeMembers(ns: seq<Node>, typ: Type)
    requires DistinctPaths(ns)
    ensures forall x :: x in OfType(ns, typ) ==> x in ns && x.typ == typ
    ensures forall x :: x in ns && x.typ == typ ==> x in OfType(ns, typ)
    ensures DistinctPaths(OfType(ns, typ))
  {
    if |ns| > 0 {
      var init := ns[..|ns| - 1];
      var last := ns[|ns| - 1];
      OfTypeMembers(init, typ);
      assert ns == init + [last];
      var r0 := OfType(init, typ);
      var r := OfType(ns, typ);
      if last.typ == typ {
        assert r == r0 + [last];
        forall k | 0 <= k < |r0|
          ensures r0[k].path != last.path
        {
          assert r0[k] in r0;
          var m :| 0 <= m < |init| && init[m] == r0[k];
          assert ns[m] == r0[k];
        }
      } else {
        assert r == r0;
      }
    }
  }

  /** Filtering an enumeration of the vertices by type enumerates the vertices of that type. */
  lemma OfTypeOfVertices(all: seq<Node>, vertices: map<string, Node>, typ: Type)
    requires forall i :: 0 <= i < |all| ==> all[i].path in vertices && vertices[all[i].path] == all[i]
    requires forall i, j :: 0 <= i < j < |all| ==> all[i].path != all[j].path
    requires PathsOf(all) == vertices.Keys
    ensures var r := OfType(all, typ);
      && (forall i :: 0 <= i < |r| ==> r[i].path in vertices && vertices[r[i].path] == r[i] && r[i].typ == typ)
      && (forall i, j :: 0 <= i < j < |r| ==> r[i].path != r[j].path)
      && PathsOf(r) == set p | p in vertices && vertices[p].typ == typ
  {
    OfTypeMembers(all, typ);
    OfTypeEntries(all, vertices, typ);
    OfTypeCovers(all, vertices, typ);
  }

  lemma OfTypeEntries(all: seq<Node>, vertices: map<string, Node>, typ: Type)
    requires forall i :: 0 <= i < |all| ==> all[i].path in vertices && vertices[all[i].path] == all[i]
    requires forall x :: x in OfType(all, typ) ==> x in all && x.typ == typ
    ensures var r := OfType(all, typ);
      forall i :: 0 <= i < |r| ==> r[i].path in vertices && vertices[r[i].path] == r[i] && r[i].typ == typ
  {
    var r := OfType(all, typ);
    forall i | 0 <= i < |r|
      ensures r[i].path in vertices && vertices[r[i].path] == r[i] && r[i].typ == typ
    {
      assert r[i] in r;
      var m :| 0 <= m < |all| && all[m] == r[i];
    }
  }

  lemma OfTypeCovers(all: seq<Node>, vertices: map<string, Node>, typ: Type)
    requires forall i :: 0 <= i < |all| ==> all[i].path in vertices && vertices[all[i].path] == all[i]
    requires PathsOf(all) == vertices.Keys
    requires forall x :: x in all && x.typ == typ ==> x in OfType(all, typ)
    requires var r := OfType(all, typ);
      forall i :: 0 <= i < |r| ==> r[i].path in vertices && vertices[r[i].path] == r[i] && r[i].typ == typ
    ensures var r := OfType(all, typ);
      PathsOf(r) == set p | p in vertices && vertices[p].typ == typ
  {
    var r := OfType(all, typ);
    forall p | p in vertices && vertices[p].typ == typ
      ensures p in PathsOf(r)
    {
      assert p in PathsOf(all);
      var m :| 0 <= m < |all| && all[m].path == p;
      assert all[m] in r;
      var k :| 0 <= k < |r| && r[k] == all[m];
    }
  }

  /** The invariant of enumerating a vertex map: `r` holds the vertices whose
      keys are no longer in `keys`, once each. */
  ghost predicate Enumerating(vertices: map<string, Node>, r: seq<Node>, keys: set<string>) {
    && keys <= vertices.Keys
    && |r| + |keys| == |vertices|
    && (forall i :: 0 <= i < |r| ==> r[i].path in vertices && vertices[r[i].path] == r[i])
    && DistinctPaths(r)
    && PathsOf(r) == vertices.Keys - keys
  }

  lemma EnumerateStep(vertices: map<string, Node>, r: seq<Node>, keys: set<string>, k: string)
    requires forall p :: p in vertices ==> vertices[p].path == p
    requires Enumerating(vertices, r, keys) && k in keys
    ensures Enumerating(vertices, r + [vertices[k]], keys - {k})
  {
    PathsOfAppend(r, vertices[k]);
    var r' := r + [vertices[k]];
    forall i, j | 0 <= i < j < |r'|
      ensures r'[i].path != r'[j].path
    {
      if j == |r| {
        assert r[i].path in PathsOf(r);
      }
    }
  }

  class Graph {
    var vertices: map<string, Node>
    var edges: set<Edge>
    const startNode: Node
    ghost var rank: map<string, nat>

    ghost predicate Valid()
      reads this
    {
      && (forall p :: p in vertices ==> vertices[p].path == p)
      && EdgesWithin(edges, vertices.Keys)
      && vertices.Keys <= rank.Keys
      && Ranked(edges, rank)
    }

    /** The nodes the graph refers to: its vertices and their parents. */
    ghost function Footprint(): set<Node>
      reads this
    {
      vertices.Values + set p | p in vertices && vertices[p].parent != null :: vertices[p].parent
    }

    constructor (start: Node)
      ensures Valid()
      ensures vertices == map[start.path := start] && edges == {} && startNode == start
      ensures rank == map[start.path := 0]
    {
      vertices := map[start.path := start];
      edges := {};
      startNode := start;
      rank := map[start.path := 0];
    }

    method AddVertex(n: Node, ghost r: nat)
      requires Valid() && n.path !in vertices
      modifies this`vertices, this`rank
      ensures Valid()
      ensures vertices == old(vertices)[n.path := n] && edges == old(edges)
      ensures rank == old(rank)[n.path := r]
    {
      vertices := vertices[n.path := n];
      rank := rank[n.path := r];
    }

    method AddEdge(source: string, target: string)
      requires Valid() && source in vertices && target in vertices
      requires rank[source] < rank[target]
      modifies this`edges
      ensures Valid()
      ensures edges == old(edges) + {Edge(source, target)}
    {
      edges := edges + {Edge(source, target)};
    }

    method RemoveEdge(source: string, target: string)
      requires Valid()
      modifies this`edges
      ensures Valid()
      ensures edges == old(edges) - {Edge(source, target)}
    {
      edges := edges - {Edge(source, target)};
    }

    /** The library refuses to remove a vertex that still has edges. */
    method RemoveVertex(p: string)
      requires Valid()
      requires forall e :: e in edges ==> e.source != p && e.target != p
      modifies this`vertices
      ensures Valid()
      ensures vertices == old(vertices) - {p}
    {
      vertices := vertices - {p};
    }

    /** Vertices: one node per key of the adjacency map, in the order Go's map
        iteration yields the keys. */
    method Vertices() returns (r: seq<Node>)
      requires Valid()
      ensures |r| == |vertices|
      ensures forall i :: 0 <= i < |r| ==> r[i].path in vertices && vertices[r[i].path] == r[i]
      ensures DistinctPaths(r)
      ensures PathsOf(r) == vertices.Keys
    {
      r := [];
      var keys := vertices.Keys;
      while keys != {}
        invariant Enumerating(vertices, r, keys)
        decreases keys
      {
        var k :| k in keys;
        EnumerateStep(vertices, r, keys, k);
        r := r + [vertices[k]];
        keys := keys - {k};
      }
    }

    /** VerticesByType: exactly the vertices of the given type. */
    method VerticesByType(typ: Type) returns (r: seq<Node>)
      requires Valid()
      ensures forall i :: 0 <= i < |r| ==> r[i].path in vertices && vertices[r[i].path] == r[i] && r[i].typ == typ
      ensures DistinctPaths(r)
      ensures PathsOf(r) == set p | p in vertices && vertices[p].typ == typ
    {
      var all := Vertices();
      r := [];
      var i := 0;
      while i < |all|
        invariant 0 <= i <= |all|
        invariant r == OfType(all[..i], typ)
      {
        OfTypeStep(all, i, typ);
        if all[i].typ == typ {
          r := r + [all[i]];
        }
        i := i + 1;
      }
      assert all[..|all|] == all;
      OfTypeOfVertices(all, vertices, typ);
    }

    /** VertexByIdentifier: some vertex with that identifier, or null when none has it. */
    method VertexByIdentifier(identifier: string) returns (r: Node?)
      requires Valid()
      ensures r != null ==> r.path in vertices && vertices[r.path] == r && r.identifier == identifier
      ensures r == null <==> forall p :: p in vertices ==> vertices[p].identifier != identifier
    {
      var all := Vertices();
      var i := 0;
      while i < |all|
        invariant 0 <= i <= |all|
        invariant forall m :: 0 <= m < i ==> all[m].identifier != identifier
      {
        if all[i].identifier == identifier {
          return all[i];
        }
        i := i + 1;
      }
      forall p | p in vertices
        ensures vertices[p].identifier != identifier
      {
        assert p in PathsOf(all);
        var m :| 0 <= m < |all| && all[m].path == p;
      }
      return null;
    }

    method VertexExists(identifier: string) returns (r: bool)
      requires Valid()
      ensures r <==> exists p :: p in vertices && vertices[p].identifier == identifier
    {
      var v := VertexByIdentifier(identifier);
      r := v != null;
    }

    /** The adjacency map, each list in the order the edge set is traversed. */
    method AdjacencyMap() returns (am: map<string, seq<string>>)
      requires Valid()
      ensures am.Keys == vertices.Keys
      ensures forall k :: k in am ==> Elements(am[k]) == Children(edges, k)
    {
      am := map k | k in vertices :: [];
      var rest := edges;
      while rest != {}
        invariant rest <= edges
        invariant am.Keys == vertices.Keys
        invariant forall k :: k in am ==> Elements(am[k]) == Children(edges - rest, k)
        decreases rest
      {
        var e :| e in rest;
        ghost var done := edges - rest;
        assert Elements(am[e.source] + [e.target]) == Elements(am[e.source]) + {e.target};
        am := am[e.source := am[e.source] + [e.target]];
        rest := rest - {e};
        assert edges - rest == done + {e};
        forall k | k in am
          ensures Elements(am[k]) == Children(edges - rest, k)
        {
          if k == e.source {
            assert Children(done + {e}, k) == Children(done, k) + {e.target};
          } else {
            assert Children(done + {e}, k) == Children(done, k);
          }
        }
      }
    }

    /** The predecessor map, each list in the order the edge set is traversed. */
    method PredecessorMap() returns (pm: map<string, seq<string>>)
      requires Valid()
      ensures pm.Keys == vertices.Keys
      ensures forall k :: k in pm ==> Elements(pm[k]) == Preds(edges, k)
      ensures GraphPaths.RankedPreds(pm, rank)
    {
      pm := map k | k in vertices :: [];
      var rest := edges;
      while rest != {}
        invariant rest <= edges
        invariant pm.Keys == vertices.Keys
        invariant forall k :: k in pm ==> Elements(pm[k]) == Preds(edges - rest, k)
        decreases rest
      {
        var e :| e in rest;
        ghost var pm0 := pm;
        ghost var done := edges - rest;
        assert Elements(pm[e.target] + [e.source]) == Elements(pm[e.target]) + {e.source};
        pm := pm[e.target := pm[e.target] + [e.source]];
        rest := rest - {e};
        assert edges - rest == done + {e};
        forall k | k in pm
          ensures Elements(pm[k]) == Preds(edges - rest, k)
        {
          if k == e.target {
            assert Preds(done + {e}, k) == Preds(done, k) + {e.source};
          } else {
            assert Preds(done + {e}, k) == Preds(done, k);
          }
        }
      }
      forall k | k in pm
        ensures k in rank && forall j :: 0 <= j < |pm[k]| ==> pm[k][j] in rank && rank[pm[k][j]] < rank[k]
      {
        forall j | 0 <= j < |pm[k]|
          ensures pm[k][j] in rank && rank[pm[k][j]] < rank[k]
        {
          assert pm[k][j] in Elements(pm[k]);
          assert pm[k][j] in Preds(edges, k);
        }
      }
    }

    /** What breadth-first search keeps true of its discovery order: it starts
        at `start`, has no repeated vertex, and holds only vertices reachable
        from `start`; `visited` is the set of its paths. */
    ghost predicate Discovered(start: string, order: seq<Node>, visited: set<string>)
      reads this
    {
      && |order| > 0 && order[0].path == start
      && DistinctPaths(order) && visited == PathsOf(order)
      && (forall j :: 0 <= j < |order| ==> order[j].path in vertices && vertices[order[j].path] == order[j])
      && (forall j :: 0 <= j < |order| ==> Reachable(edges, start, order[j].path))
    }

    /** The children of the first `i` discovered vertices have all been discovered. */
    ghost predicate Explored(order: seq<Node>, visited: set<string>, i: nat)
      reads this
    {
      forall j :: 0 <= j < i && j < |order| ==> Children(edges, order[j].path) <= visited
    }

    lemma ExploredStep(prev: seq<Node>, visited0: set<string>, order: seq<Node>, visited: set<string>,
                       i: nat, adjacent: seq<string>)
      requires i < |prev| && prev <= order && visited0 <= visited
      requires Explored(prev, visited0, i)
      requires Elements(adjacent) == Children(edges, prev[i].path)
      requires forall c :: c in adjacent ==> c in visited
      ensures Explored(order, visited, i + 1)
    {
      forall j | 0 <= j < i + 1 && j < |order|
        ensures Children(edges, order[j].path) <= visited
      {
        assert order[j] == prev[j];
        if j == i {
          forall c | c in Children(edges, prev[i].path)
            ensures c in visited
          {
            assert c in Elements(adjacent);
          }
        }
      }
    }

    /** Appending an undiscovered child of a discovered vertex keeps the order discovered. */
    lemma DiscoverStep(start: string, order: seq<Node>, visited: set<string>, current: string, c: string)
      requires Valid() && Discovered(start, order, visited) && current in visited
      requires Edge(current, c) in edges && c !in visited
      ensures Discovered(start, order + [vertices[c]], visited + {c})
    {
      var j :| 0 <= j < |order| && order[j].path == current;
      ReachAppend(edges, start, current, c);
      PathsOfAppend(order, vertices[c]);
      var o := order + [vertices[c]];
      forall i, k | 0 <= i < k < |o|
        ensures o[i].path != o[k].path
      {
        if k == |order| {
          assert o[i].path in PathsOf(order);
        }
      }
    }

    /** One step of the search: the undiscovered vertices among `adjacent`,
        the children of `current`, are appended in turn. */
    method Discover(start: string, order: seq<Node>, visited: set<string>, current: string, adjacent: seq<string>)
        returns (order': seq<Node>, visited': set<string>)
      requires Valid() && Discovered(start, order, visited) && current in visited
      requires forall c :: c in adjacent ==> Edge(current, c) in edges
      ensures Discovered(start, order', visited')
      ensures order <= order' && visited <= visited' && |order'| <= |vertices|
      ensures forall c :: c in adjacent ==> c in visited'
    {
      order', visited' := order, visited;
      var k := 0;
      while k < |adjacent|
        invariant 0 <= k <= |adjacent|
        invariant Discovered(start, order', visited')
        invariant order <= order' && visited <= visited'
        invariant forall m :: 0 <= m < k ==> adjacent[m] in visited'
      {
        var c := adjacent[k];
        if c !in visited' {
          assert c in adjacent;
          DiscoverStep(start, order', visited', current, c);
          order' := order' + [vertices[c]];
          visited' := visited' + {c};
        }
        k := k + 1;
      }
      DistinctPathsCard(order');
      SubsetCard(PathsOf(order'), vertices.Keys);
      assert |vertices.Keys| == |vertices|;
    }

    /** The breadth-first visiting order from the start node over the
        adjacency map taken when the search begins. */
    method BfsOrder() returns (r: Result<seq<Node>>)
      requires Valid()
      ensures r.Err? <==> startNode.path !in vertices
      ensures r.Err? ==> r.error == "could not find start vertex with hash " + startNode.path
      ensures r.Ok? ==> Discovered(startNode.path, r.value, PathsOf(r.value))
      ensures r.Ok? ==> forall y :: Reachable(edges, startNode.path, y) ==> y in PathsOf(r.value)
    {
      var start := startNode.path;
      if start !in vertices {
        return Err("could not find start vertex with hash " + start);
      }
      var am := AdjacencyMap();
      var order := [vertices[start]];
      var visited := {start};
      ReachRefl(edges, start);
      PathsOfAppend([], vertices[start]);
      assert [] + [vertices[start]] == order;
      var i := 0;
      while i < |order|
        invariant 0 <= i <= |order| <= |vertices|
        invariant Discovered(start, order, visited)
        invariant Explored(order, visited, i)
        decreases |vertices| - i
      {
        var current := order[i].path;
        var adjacent := am[current];
        assert forall c :: c in adjacent ==> c in Elements(adjacent);
        ghost var prev, visited0 := order, visited;
        order, visited := Discover(start, order, visited, current, adjacent);
        ExploredStep(prev, visited0, order, visited, i, adjacent);
        i := i + 1;
      }
      ClosedUnderChildren(start, order, visited);
      return Ok(order);
    }

    lemma ClosedUnderChildren(start: string, order: seq<Node>, visited: set<string>)
      requires Discovered(start, order, visited)
      requires Explored(order, visited, |order|)
      ensures forall y :: Reachable(edges, start, y) ==> y in visited
    {
      forall y | Reachable(edges, start, y)
        ensures y in visited
      {
        var s :| IsPath(edges, s) && s[0] == start && s[|s| - 1] == y;
        forall v | v in visited
          ensures Children(edges, v) <= visited
        {
          var j :| 0 <= j < |order| && order[j].path == v;
        }
        ClosedHoldsReachable(edges, visited, s);
      }
    }

    /** Routes: the predecessor paths enumerated from every predecessor of `source`. */
    method Routes(source: string, target: string) returns (routes: seq<GraphPaths.Path>)
      requires Valid()
      ensures |Preds(edges, source)| == 0 ==> routes == []
      ensures forall k :: 0 <= k < |routes| ==> |routes[k]| > 0 && routes[k][0] in Preds(edges, source)
    {
      routes := [];
      var m := PredecessorMap();
      var eg := GraphPaths.Parents(m, source);
      assert source in vertices ==> Elements(eg) == Preds(edges, source);
      assert source !in vertices ==> Preds(edges, source) == {};
      if |eg| > 0 {
        assert eg[0] in Elements(eg);
        assert eg[0] in Preds(edges, source);
      }
      var i := 0;
      while i < |eg|
        invariant 0 <= i <= |eg|
        invariant i == 0 ==> routes == []
        invariant forall k :: 0 <= k < |routes| ==> |routes[k]| > 0 && routes[k][0] in Preds(edges, source)
      {
        var p := [eg[i]];
        var newRoutes := GraphPaths.FetchPathsToTarget(eg[i], target, m, p, rank);
        GraphPaths.FetchExtendsCurrentPath(eg[i], target, m, p, rank);
        assert eg[i] in Elements(eg);
        assert eg[i] in Preds(edges, source);
        routes := routes + newRoutes;
        i := i + 1;
      }
    }
  }
}
