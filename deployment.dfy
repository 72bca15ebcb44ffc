/** The deployment-graph reducer (internal/dependency/deployment.go): every
    node that is not independent is folded into its parent site, and the graph
    is rewired around it so that what was reachable stays reachable. */
module Deployment {
  import opened Wrappers
  import opened DependencyNode
  import opened DependencyGraph

  /** The rewrite of one vertex `p`: the edges touching `p` are dropped and
      every predecessor of `p` is connected to every child of `p`. */
  function AbsorbEdges(edges: set<Edge>, p: string): set<Edge> {
    (set e | e in edges && e.source != p && e.target != p)
      + (set a, c | a in Preds(edges, p) && c in Children(edges, p) :: Edge(a, c))
  }

  ghost function OutEdges(p: string, cs: seq<string>): set<Edge> {
    set c | c in cs :: Edge(p, c)
  }

  ghost function InEdges(ps: seq<string>, c: string): set<Edge> {
    set a | a in ps :: Edge(a, c)
  }

  ghost function Cross(ps: seq<string>, cs: seq<string>): set<Edge> {
    set a, c | a in ps && c in cs :: Edge(a, c)
  }

  lemma OutEdgesAppend(p: string, cs: seq<string>, i: nat)
    requires i < |cs|
    ensures OutEdges(p, cs[..i + 1]) == OutEdges(p, cs[..i]) + {Edge(p, cs[i])}
  {
    assert cs[..i + 1] == cs[..i] + [cs[i]];
  }

  lemma InEdgesAppend(ps: seq<string>, c: string, i: nat)
    requires i < |ps|
    ensures InEdges(ps[..i + 1], c) == InEdges(ps[..i], c) + {Edge(ps[i], c)}
  {
    assert ps[..i + 1] == ps[..i] + [ps[i]];
  }

  lemma CrossAppend(ps: seq<string>, cs: seq<string>, j: nat)
    requires j < |cs|
    ensures Cross(ps, cs[..j + 1]) == Cross(ps, cs[..j]) + InEdges(ps, cs[j])
  {
    assert cs[..j + 1] == cs[..j] + [cs[j]];
  }

  /** The first step of absorbing `p`: drops the edges from `p` to each listed child. */
  method RemoveOutEdges(g: Graph, p: string, childEdges: seq<string>)
    requires g.Valid()
    modifies g`edges
    ensures g.Valid()
    ensures g.edges == old(g.edges) - OutEdges(p, childEdges)
  {
    var i := 0;
    while i < |childEdges|
      invariant 0 <= i <= |childEdges|
      invariant g.Valid()
      invariant g.edges == old(g.edges) - OutEdges(p, childEdges[..i])
    {
      OutEdgesAppend(p, childEdges, i);
      g.RemoveEdge(p, childEdges[i]);
      i := i + 1;
    }
    assert childEdges[..i] == childEdges;
  }

  /** The second step: drops the edges from each listed predecessor into `p`. */
  method RemoveInEdges(g: Graph, parentEdges: seq<string>, p: string)
    requires g.Valid()
    modifies g`edges
    ensures g.Valid()
    ensures g.edges == old(g.edges) - InEdges(parentEdges, p)
  {
    var i := 0;
    while i < |parentEdges|
      invariant 0 <= i <= |parentEdges|
      invariant g.Valid()
      invariant g.edges == old(g.edges) - InEdges(parentEdges[..i], p)
    {
      InEdgesAppend(parentEdges, p, i);
      g.RemoveEdge(parentEdges[i], p);
      i := i + 1;
    }
    assert parentEdges[..i] == parentEdges;
  }

  /** Every predecessor-to-child pair joins vertices of the graph and follows the ranking. */
  ghost predicate Bypassable(vs: set<string>, rank: map<string, nat>, parentEdges: seq<string>, childEdges: seq<string>) {
    forall a, c :: a in parentEdges && c in childEdges ==>
      a in vs && c in vs && a in rank && c in rank && rank[a] < rank[c]
  }

  /** The third step: for each child and each predecessor, adds the edge
      predecessor to child unless it is already there. */
  method ConnectAll(g: Graph, parentEdges: seq<string>, childEdges: seq<string>)
    requires g.Valid()
    requires Bypassable(g.vertices.Keys, g.rank, parentEdges, childEdges)
    modifies g`edges
    ensures g.Valid()
    ensures g.edges == old(g.edges) + Cross(parentEdges, childEdges)
  {
    var j := 0;
    while j < |childEdges|
      invariant 0 <= j <= |childEdges|
      invariant g.Valid()
      invariant g.edges == old(g.edges) + Cross(parentEdges, childEdges[..j])
    {
      var c := childEdges[j];
      assert c in childEdges;
      ConnectParents(g, parentEdges, c);
      CrossAppend(parentEdges, childEdges, j);
      j := j + 1;
    }
    assert childEdges[..j] == childEdges;
  }

  /** The inner loop of the third step: every predecessor gets an edge to
      child `c` unless it has one already. */
  method ConnectParents(g: Graph, parentEdges: seq<string>, c: string)
    requires g.Valid()
    requires forall a :: a in parentEdges ==>
               a in g.vertices && c in g.vertices && a in g.rank && c in g.rank && g.rank[a] < g.rank[c]
    modifies g`edges
    ensures g.Valid()
    ensures g.edges == old(g.edges) + InEdges(parentEdges, c)
  {
    var k := 0;
    while k < |parentEdges|
      invariant 0 <= k <= |parentEdges|
      invariant g.Valid()
      invariant g.edges == old(g.edges) + InEdges(parentEdges[..k], c)
    {
      var a := parentEdges[k];
      InEdgesAppend(parentEdges, c, k);
      if Edge(a, c) !in g.edges {
        g.AddEdge(a, c);
      }
      k := k + 1;
    }
    assert parentEdges[..k] == parentEdges;
  }

  /** Absorbs vertex `p`: removes its outgoing edges, then its incoming ones,
      connects each predecessor to each child where no such edge exists yet,
      and finally removes the vertex. */
  method AbsorbVertex(g: Graph, p: string)
    requires g.Valid() && p in g.vertices
    modifies g`edges, g`vertices
    ensures g.Valid()
    ensures g.edges == AbsorbEdges(old(g.edges), p)
    ensures g.vertices == old(g.vertices) - {p}
  {
    ghost var e0 := g.edges;
    ghost var v0 := g.vertices.Keys;
    var am := g.AdjacencyMap();
    var pm := g.PredecessorMap();
    var childEdges := am[p];
    var parentEdges := pm[p];

    RemoveOutEdges(g, p, childEdges);
    RemoveInEdges(g, parentEdges, p);
    AbsorbSteps(e0, p, childEdges, parentEdges);
    BypassesRanked(e0, g.rank, v0, p, childEdges, parentEdges);
    ConnectAll(g, parentEdges, childEdges);
    g.RemoveVertex(p);
  }

  /** The edges that bypass `p` join vertices of the graph, follow the ranking
      and avoid `p`. */
  lemma BypassesRanked(e0: set<Edge>, rank: map<string, nat>, vs: set<string>, p: string,
                       childEdges: seq<string>, parentEdges: seq<string>)
    requires Ranked(e0, rank) && EdgesWithin(e0, vs)
    requires Elements(childEdges) == Children(e0, p)
    requires Elements(parentEdges) == Preds(e0, p)
    ensures Bypassable(vs, rank, parentEdges, childEdges)
    ensures forall e :: e in Cross(parentEdges, childEdges) ==> e.source != p && e.target != p
  {
    forall a, c | a in parentEdges && c in childEdges
      ensures a in vs && c in vs && a in rank && c in rank && rank[a] < rank[c] && a != p && c != p
    {
      assert a in Elements(parentEdges) && c in Elements(childEdges);
      assert Edge(a, p) in e0 && Edge(p, c) in e0;
    }
  }

  /** The three steps of AbsorbVertex compose to AbsorbEdges. */
  lemma AbsorbSteps(e0: set<Edge>, p: string, childEdges: seq<string>, parentEdges: seq<string>)
    requires Elements(childEdges) == Children(e0, p)
    requires Elements(parentEdges) == Preds(e0, p)
    ensures (e0 - OutEdges(p, childEdges)) - InEdges(parentEdges, p)
         == set e | e in e0 && e.source != p && e.target != p
    ensures (e0 - OutEdges(p, childEdges)) - InEdges(parentEdges, p) + Cross(parentEdges, childEdges)
         == AbsorbEdges(e0, p)
  {
    var e2 := (e0 - OutEdges(p, childEdges)) - InEdges(parentEdges, p);
    forall e | e in e0 && e.source == p
      ensures e in OutEdges(p, childEdges)
    {
      assert e.target in Children(e0, p);
      assert e.target in Elements(childEdges);
    }
    forall e | e in e0 && e.target == p
      ensures e in InEdges(parentEdges, p)
    {
      assert e.source in Preds(e0, p);
      assert e.source in Elements(parentEdges);
    }
    assert e2 == set e | e in e0 && e.source != p && e.target != p;
    forall e | e in Cross(parentEdges, childEdges)
      ensures e.source in Preds(e0, p) && e.target in Children(e0, p)
    {
      assert e.source in Elements(parentEdges) && e.target in Elements(childEdges);
    }
    forall a, c | a in Preds(e0, p) && c in Children(e0, p)
      ensures Edge(a, c) in Cross(parentEdges, childEdges)
    {
      assert a in Elements(parentEdges) && c in Elements(childEdges);
    }
  }

  /** An independent statement of AbsorbEdges on an acyclic graph: an edge
      survives the rewrite iff it avoids `p` and either was there before or
      bypasses `p` (its source was a predecessor and its target a child). */
  lemma AbsorbEdgesCharacterised(edges: set<Edge>, rank: map<string, nat>, p: string, e: Edge)
    requires Ranked(edges, rank)
    ensures e in AbsorbEdges(edges, p) <==>
              e.source != p && e.target != p &&
              (e in edges || (Edge(e.source, p) in edges && Edge(p, e.target) in edges))
  {
    if e in AbsorbEdges(edges, p) && e !in edges {
      assert e.source in Preds(edges, p) && e.target in Children(edges, p);
      assert Edge(e.source, p) in edges && Edge(p, e.target) in edges;
    }
    if e.source != p && e.target != p && e !in edges && Edge(e.source, p) in edges && Edge(p, e.target) in edges {
      assert e.source in Preds(edges, p) && e.target in Children(edges, p);
    }
  }

  /** The rewrite keeps the graph acyclic: the same ranking still grows along every edge. */
  lemma AbsorbKeepsRanked(edges: set<Edge>, rank: map<string, nat>, p: string)
    requires Ranked(edges, rank)
    ensures Ranked(AbsorbEdges(edges, p), rank)
  {
    forall e | e in AbsorbEdges(edges, p)
      ensures e.source in rank && e.target in rank && rank[e.source] < rank[e.target]
    {
      AbsorbEdgesCharacterised(edges, rank, p, e);
    }
  }

  /** A walk that avoids `p` at both ends survives the rewrite of `p`. */
  lemma {:induction false} ForwardWalk(edges: set<Edge>, rank: map<string, nat>, p: string, s: seq<string>)
    requires Ranked(edges, rank) && IsPath(edges, s)
    requires s[0] != p && s[|s| - 1] != p
    ensures Reachable(AbsorbEdges(edges, p), s[0], s[|s| - 1])
    decreases |s|
  {
    var absorbed := AbsorbEdges(edges, p);
    if |s| == 1 {
      ReachRefl(absorbed, s[0]);
    } else if s[1] != p {
      PathSuffix(edges, s, 1);
      ForwardWalk(edges, rank, p, s[1..]);
      AbsorbEdgesCharacterised(edges, rank, p, Edge(s[0], s[1]));
      ReachPrepend(absorbed, s[0], s[1], s[|s| - 1]);
    } else {
      assert Edge(s[1], s[2]) in edges;
      PathSuffix(edges, s, 2);
      ForwardWalk(edges, rank, p, s[2..]);
      AbsorbEdgesCharacterised(edges, rank, p, Edge(s[0], s[2]));
      ReachPrepend(absorbed, s[0], s[2], s[|s| - 1]);
    }
  }

  /** A walk in the rewritten graph expands to one in the original graph. */
  lemma {:induction false} BackwardWalk(edges: set<Edge>, rank: map<string, nat>, p: string, s: seq<string>)
    requires Ranked(edges, rank) && IsPath(AbsorbEdges(edges, p), s)
    ensures Reachable(edges, s[0], s[|s| - 1])
    decreases |s|
  {
    if |s| == 1 {
      ReachRefl(edges, s[0]);
    } else {
      var absorbed := AbsorbEdges(edges, p);
      PathSuffix(absorbed, s, 1);
      BackwardWalk(edges, rank, p, s[1..]);
      assert Edge(s[0], s[1]) in absorbed;
      AbsorbEdgesCharacterised(edges, rank, p, Edge(s[0], s[1]));
      if Edge(s[0], s[1]) in edges {
        ReachPrepend(edges, s[0], s[1], s[|s| - 1]);
      } else {
        ReachPrepend(edges, p, s[1], s[|s| - 1]);
        ReachPrepend(edges, s[0], p, s[|s| - 1]);
      }
    }
  }

  /** Absorbing `p` preserves reachability, in both directions, between any
      two other vertices. */
  lemma AbsorbPreservesReachability(edges: set<Edge>, rank: map<string, nat>, p: string, x: string, y: string)
    requires Ranked(edges, rank) && x != p && y != p
    ensures Reachable(edges, x, y) <==> Reachable(AbsorbEdges(edges, p), x, y)
  {
    if Reachable(edges, x, y) {
      var s :| IsPath(edges, s) && s[0] == x && s[|s| - 1] == y;
      ForwardWalk(edges, rank, p, s);
    }
    if Reachable(AbsorbEdges(edges, p), x, y) {
      var s :| IsPath(AbsorbEdges(edges, p), s) && s[0] == x && s[|s| - 1] == y;
      BackwardWalk(edges, rank, p, s);
    }
  }

  /** The edges after the nodes of `ns` have been visited in order, every node
      that is not independent being absorbed. */
  function ReduceEdges(edges: set<Edge>, ns: seq<Node>): set<Edge> {
    if |ns| == 0 then edges
    else
      var prev := ReduceEdges(edges, ns[..|ns| - 1]);
      var n := ns[|ns| - 1];
      if n.Independent() then prev else AbsorbEdges(prev, n.path)
  }

  /** The paths of the nodes of `ns` that reduction absorbs. */
  function AbsorbedPaths(ns: seq<Node>): set<string> {
    set i | 0 <= i < |ns| && !ns[i].Independent() :: ns[i].path
  }

  /** The configurations `site` collects while the nodes of `ns` are visited in order. */
  function AbsorbedConfigs(ns: seq<Node>, site: Node): seq<SiteComponentConfig> {
    if |ns| == 0 then []
    else
      var n := ns[|ns| - 1];
      AbsorbedConfigs(ns[..|ns| - 1], site) + (if !n.Independent() && n.parent == site then [n.config] else [])
  }

  lemma AbsorbedPathsAppend(ns: seq<Node>, n: Node)
    ensures AbsorbedPaths(ns + [n]) == AbsorbedPaths(ns) + (if n.Independent() then {} else {n.path})
  {
    var ms := ns + [n];
    assert forall i :: 0 <= i < |ns| ==> ms[i] == ns[i];
    assert ms[|ns|] == n;
  }

  lemma {:induction false} ReduceKeepsRanked(edges: set<Edge>, rank: map<string, nat>, ns: seq<Node>)
    requires Ranked(edges, rank)
    ensures Ranked(ReduceEdges(edges, ns), rank)
  {
    if |ns| > 0 {
      ReduceKeepsRanked(edges, rank, ns[..|ns| - 1]);
      AbsorbKeepsRanked(ReduceEdges(edges, ns[..|ns| - 1]), rank, ns[|ns| - 1].path);
    }
  }

  /** Reduction preserves reachability, both ways, between the vertices it keeps. */
  lemma {:induction false} ReducePreservesReachability(edges: set<Edge>, rank: map<string, nat>,
                                                       ns: seq<Node>, x: string, y: string)
    requires Ranked(edges, rank)
    requires x !in AbsorbedPaths(ns) && y !in AbsorbedPaths(ns)
    ensures Reachable(edges, x, y) <==> Reachable(ReduceEdges(edges, ns), x, y)
  {
    if |ns| > 0 {
      var init := ns[..|ns| - 1];
      var n := ns[|ns| - 1];
      assert ns == init + [n];
      AbsorbedPathsAppend(init, n);
      ReducePreservesReachability(edges, rank, init, x, y);
      if !n.Independent() {
        ReduceKeepsRanked(edges, rank, init);
        AbsorbPreservesReachability(ReduceEdges(edges, init), rank, n.path, x, y);
      }
    }
  }

  /** After reduction no edge touches an absorbed vertex. */
  lemma {:induction false} ReduceDetaches(edges: set<Edge>, rank: map<string, nat>, ns: seq<Node>)
    requires Ranked(edges, rank)
    ensures forall e :: e in ReduceEdges(edges, ns) ==>
              e.source !in AbsorbedPaths(ns) && e.target !in AbsorbedPaths(ns)
  {
    if |ns| > 0 {
      var init := ns[..|ns| - 1];
      var n := ns[|ns| - 1];
      assert ns == init + [n];
      AbsorbedPathsAppend(init, n);
      ReduceDetaches(edges, rank, init);
      ReduceKeepsRanked(edges, rank, init);
      var prev := ReduceEdges(edges, init);
      if !n.Independent() {
        forall e | e in AbsorbEdges(prev, n.path)
          ensures e.source !in AbsorbedPaths(ns) && e.target !in AbsorbedPaths(ns)
        {
          AbsorbEdgesCharacterised(prev, rank, n.path, e);
          if e !in prev {
            assert Edge(e.source, n.path) in prev && Edge(n.path, e.target) in prev;
          }
        }
      }
    }
  }

  /** An edge between two vertices reduction keeps is never removed. */
  lemma {:induction false} ReduceKeepsUntouched(edges: set<Edge>, ns: seq<Node>, e: Edge)
    requires e in edges && e.source !in AbsorbedPaths(ns) && e.target !in AbsorbedPaths(ns)
    ensures e in ReduceEdges(edges, ns)
  {
    if |ns| > 0 {
      var init := ns[..|ns| - 1];
      var n := ns[|ns| - 1];
      assert ns == init + [n];
      AbsorbedPathsAppend(init, n);
      ReduceKeepsUntouched(edges, init, e);
    }
  }

  /** No configuration is lost: every absorbed node's configuration is among
      those its parent collects. */
  lemma {:induction false} AbsorbedConfigsKept(ns: seq<Node>, i: nat)
    requires i < |ns| && !ns[i].Independent() && ns[i].parent != null
    ensures ns[i].config in AbsorbedConfigs(ns, ns[i].parent)
  {
    var init := ns[..|ns| - 1];
    if i < |ns| - 1 {
      assert init[i] == ns[i];
      AbsorbedConfigsKept(init, i);
    }
  }

  /** Visiting only independent nodes changes nothing. */
  lemma {:induction false} ReduceIndependent(edges: set<Edge>, ns: seq<Node>, site: Node)
    requires forall j :: 0 <= j < |ns| ==> ns[j].Independent()
    ensures ReduceEdges(edges, ns) == edges
    ensures AbsorbedPaths(ns) == {}
    ensures AbsorbedConfigs(ns, site) == []
  {
    if |ns| > 0 {
      var init := ns[..|ns| - 1];
      assert ns == init + [ns[|ns| - 1]];
      AbsorbedPathsAppend(init, ns[|ns| - 1]);
      ReduceIndependent(edges, init, site);
    }
  }

  /** When `n` is the one node of `ns` that is not independent, reduction
      absorbs exactly `n`, wherever it occurs in the order. */
  lemma ReduceOne(edges: set<Edge>, ns: seq<Node>, n: Node, site: Node)
    requires n in ns && DistinctPaths(ns) && !n.Independent()
    requires forall j :: 0 <= j < |ns| && ns[j] != n ==> ns[j].Independent()
    ensures ReduceEdges(edges, ns) == AbsorbEdges(edges, n.path)
    ensures AbsorbedPaths(ns) == {n.path}
    ensures AbsorbedConfigs(ns, site) == if n.parent == site then [n.config] else []
  {
    ReduceOneSteps(edges, ns, n, site);
    forall p | p in AbsorbedPaths(ns)
      ensures p == n.path
    {
      var i :| 0 <= i < |ns| && !ns[i].Independent() && ns[i].path == p;
    }
    var k :| 0 <= k < |ns| && ns[k] == n;
    assert n.path in AbsorbedPaths(ns);
  }

  lemma {:induction false} ReduceOneSteps(edges: set<Edge>, ns: seq<Node>, n: Node, site: Node)
    requires n in ns && DistinctPaths(ns) && !n.Independent()
    requires forall j :: 0 <= j < |ns| && ns[j] != n ==> ns[j].Independent()
    ensures ReduceEdges(edges, ns) == AbsorbEdges(edges, n.path)
    ensures AbsorbedConfigs(ns, site) == if n.parent == site then [n.config] else []
  {
    var init := ns[..|ns| - 1];
    var last := ns[|ns| - 1];
    if last == n {
      forall j | 0 <= j < |init|
        ensures init[j].Independent()
      {
        assert ns[j].path != ns[|ns| - 1].path;
      }
      ReduceIndependent(edges, init, site);
    } else {
      assert ns == init + [last];
      ReduceOneSteps(edges, init, n, site);
    }
  }

  /** A node reduction cannot absorb: it is not independent and its parent is not a site. */
  predicate Misplaced(n: Node) {
    !n.Independent() && (n.parent == null || n.parent.typ != SiteType)
  }

  /** The index of the first misplaced node, or |ns| when there is none. */
  function FirstMisplaced(ns: seq<Node>): (k: nat)
    ensures k <= |ns|
    ensures forall j :: 0 <= j < k ==> !Misplaced(ns[j])
    ensures k < |ns| ==> Misplaced(ns[k])
  {
    if |ns| == 0 then 0
    else if Misplaced(ns[0]) then 0
    else 1 + FirstMisplaced(ns[1..])
  }

  function ParentError(n: Node): string {
    "node " + n.path + " is expected to have site as parent"
  }

  lemma FirstMisplacedAt(ns: seq<Node>, i: nat)
    requires i <= |ns| && forall j :: 0 <= j < i ==> !Misplaced(ns[j])
    requires i < |ns| ==> Misplaced(ns[i])
    ensures FirstMisplaced(ns) == i
  {
  }

  /** One visit of the reduction, as the fold functions see it. */
  lemma ReduceStep(ns: seq<Node>, i: nat, site: Node)
    requires i < |ns|
    ensures AbsorbedPaths(ns[..i + 1])
         == AbsorbedPaths(ns[..i]) + (if ns[i].Independent() then {} else {ns[i].path})
    ensures AbsorbedConfigs(ns[..i + 1], site)
         == AbsorbedConfigs(ns[..i], site) + (if !ns[i].Independent() && ns[i].parent == site then [ns[i].config] else [])
  {
    assert ns[..i + 1] == ns[..i] + [ns[i]];
    assert ns[..i + 1][..i] == ns[..i];
    AbsorbedPathsAppend(ns[..i], ns[i]);
  }

  lemma EdgesStep(e0: set<Edge>, ns: seq<Node>, i: nat, before: set<Edge>, after: set<Edge>)
    requires i < |ns| && before == ReduceEdges(e0, ns[..i])
    requires after == if ns[i].Independent() then before else AbsorbEdges(before, ns[i].path)
    ensures after == ReduceEdges(e0, ns[..i + 1])
  {
    assert ns[..i + 1][..i] == ns[..i];
  }

  lemma ConfigsStep(ns: seq<Node>, i: nat, s: Node, c: seq<SiteComponentConfig>,
                    before: seq<SiteComponentConfig>, after: seq<SiteComponentConfig>)
    requires i < |ns| && before == c + AbsorbedConfigs(ns[..i], s)
    requires after == before + (if !ns[i].Independent() && ns[i].parent == s then [ns[i].config] else [])
    ensures after == c + AbsorbedConfigs(ns[..i + 1], s)
  {
    ReduceStep(ns, i, s);
    var d := if !ns[i].Independent() && ns[i].parent == s then [ns[i].config] else [];
    assert (c + AbsorbedConfigs(ns[..i], s)) + d == c + (AbsorbedConfigs(ns[..i], s) + d);
  }

  lemma VerticesStep(v0: map<string, Node>, ns: seq<Node>, i: nat, before: map<string, Node>, after: map<string, Node>)
    requires i < |ns| && before == v0 - AbsorbedPaths(ns[..i])
    requires after == if ns[i].Independent() then before else before - {ns[i].path}
    ensures after == v0 - AbsorbedPaths(ns[..i + 1])
  {
    ReduceStep(ns, i, ns[i]);
    if !ns[i].Independent() {
      assert (v0 - AbsorbedPaths(ns[..i])) - {ns[i].path} == v0 - (AbsorbedPaths(ns[..i]) + {ns[i].path});
    }
  }

  /** A node later in a visiting order is not among those absorbed before it. */
  lemma NotYetAbsorbed(ns: seq<Node>, i: nat)
    requires DistinctPaths(ns) && i < |ns|
    ensures ns[i].path !in AbsorbedPaths(ns[..i])
  {
    assert forall j :: 0 <= j < i ==> ns[..i][j].path != ns[i].path;
  }

  /** Folds node `n` into its parent site: the site's nested configurations
      grow by `n`'s configuration, appended at the end, and vertex `n` is absorbed. */
  method AbsorbNode(g: Graph, n: Node)
    requires g.Valid() && n.path in g.vertices && n.parent != null
    modifies g, n.parent`nestedConfigs
    ensures g.Valid() && g.rank == old(g.rank)
    ensures n.parent.nestedConfigs == old(n.parent.nestedConfigs) + [n.config]
    ensures g.edges == AbsorbEdges(old(g.edges), n.path)
    ensures g.vertices == old(g.vertices) - {n.path}
  {
    var site := n.parent;
    site.nestedConfigs := site.nestedConfigs + [n.config];
    AbsorbVertex(g, n.path);
  }

  /** The visit callback of the walk, for the vertex `n`: an independent node
      is left alone; a misplaced one stops the walk with an error; any other
      is absorbed into its parent site. */
  method Visit(g: Graph, n: Node, ghost f0: set<Node>) returns (stop: bool, err: Option<string>)
    requires g.Valid() && n.path in g.vertices
    requires n.parent != null ==> n.parent in f0
    modifies g, f0`nestedConfigs
    ensures stop <==> Misplaced(n)
    ensures err == if stop then Some(ParentError(n)) else None
    ensures stop ==> unchanged(g) && unchanged(f0)
    ensures g.Valid() && g.rank == old(g.rank)
    ensures g.edges == if n.Independent() || stop then old(g.edges) else AbsorbEdges(old(g.edges), n.path)
    ensures g.vertices == if n.Independent() || stop then old(g.vertices) else old(g.vertices) - {n.path}
    ensures forall s :: s in f0 ==>
              s.nestedConfigs == old(s.nestedConfigs) + (if !n.Independent() && !stop && n.parent == s then [n.config] else [])
  {
    if !n.Independent() {
      if n.parent == null || n.parent.typ != SiteType {
        return true, Some(ParentError(n));
      }
      // A node that is not independent is always a site component, so the
      // error for any other kind of node cannot arise.
      assert n.typ == SiteComponentType;
      AbsorbNode(g, n);
    }
    return false, None;
  }

  /** The state of the reduction after the nodes of `done` have been visited,
      measured against the edges `e0`, the vertices `v0` and the nested
      configurations `c0` of the sites in `f0` before the walk. */
  ghost predicate Reduced(g: Graph, e0: set<Edge>, v0: map<string, Node>,
                          f0: set<Node>, c0: map<Node, seq<SiteComponentConfig>>, done: seq<Node>)
    reads g, f0
  {
    && g.edges == ReduceEdges(e0, done)
    && g.vertices == v0 - AbsorbedPaths(done)
    && forall s :: s in f0 ==> s in c0 && s.nestedConfigs == c0[s] + AbsorbedConfigs(done, s)
  }

  /** Visits `nodes[i]` and carries the reduction state one node further. */
  method VisitNext(g: Graph, nodes: seq<Node>, i: nat, ghost e0: set<Edge>, ghost v0: map<string, Node>,
                   ghost f0: set<Node>, ghost c0: map<Node, seq<SiteComponentConfig>>)
      returns (stop: bool, err: Option<string>)
    requires g.Valid() && i < |nodes|
    requires nodes[i].path in v0 && nodes[i].path !in AbsorbedPaths(nodes[..i])
    requires nodes[i].parent != null ==> nodes[i].parent in f0
    requires Reduced(g, e0, v0, f0, c0, nodes[..i])
    modifies g, f0`nestedConfigs
    ensures stop <==> Misplaced(nodes[i])
    ensures err == if stop then Some(ParentError(nodes[i])) else None
    ensures g.Valid() && g.rank == old(g.rank)
    ensures stop ==> Reduced(g, e0, v0, f0, c0, nodes[..i])
    ensures !stop ==> Reduced(g, e0, v0, f0, c0, nodes[..i + 1])
  {
    var n := nodes[i];
    ghost var before, beforeVertices := g.edges, g.vertices;
    stop, err := Visit(g, n, f0);
    if stop {
      return;
    }
    EdgesStep(e0, nodes, i, before, g.edges);
    VerticesStep(v0, nodes, i, beforeVertices, g.vertices);
    forall s | s in f0
      ensures s.nestedConfigs == c0[s] + AbsorbedConfigs(nodes[..i + 1], s)
    {
      ConfigsStep(nodes, i, s, c0[s], old(s.nestedConfigs), s.nestedConfigs);
    }
  }

  /** The reduction loop over a visiting order: each node is visited in turn
      until a visit stops the walk. */
  method ReduceOrder(g: Graph, nodes: seq<Node>) returns (err: Option<string>)
    requires g.Valid() && DistinctPaths(nodes)
    requires forall i :: 0 <= i < |nodes| ==> nodes[i].path in g.vertices && g.vertices[nodes[i].path] == nodes[i]
    modifies g, g.Footprint()`nestedConfigs
    ensures g.Valid() && g.rank == old(g.rank)
    ensures var k := FirstMisplaced(nodes);
              && err == (if k < |nodes| then Some(ParentError(nodes[k])) else None)
              && g.edges == ReduceEdges(old(g.edges), nodes[..k])
              && g.vertices == old(g.vertices) - AbsorbedPaths(nodes[..k])
    ensures forall s :: s in old(g.Footprint()) ==>
              s.nestedConfigs == old(s.nestedConfigs) + AbsorbedConfigs(nodes[..FirstMisplaced(nodes)], s)
  {
    ghost var e0, v0, f0 := g.edges, g.vertices, g.Footprint();
    ghost var c0 := map s | s in f0 :: s.nestedConfigs;
    forall j | 0 <= j < |nodes| && nodes[j].parent != null
      ensures nodes[j].parent in f0
    {
      assert nodes[j].path in v0;
    }
    assert nodes[..0] == [];
    var i := 0;
    while i < |nodes|
      invariant 0 <= i <= |nodes|
      invariant forall j :: 0 <= j < i ==> !Misplaced(nodes[j])
      invariant g.Valid() && g.rank == old(g.rank)
      invariant Reduced(g, e0, v0, f0, c0, nodes[..i])
    {
      NotYetAbsorbed(nodes, i);
      var stop, visitErr := VisitNext(g, nodes, i, e0, v0, f0, c0);
      if stop {
        FirstMisplacedAt(nodes, i);
        return visitErr;
      }
      i := i + 1;
    }
    assert nodes[..i] == nodes;
    FirstMisplacedAt(nodes, i);
    err := None;
  }

  /** The order a breadth-first walk from `start` visits vertices in: it
      begins at `start`, repeats no vertex, takes its nodes from `v0`, and
      holds exactly the vertices reachable from `start`. */
  ghost predicate VisitingOrder(e0: set<Edge>, v0: map<string, Node>, start: string, order: seq<Node>) {
    && |order| > 0 && order[0].path == start && DistinctPaths(order)
    && (forall i :: 0 <= i < |order| ==>
          order[i].path in v0 && v0[order[i].path] == order[i] && Reachable(e0, start, order[i].path))
    && (forall y :: Reachable(e0, start, y) ==> y in PathsOf(order))
  }

  /** What one run of the reducer from `start` yields on the edges `e0` and
      the vertices `v0`: an error when the start vertex is missing, and
      otherwise the fold of the visiting order up to its first misplaced node,
      whose error is reported. */
  ghost predicate ReductionOutcome(e0: set<Edge>, v0: map<string, Node>, start: string, order: seq<Node>,
                                   err: Option<string>, edges: set<Edge>, vertices: map<string, Node>) {
    if start !in v0 then
      && order == [] && err == Some("could not find start vertex with hash " + start)
      && edges == e0 && vertices == v0
    else
      && VisitingOrder(e0, v0, start, order)
      && var k := FirstMisplaced(order);
      && err == (if k < |order| then Some(ParentError(order[k])) else None)
      && edges == ReduceEdges(e0, order[..k])
      && vertices == v0 - AbsorbedPaths(order[..k])
  }

  /** reduceNodes: the breadth-first walk from the start node, with the
      reduction loop applied to each vertex in visiting order. `order` is that
      order, which depends on the iteration order of the graph's maps. */
  method ReduceNodes(g: Graph) returns (err: Option<string>, ghost order: seq<Node>)
    requires g.Valid()
    modifies g, g.Footprint()`nestedConfigs
    ensures g.Valid() && g.rank == old(g.rank)
    ensures ReductionOutcome(old(g.edges), old(g.vertices), g.startNode.path, order, err, g.edges, g.vertices)
    ensures forall s :: s in old(g.Footprint()) ==>
              s.nestedConfigs == old(s.nestedConfigs) + AbsorbedConfigs(order[..FirstMisplaced(order)], s)
  {
    var bfs := g.BfsOrder();
    if bfs.Err? {
      return Some(bfs.error), [];
    }
    order := bfs.value;
    err := ReduceOrder(g, bfs.value);
  }

  /** Builds the deployment graph: the dependency graph's construction error,
      then the validation error, are reported before any reduction, which
      then changes nothing; otherwise the outcome is the reducer's. */
  method ToDeploymentGraph(built: Result<Graph>, validationError: Option<string>)
      returns (r: Result<Graph>, ghost order: seq<Node>)
    requires built.Ok? ==> built.value.Valid()
    modifies if built.Ok? then {built.value} else {}
    modifies (if built.Ok? then built.value.Footprint() else {})`nestedConfigs
    ensures built.Err? ==> r == Err(built.error) && order == []
    ensures built.Ok? && validationError.Some? ==>
              && r == Err(validationError.value) && order == [] && unchanged(built.value)
              && forall s :: s in old(built.value.Footprint()) ==> s.nestedConfigs == old(s.nestedConfigs)
    ensures built.Ok? && validationError.None? ==>
              && built.value.Valid() && built.value.rank == old(built.value.rank)
              && (r.Ok? ==> r.value == built.value)
              && ReductionOutcome(old(built.value.edges), old(built.value.vertices), built.value.startNode.path,
                                  order, if r.Ok? then None else Some(r.error),
                                  built.value.edges, built.value.vertices)
              && forall s :: s in old(built.value.Footprint()) ==>
                   s.nestedConfigs == old(s.nestedConfigs) + AbsorbedConfigs(order[..FirstMisplaced(order)], s)
  {
    if built.Err? {
      return Err(built.error), [];
    }
    var g := built.value;
    if validationError.Some? {
      return Err(validationError.value), [];
    }
    var err;
    err, order := ReduceNodes(g);
    if err.Some? {
      return Err(err.value), order;
    }
    return Ok(g), order;
  }

  /** A vertex absorbed by reduction is the path of a node of the order that
      is not independent. */
  lemma AbsorbedPathsMember(ns: seq<Node>, i: nat)
    requires i < |ns|
    ensures ns[i].Independent() || ns[i].path in AbsorbedPaths(ns)
  {
  }

  /** The visiting order holds exactly the vertices reachable from the start. */
  lemma VisitingOrderPaths(e0: set<Edge>, v0: map<string, Node>, start: string, order: seq<Node>, y: string)
    requires VisitingOrder(e0, v0, start, order)
    ensures y in PathsOf(order) <==> Reachable(e0, start, y)
  {
    if y in PathsOf(order) {
      var i :| 0 <= i < |order| && order[i].path == y;
    }
  }

  /** After a reduction that absorbed the whole visiting order, every vertex
      left that is reachable from the start is independent. */
  lemma {:induction false} ReducedNodesIndependent(e0: set<Edge>, rank: map<string, nat>, v0: map<string, Node>,
                                                   start: string, order: seq<Node>, y: string)
    requires Ranked(e0, rank) && VisitingOrder(e0, v0, start, order)
    requires y in v0 && y !in AbsorbedPaths(order)
    requires Reachable(ReduceEdges(e0, order), start, y)
    ensures v0[y].Independent()
  {
    var s :| IsPath(ReduceEdges(e0, order), s) && s[0] == start && s[|s| - 1] == y;
    if |s| > 1 {
      assert Edge(s[0], s[1]) in ReduceEdges(e0, order);
      ReduceDetaches(e0, rank, order);
    }
    ReducePreservesReachability(e0, rank, order, start, y);
    VisitingOrderPaths(e0, v0, start, order, y);
    var i :| 0 <= i < |order| && order[i].path == y;
    AbsorbedPathsMember(order, i);
  }

  /** Reduction is idempotent: when a run succeeds from an independent start
      vertex, a second run on its result succeeds, absorbs nothing and changes
      neither the edges, the vertices nor any site's configurations. */
  lemma ReduceIdempotent(e0: set<Edge>, rank: map<string, nat>, v0: map<string, Node>, start: string,
                         order: seq<Node>, e1: set<Edge>, v1: map<string, Node>,
                         again: seq<Node>, err: Option<string>, e2: set<Edge>, v2: map<string, Node>)
    requires Ranked(e0, rank) && start in v0 && v0[start].Independent()
    requires ReductionOutcome(e0, v0, start, order, None, e1, v1)
    requires ReductionOutcome(e1, v1, start, again, err, e2, v2)
    ensures err == None && e2 == e1 && v2 == v1
    ensures forall s :: AbsorbedConfigs(again[..FirstMisplaced(again)], s) == []
  {
    Succeeded(e0, v0, start, order, e1, v1);
    AbsorbedPathsMember(order, 0);
    assert start in v1;
    AgainIndependent(e0, rank, v0, start, order, again);
    AllIndependentUnchanged(e1, v1, again, FirstMisplaced(again), err, e2, v2);
  }

  /** A walk that meets only independent nodes reports no error and changes
      nothing. */
  lemma AllIndependentUnchanged(e1: set<Edge>, v1: map<string, Node>, again: seq<Node>, k: nat,
                                err: Option<string>, e2: set<Edge>, v2: map<string, Node>)
    requires forall j :: 0 <= j < |again| ==> again[j].Independent()
    requires k == FirstMisplaced(again)
    requires err == (if k < |again| then Some(ParentError(again[k])) else None)
    requires e2 == ReduceEdges(e1, again[..k]) && v2 == v1 - AbsorbedPaths(again[..k])
    ensures err == None && e2 == e1 && v2 == v1
    ensures forall s :: AbsorbedConfigs(again[..k], s) == []
  {
    FirstMisplacedAt(again, |again|);
    assert again[..k] == again;
    forall s {
      ReduceIndependent(e1, again, s);
    }
    if |again| > 0 {
      ReduceIndependent(e1, again, again[0]);
    }
    assert v1 - {} == v1;
  }

  /** The nodes a second walk visits on the reduced graph are all independent. */
  lemma AgainIndependent(e0: set<Edge>, rank: map<string, nat>, v0: map<string, Node>, start: string,
                         order: seq<Node>, again: seq<Node>)
    requires Ranked(e0, rank) && VisitingOrder(e0, v0, start, order)
    requires VisitingOrder(ReduceEdges(e0, order), v0 - AbsorbedPaths(order), start, again)
    ensures forall j :: 0 <= j < |again| ==> again[j].Independent()
  {
    forall j | 0 <= j < |again|
      ensures again[j].Independent()
    {
      ReducedNodesIndependent(e0, rank, v0, start, order, again[j].path);
    }
  }

  /** `x` reaches `y` along at least one edge, every vertex passed on the way
      being in `through`. */
  ghost predicate Bridged(edges: set<Edge>, through: set<string>, x: string, y: string) {
    exists s :: IsPath(edges, s) && |s| >= 2 && s[0] == x && s[|s| - 1] == y
                && forall i :: 0 < i < |s| - 1 ==> s[i] in through
  }

  lemma BridgedWiden(edges: set<Edge>, a: set<string>, b: set<string>, x: string, y: string)
    requires a <= b && Bridged(edges, a, x, y)
    ensures Bridged(edges, b, x, y)
  {
    var s :| IsPath(edges, s) && |s| >= 2 && s[0] == x && s[|s| - 1] == y
             && forall i :: 0 < i < |s| - 1 ==> s[i] in a;
    assert forall i :: 0 < i < |s| - 1 ==> s[i] in b;
  }

  /** A bridge to `p` and one from `p` make a bridge through `p`. */
  lemma BridgedJoin(edges: set<Edge>, a: set<string>, x: string, p: string, y: string)
    requires Bridged(edges, a, x, p) && Bridged(edges, a, p, y)
    ensures Bridged(edges, a + {p}, x, y)
  {
    var s :| IsPath(edges, s) && |s| >= 2 && s[0] == x && s[|s| - 1] == p
             && forall i :: 0 < i < |s| - 1 ==> s[i] in a;
    var t :| IsPath(edges, t) && |t| >= 2 && t[0] == p && t[|t| - 1] == y
             && forall i :: 0 < i < |t| - 1 ==> t[i] in a;
    PathJoin(edges, s, t);
    var u := s + t[1..];
    forall i | 0 < i < |u| - 1
      ensures u[i] in a + {p}
    {
      if i < |s| - 1 {
        assert u[i] == s[i];
      } else if i == |s| - 1 {
        assert u[i] == p;
      } else {
        assert u[i] == t[i - |s| + 1];
      }
    }
    assert u[0] == x && u[|u| - 1] == y;
  }

  /** A bridge through `a` and `p` either avoids `p` or passes it: then it
      splits at the first and at the last visit into bridges through `a`. */
  lemma BridgedSplit(edges: set<Edge>, a: set<string>, p: string, x: string, y: string)
    requires x != p && y != p && Bridged(edges, a + {p}, x, y)
    ensures Bridged(edges, a, x, y) || (Bridged(edges, a, x, p) && Bridged(edges, a, p, y))
  {
    var s :| IsPath(edges, s) && |s| >= 2 && s[0] == x && s[|s| - 1] == y
             && forall i :: 0 < i < |s| - 1 ==> s[i] in a + {p};
    var inner := s[1..|s| - 1];
    if p !in inner {
      forall i | 0 < i < |s| - 1
        ensures s[i] in a
      {
        assert s[i] == inner[i - 1];
      }
    } else {
      var i0 := FirstOccurrence(inner, p);
      var j0 := LastOccurrence(inner, p);
      forall k | 0 < k < i0 + 1
        ensures s[k] in a
      {
        assert s[k] == inner[k - 1];
      }
      forall k | j0 + 1 < k < |s| - 1
        ensures s[k] in a
      {
        assert s[k] == inner[k - 1];
      }
      assert s[i0 + 1] == p && s[j0 + 1] == p;
      BridgeBefore(edges, a, s, i0 + 1);
      BridgeAfter(edges, a, s, j0 + 1);
    }
  }

  /** The walk up to an inner position whose earlier inner vertices are in
      `a` is a bridge through `a`. */
  lemma BridgeBefore(edges: set<Edge>, a: set<string>, s: seq<string>, i: nat)
    requires IsPath(edges, s) && 0 < i < |s|
    requires forall k :: 0 < k < i ==> s[k] in a
    ensures Bridged(edges, a, s[0], s[i])
  {
    PathPrefix(edges, s, i + 1);
    var pre := s[..i + 1];
    assert forall k :: 0 < k < |pre| - 1 ==> pre[k] == s[k];
    assert pre[0] == s[0] && pre[|pre| - 1] == s[i];
  }

  /** The walk from an inner position whose later inner vertices are in `a`
      is a bridge through `a`. */
  lemma BridgeAfter(edges: set<Edge>, a: set<string>, s: seq<string>, j: nat)
    requires IsPath(edges, s) && j < |s| - 1
    requires forall k :: j < k < |s| - 1 ==> s[k] in a
    ensures Bridged(edges, a, s[j], s[|s| - 1])
  {
    PathSuffix(edges, s, j);
    var suf := s[j..];
    assert forall k :: 0 < k < |suf| - 1 ==> suf[k] == s[j + k];
    assert suf[0] == s[j] && suf[|suf| - 1] == s[|s| - 1];
  }

  /** An independent, closed statement of the reduced edges: an edge joins two
      vertices that were not absorbed, and exists exactly when the original
      graph has a walk between them whose inner vertices were all absorbed.
      It mentions the absorbed set only, not the order of the visits. */
  lemma {:induction false} ReduceEdgesClosedForm(edges: set<Edge>, rank: map<string, nat>, ns: seq<Node>,
                                                 x: string, y: string)
    requires Ranked(edges, rank)
    ensures Edge(x, y) in ReduceEdges(edges, ns) <==>
              x !in AbsorbedPaths(ns) && y !in AbsorbedPaths(ns) && Bridged(edges, AbsorbedPaths(ns), x, y)
    decreases |ns|
  {
    if |ns| == 0 {
      assert AbsorbedPaths(ns) == {};
      if Edge(x, y) in edges {
        var s := [x, y];
        assert IsPath(edges, s) && s[0] == x && s[|s| - 1] == y;
      }
      var none := AbsorbedPaths(ns);
      if Bridged(edges, none, x, y) {
        var s :| IsPath(edges, s) && |s| >= 2 && s[0] == x && s[|s| - 1] == y
                 && forall i :: 0 < i < |s| - 1 ==> s[i] in none;
        assert s[1] == s[|s| - 1];
        assert Edge(s[0], s[1]) in edges;
      }
    } else {
      var init := ns[..|ns| - 1];
      var n := ns[|ns| - 1];
      var p := n.path;
      var a := AbsorbedPaths(init);
      assert ns == init + [n];
      AbsorbedPathsAppend(init, n);
      ReduceEdgesClosedForm(edges, rank, init, x, y);
      if !n.Independent() {
        var prev := ReduceEdges(edges, init);
        ReduceKeepsRanked(edges, rank, init);
        AbsorbEdgesCharacterised(prev, rank, p, Edge(x, y));
        ReduceEdgesClosedForm(edges, rank, init, x, p);
        ReduceEdgesClosedForm(edges, rank, init, p, y);
        if Edge(x, y) in AbsorbEdges(prev, p) {
          if Edge(x, y) in prev {
            BridgedWiden(edges, a, a + {p}, x, y);
          } else {
            BridgedJoin(edges, a, x, p, y);
          }
        }
        if x !in a + {p} && y !in a + {p} && Bridged(edges, a + {p}, x, y) {
          if p in a {
            assert a + {p} == a;
          } else {
            BridgedSplit(edges, a, p, x, y);
          }
        }
      }
    }
  }

  /** The configurations a site collects are those of the nodes of the order
      it absorbs. */
  lemma {:induction false} AbsorbedConfigsMembers(ns: seq<Node>, site: Node, c: SiteComponentConfig)
    ensures c in AbsorbedConfigs(ns, site) <==>
              exists i :: 0 <= i < |ns| && !ns[i].Independent() && ns[i].parent == site && ns[i].config == c
  {
    if |ns| > 0 {
      var init := ns[..|ns| - 1];
      AbsorbedConfigsMembers(init, site, c);
      if c in AbsorbedConfigs(init, site) {
        var i :| 0 <= i < |init| && !init[i].Independent() && init[i].parent == site && init[i].config == c;
        assert ns[i] == init[i];
      }
      if exists i :: 0 <= i < |ns| && !ns[i].Independent() && ns[i].parent == site && ns[i].config == c {
        var i :| 0 <= i < |ns| && !ns[i].Independent() && ns[i].parent == site && ns[i].config == c;
        if i < |ns| - 1 {
          assert init[i] == ns[i];
        }
      }
    }
  }

  /** Two visiting orders of the same graph visit the same nodes, so they
      absorb the same vertices. */
  lemma SameAbsorbed(e0: set<Edge>, v0: map<string, Node>, start: string, o1: seq<Node>, o2: seq<Node>)
    requires VisitingOrder(e0, v0, start, o1) && VisitingOrder(e0, v0, start, o2)
    ensures AbsorbedPaths(o1) <= AbsorbedPaths(o2)
  {
    forall p | p in AbsorbedPaths(o1)
      ensures p in AbsorbedPaths(o2)
    {
      var j :| 0 <= j < |o1| && !o1[j].Independent() && o1[j].path == p;
      VisitingOrderPaths(e0, v0, start, o2, p);
      var i :| 0 <= i < |o2| && o2[i].path == p;
      AbsorbedPathsMember(o2, i);
    }
  }

  /** A configuration one visiting order gives a site, another gives it too. */
  lemma SameConfigs(e0: set<Edge>, v0: map<string, Node>, start: string, o1: seq<Node>, o2: seq<Node>,
                    site: Node, c: SiteComponentConfig)
    requires VisitingOrder(e0, v0, start, o1) && VisitingOrder(e0, v0, start, o2)
    requires c in AbsorbedConfigs(o1, site)
    ensures c in AbsorbedConfigs(o2, site)
  {
    AbsorbedConfigsMembers(o1, site, c);
    var j :| 0 <= j < |o1| && !o1[j].Independent() && o1[j].parent == site && o1[j].config == c;
    VisitingOrderPaths(e0, v0, start, o2, o1[j].path);
    var i :| 0 <= i < |o2| && o2[i].path == o1[j].path;
    AbsorbedConfigsMembers(o2, site, c);
  }

  /** Reduction does not depend on the visiting order: two successful runs
      from the same start, whatever order the walk took, leave the same edges
      and vertices and give every site the same configurations. */
  lemma ReduceOrderIndependent(e0: set<Edge>, rank: map<string, nat>, v0: map<string, Node>, start: string,
                               o1: seq<Node>, e1: set<Edge>, v1: map<string, Node>,
                               o2: seq<Node>, e2: set<Edge>, v2: map<string, Node>)
    requires Ranked(e0, rank)
    requires ReductionOutcome(e0, v0, start, o1, None, e1, v1)
    requires ReductionOutcome(e0, v0, start, o2, None, e2, v2)
    ensures e1 == e2 && v1 == v2
    ensures forall s, c :: c in AbsorbedConfigs(o1, s) <==> c in AbsorbedConfigs(o2, s)
  {
    Succeeded(e0, v0, start, o1, e1, v1);
    Succeeded(e0, v0, start, o2, e2, v2);
    SameAbsorbed(e0, v0, start, o1, o2);
    SameAbsorbed(e0, v0, start, o2, o1);
    SameReducedEdges(e0, rank, o1, o2);
    forall s, c | c in AbsorbedConfigs(o1, s) || c in AbsorbedConfigs(o2, s)
      ensures c in AbsorbedConfigs(o1, s) <==> c in AbsorbedConfigs(o2, s)
    {
      if c in AbsorbedConfigs(o1, s) {
        SameConfigs(e0, v0, start, o1, o2, s, c);
      } else {
        SameConfigs(e0, v0, start, o2, o1, s, c);
      }
    }
  }

  /** A run that reports no error absorbed its whole visiting order. */
  lemma Succeeded(e0: set<Edge>, v0: map<string, Node>, start: string, order: seq<Node>,
                  edges: set<Edge>, vertices: map<string, Node>)
    requires ReductionOutcome(e0, v0, start, order, None, edges, vertices)
    ensures start in v0 && VisitingOrder(e0, v0, start, order) && FirstMisplaced(order) == |order|
    ensures edges == ReduceEdges(e0, order) && vertices == v0 - AbsorbedPaths(order)
  {
    assert order[..|order|] == order;
  }

  /** Orders that absorb the same vertices leave the same edges. */
  lemma SameReducedEdges(e0: set<Edge>, rank: map<string, nat>, o1: seq<Node>, o2: seq<Node>)
    requires Ranked(e0, rank) && AbsorbedPaths(o1) == AbsorbedPaths(o2)
    ensures ReduceEdges(e0, o1) == ReduceEdges(e0, o2)
  {
    forall e | e in ReduceEdges(e0, o1) || e in ReduceEdges(e0, o2)
      ensures e in ReduceEdges(e0, o1) <==> e in ReduceEdges(e0, o2)
    {
      ReduceEdgesClosedForm(e0, rank, o1, e.source, e.target);
      ReduceEdgesClosedForm(e0, rank, o2, e.source, e.target);
    }
  }
}
