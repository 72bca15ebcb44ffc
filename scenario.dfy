/** The acceptance scenario of the deployment reduction: a project with one
    site holding a component deployed with the site and a component deployed
    on its own. */
module DeploymentScenario {
  import opened Wrappers
  import opened DependencyNode
  import opened DependencyGraph
  import opened Deployment

  /** The vertex paths of the scenario: the project, the site, the component
      deployed with the site and the component deployed on its own. */
  datatype Layout = Layout(main: string, site: string, nested: string, own: string) {
    predicate Distinct() {
      && main != site && main != nested && main != own
      && site != nested && site != own && nested != own
    }

    function Edges(): set<Edge> {
      {Edge(main, site), Edge(site, nested), Edge(site, own)}
    }

    /** The edges the reduced graph keeps. */
    function ReducedEdges(): set<Edge> {
      {Edge(main, site), Edge(site, own)}
    }
  }

  /** The scenario's vertex map and the nodes in it. */
  predicate Wired(l: Layout, vs: map<string, Node>, project: Node, site: Node, nested: Node, own: Node) {
    && l.Distinct()
    && vs == map[l.main := project, l.site := site, l.nested := nested, l.own := own]
    && project.path == l.main && project.typ == ProjectType && project.parent == null
    && site.path == l.site && site.typ == SiteType && site.parent == project
    && nested.path == l.nested && nested.typ == SiteComponentType && nested.parent == site
    && nested.deploymentType == DeploymentSite && nested.config == SiteComponentConfig("site-component-1")
    && own.path == l.own && own.typ == SiteComponentType && own.parent == site
    && own.deploymentType == DeploymentSiteComponent
  }

  const Simple := Layout("main", "main/site-1", "main/site-1/site-component-1", "main/site-1/site-component-2")

  lemma SimpleDistinct()
    ensures Simple.Distinct()
  {
  }

  /** The four vertices of the scenario, not yet connected. */
  method BuildVertices(l: Layout) returns (g: Graph, project: Node, site: Node, nested: Node, own: Node)
    requires l.Distinct()
    ensures fresh(g) && fresh(project) && fresh(site) && fresh(nested) && fresh(own)
    ensures g.Valid() && g.startNode == project && g.edges == {}
    ensures g.rank == map[l.main := 0, l.site := 1, l.nested := 2, l.own := 2]
    ensures Wired(l, g.vertices, project, site, nested, own) && site.nestedConfigs == []
  {
    project := new Node(l.main, "main", ProjectType, null, DeploymentSite, SiteComponentConfig(""));
    site := new Node(l.site, "site-1", SiteType, project, DeploymentSite, SiteComponentConfig(""));
    nested := new Node(l.nested, "site-component-1", SiteComponentType, site,
                       DeploymentSite, SiteComponentConfig("site-component-1"));
    own := new Node(l.own, "site-component-2", SiteComponentType, site,
                    DeploymentSiteComponent, SiteComponentConfig("site-component-2"));
    g := new Graph(project);
    g.AddVertex(site, 1);
    g.AddVertex(nested, 2);
    g.AddVertex(own, 2);
  }

  /** The dependency graph of the scenario: project -> site -> {nested, own},
      where only the nested component is deployed with its site. */
  method BuildSimpleSite(l: Layout) returns (g: Graph, project: Node, site: Node, nested: Node, own: Node)
    requires l.Distinct()
    ensures fresh(g) && fresh(project) && fresh(site) && fresh(nested) && fresh(own)
    ensures g.Valid() && g.startNode == project
    ensures Wired(l, g.vertices, project, site, nested, own)
    ensures g.edges == l.Edges() && site.nestedConfigs == []
  {
    g, project, site, nested, own := BuildVertices(l);
    g.AddEdge(l.main, l.site);
    g.AddEdge(l.site, l.nested);
    g.AddEdge(l.site, l.own);
  }

  /** Reducing the scenario's graph leaves three vertices and two edges, and
      the site holds the configuration of the component it absorbed. */
  method SimpleSiteReduction() returns (g: Graph, site: Node, err: Option<string>)
    ensures err.None?
    ensures g.vertices.Keys == {Simple.main, Simple.site, Simple.own} && |g.vertices| == 3
    ensures g.edges == Simple.ReducedEdges() && |g.edges| == 2
    ensures Simple.site in g.vertices && g.vertices[Simple.site] == site
    ensures site.nestedConfigs == [SiteComponentConfig("site-component-1")]
  {
    SimpleDistinct();
    var project, nested, own;
    g, project, site, nested, own := BuildSimpleSite(Simple);
    ghost var e0 := g.edges;
    ghost var v0 := g.vertices;
    assert g.Footprint() == {project, site, nested, own};
    ghost var order;
    err, order := ReduceNodes(g);
    ScenarioOutcome(Simple, e0, v0, order, project, site, nested, own,
                    err, g.edges, g.vertices, site.nestedConfigs);
  }

  /** The state reduction leaves behind, read off the fold functions. */
  lemma ScenarioOutcome(l: Layout, e0: set<Edge>, v0: map<string, Node>, order: seq<Node>,
                        project: Node, site: Node, nested: Node, own: Node,
                        err: Option<string>, edges: set<Edge>, vertices: map<string, Node>,
                        configs: seq<SiteComponentConfig>)
    requires Wired(l, v0, project, site, nested, own) && e0 == l.Edges()
    requires DistinctPaths(order)
    requires forall i :: 0 <= i < |order| ==> order[i].path in v0 && v0[order[i].path] == order[i]
    requires forall y :: Reachable(e0, l.main, y) ==> y in PathsOf(order)
    requires var k := FirstMisplaced(order);
               && err == (if k < |order| then Some(ParentError(order[k])) else None)
               && edges == ReduceEdges(e0, order[..k])
               && vertices == v0 - AbsorbedPaths(order[..k])
               && configs == AbsorbedConfigs(order[..k], site)
    ensures err.None?
    ensures vertices.Keys == {l.main, l.site, l.own} && |vertices| == 3
    ensures edges == l.ReducedEdges() && |edges| == 2
    ensures l.site in vertices && vertices[l.site] == site
    ensures configs == [SiteComponentConfig("site-component-1")]
  {
    AllReachable(l);
    ScenarioOrder(l, v0, order, project, site, nested, own);
    ScenarioSizes(l, v0, vertices);
  }

  lemma ScenarioSizes(l: Layout, v0: map<string, Node>, vertices: map<string, Node>)
    requires l.Distinct() && v0.Keys == {l.main, l.site, l.nested, l.own}
    requires vertices == v0 - {l.nested}
    ensures vertices.Keys == {l.main, l.site, l.own} && |vertices| == 3
    ensures |l.ReducedEdges()| == 2
  {
    assert vertices.Keys == {l.main, l.site, l.own};
    assert |vertices.Keys| == 3;
  }

  /** Whatever order the search discovers the four vertices in, reduction
      absorbs exactly the component deployed with its site. */
  lemma ScenarioOrder(l: Layout, v0: map<string, Node>, order: seq<Node>,
                      project: Node, site: Node, nested: Node, own: Node)
    requires Wired(l, v0, project, site, nested, own)
    requires DistinctPaths(order)
    requires forall i :: 0 <= i < |order| ==> order[i].path in v0 && v0[order[i].path] == order[i]
    requires l.nested in PathsOf(order)
    ensures FirstMisplaced(order) == |order| && order[..|order|] == order
    ensures ReduceEdges(l.Edges(), order) == l.ReducedEdges()
    ensures AbsorbedPaths(order) == {l.nested}
    ensures AbsorbedConfigs(order, site) == [nested.config]
  {
    forall j | 0 <= j < |order| && order[j] != nested
      ensures order[j].Independent()
    {
      assert order[j].path in v0;
    }
    var k :| 0 <= k < |order| && order[k].path == l.nested;
    assert order[k] == nested;
    FirstMisplacedAt(order, |order|);
    assert order[..|order|] == order;
    ReduceOne(l.Edges(), order, nested, site);
    AbsorbSingleLeaf(l);
  }

  /** Every vertex of the scenario is reachable from the project node. */
  lemma AllReachable(l: Layout)
    ensures Reachable(l.Edges(), l.main, l.main) && Reachable(l.Edges(), l.main, l.site)
    ensures Reachable(l.Edges(), l.main, l.nested) && Reachable(l.Edges(), l.main, l.own)
  {
    var e0 := l.Edges();
    ReachRefl(e0, l.main);
    ReachAppend(e0, l.main, l.main, l.site);
    ReachAppend(e0, l.main, l.site, l.nested);
    ReachAppend(e0, l.main, l.site, l.own);
  }

  /** Absorbing the leaf component drops its one incoming edge and adds none. */
  lemma AbsorbSingleLeaf(l: Layout)
    requires l.Distinct()
    ensures AbsorbEdges(l.Edges(), l.nested) == l.ReducedEdges()
  {
    assert Children(l.Edges(), l.nested) == {};
  }

  /** A project with two sites: filtering by the site type yields both. */
  method TwoSitesByType() returns (sites: seq<Node>)
    ensures |sites| == 2
    ensures PathsOf(sites) == {"main/site-1", "main/site-2"}
  {
    var project := new Node("main", "main", ProjectType, null, DeploymentSite, SiteComponentConfig(""));
    var site1 := new Node("main/site-1", "site-1", SiteType, project, DeploymentSite, SiteComponentConfig(""));
    var site2 := new Node("main/site-2", "site-2", SiteType, project, DeploymentSite, SiteComponentConfig(""));
    var g := new Graph(project);
    g.AddVertex(site1, 1);
    g.AddVertex(site2, 1);
    sites := g.VerticesByType(SiteType);
    TwoSitesPaths(g.vertices, project, site1, site2);
    DistinctPathsCard(sites);
  }

  lemma TwoSitesPaths(vs: map<string, Node>, project: Node, site1: Node, site2: Node)
    requires vs == map["main" := project, "main/site-1" := site1, "main/site-2" := site2]
    requires project.typ == ProjectType && site1.typ == SiteType && site2.typ == SiteType
    ensures (set p | p in vs && vs[p].typ == SiteType) == {"main/site-1", "main/site-2"}
    ensures |{"main/site-1", "main/site-2"}| == 2
  {
  }
}
