# mach-composer core, modelled in Dafny

This project models the configuration and deployment core of mach-composer.
mach-composer reads a YAML file that describes sites and components, and
generates Terraform from it. The model covers the following parts.

- **Deployment-graph reducer.** The graph is built from the configuration: a
  project, its sites, and each site's components. A component deployed with
  its site is not independent. The reducer folds each such component into its
  parent site: its configuration is appended to the site's nested
  configurations, its edges are removed, every predecessor is connected to
  every child, and the vertex is deleted. The model proves that the rewrite
  preserves reachability between the vertices that remain, keeps the graph
  acyclic, leaves every untouched edge in place and loses no configuration.
  It also proves that a successful reduction leaves only independent nodes,
  that a second run changes nothing, and that every visiting order gives the
  same result.
  One acceptance scenario from the repository's tests is proved for every
  breadth-first order: 3 vertices, 2 edges and one nested configuration.
- **Graph queries.** Listing the vertices, filtering them by type, looking a
  vertex up by identifier, and enumerating predecessor paths recursively.
- **Configuration variables.** Parsing a YAML node into a tree of variables,
  merging maps where the last map wins, transforming values, and listing the
  components a variable refers to.
- **`${component.X.Y}` rewriting.** A reference is rewritten to
  `${module.X.Y}`. A reference with fewer than three dot-separated parts is
  rejected. At most 20 references are processed.
- **Remote-state sources and the component template.** The remote-state
  texts of a component's parents, and the fields the component template is
  filled with.
- **Global components.** Duplicate names are rejected. A component without
  integrations gets the cloud integration. A relative source is made
  absolute. A components block can be read from another file with
  `${include(...)}`.
- **Sites.** Each site component is linked to its global definition. The old
  `store_variables` and `store_secrets` keys are copied under a new
  `commercetools` key; the original keys stay. Keys that are not known are forwarded to the plugins.
- **Endpoints.** Building a site's endpoints from the raw `endpoints:` map,
  and the queries the generator asks of them: which components use which
  endpoint, the used endpoints, DNS zones, CDN, and cloud integration.
- **Schema checks.** Reading the schema version, the version gate, one
  message per schema error, the key normalisation done before validation,
  and the two patches made to the schema.
- **Plugin registry.** Loading plugins and looking them up, listing the
  enabled ones, and handing configuration to one plugin.
- **Azure region filters.** The two region tables used by the templates.

## Modelling conventions

- State that the Go code changes in place is kept in place: the graph and its
  nodes are classes, the component list and the site list are arrays, and
  the plugin map is a field of a class. Each method is proved against a pure
  function of the old state.
- Go map iteration has no defined order. Wherever the code ranges over a map,
  the caller supplies the order as a sequence of keys. Examples are the raw
  endpoints, a site component's YAML keys, the plugins loaded from the
  configuration, and the plugin values that `Enabled` filters.
- The graph library's breadth-first search is replaced by an explicit
  traversal. The reduction loops over the order that traversal produces from
  the start node.
- Calls into code that is not part of this model are function parameters.
  These are YAML decoding, schema validation, `filepath.Abs`,
  `filepath.Join`, reading a file, `StartPlugin`,
  `InterpolateComponentVars`, `serializeToHCL`, `StripProtocol`,
  `ZoneFromURL`, `SubdomainFromURL`, a plugin's renderer and its `Set*`
  handlers, and a variable's `TransformValue` and `ReferencedComponents`.
- `strconv.Atoi` is modelled with its 64-bit range. `strings.SplitN`,
  `strings.Join` and `strings.ReplaceAll` are modelled as pure functions on
  strings.

## Model

| member | source | states |
|---|---|---|
| DependencyNode.Node.constructor | internal/dependency/node.go:28-35 | a new node holds exactly the given path, identifier, type, parent, deployment type and configuration; it is not tainted and has no nested configurations |
| DependencyNode.Node.SetTainted | internal/dependency/node.go:37-43 | afterwards `Tainted()` returns the given flag; only the tainted field changes |
| DependencyNode.IndependentCases | internal/dependency/node.go:61-73 | projects and sites are always independent; a site component is independent if and only if its deployment type is site-component |
| DependencyNode.NotIndependentIsSiteComponent | internal/dependency/node.go:61-73 | a node that is not independent is a site component deployed with its site, so the "expected to be a site component" error of the reducer cannot arise |
| DependencyGraph.Graph.constructor | internal/graph/graph.go:8-11 | a new graph holds only the start node and no edges |
| DependencyGraph.Graph.AddVertex | internal/graph/graph.go:8-11 | adds exactly one vertex under its path; the edges are unchanged |
| DependencyGraph.Graph.AddEdge | internal/dependency/deployment.go:80-84 | adds exactly the one edge; the graph stays acyclic |
| DependencyGraph.Graph.RemoveEdge | internal/dependency/deployment.go:57-61 | removes exactly the one edge |
| DependencyGraph.Graph.RemoveVertex | internal/dependency/deployment.go:88-91 | removes a vertex that no edge touches, and only that vertex |
| DependencyGraph.Graph.Vertices | internal/graph/graph.go:16-29 | one node per vertex key, with no path repeated; every node is the vertex stored under its path |
| DependencyGraph.Graph.VerticesByType | internal/graph/graph.go:31-42 | exactly the vertices of the given type, each once |
| DependencyGraph.OfTypeMembers | internal/graph/graph.go:31-42 | filtering by type keeps a node if and only if it has that type, and keeps paths distinct |
| DependencyGraph.OfTypeOfVertices | internal/graph/graph.go:31-42 | filtering a full vertex list by type yields exactly the paths of the vertices of that type |
| DependencyGraph.DistinctPathsCard | internal/graph/graph.go:16-29 | a list with distinct paths has as many paths as entries |
| DependencyGraph.Graph.VertexByIdentifier | internal/graph/graph.go:44-51 | a found node is a vertex with that identifier; nil is returned if and only if no vertex has that identifier |
| DependencyGraph.Graph.VertexExists | internal/graph/graph.go:53-55 | true if and only if some vertex has that identifier |
| DependencyGraph.Graph.Routes | internal/graph/graph.go:58-75 | empty when the source has no predecessors; every route starts with a predecessor of the source |
| DependencyGraph.Graph.AdjacencyMap | internal/dependency/deployment.go:50-53 | one entry per vertex, listing exactly that vertex's children |
| DependencyGraph.Graph.PredecessorMap | internal/dependency/deployment.go:51-54 | one entry per vertex, listing exactly that vertex's predecessors; every predecessor ranks below its vertex |
| DependencyGraph.Graph.Discover | internal/dependency/deployment.go:30-30 | visiting the children of one vertex marks all of them and adds only vertices reachable from the start |
| DependencyGraph.Graph.BfsOrder | internal/dependency/deployment.go:30-30 | fails with "could not find start vertex with hash ..." if and only if the start is missing; otherwise it lists exactly the vertices reachable from the start, each once, starting with the start |
| DependencyGraph.Graph.ClosedUnderChildren | internal/dependency/deployment.go:30-30 | a finished traversal has visited every vertex reachable from the start |
| DependencyGraph.ClosedHoldsReachable | internal/dependency/deployment.go:30-30 | a set closed under children that holds the start of a path also holds its end |
| GraphPaths.NoParentsYieldsCurrentPath | internal/graph/utils.go:11-14 | with no predecessors the result is exactly the current path |
| GraphPaths.FetchExtendsCurrentPath | internal/graph/utils.go:9-27 | the result is never empty, and every path in it extends the current path |
| GraphPaths.FetchParentsExtend | internal/graph/utils.go:18-26 | the loop over predecessors only yields paths extending the current path |
| GraphPaths.FetchParentsKeeps | internal/graph/utils.go:18-24 | while no later predecessor is the target, the paths collected so far are kept |
| GraphPaths.FetchParentsFindsTarget | internal/graph/utils.go:19-21 | a predecessor equal to the target puts the current path into the result |
| GraphPaths.DirectTargetIsFound | internal/graph/utils.go:16-21 | if the target is a predecessor of the source, the current path followed by the source is among the results |
| GraphPaths.FetchPathsToTarget | internal/graph/utils.go:9-27 | the recursive enumeration of predecessor paths; its results are stated by GraphPaths.NoParentsYieldsCurrentPath, GraphPaths.FetchExtendsCurrentPath and GraphPaths.DirectTargetIsFound |
| GraphPaths.FetchParents | internal/graph/utils.go:16-26 | the loop over the predecessors of one vertex, including the reset to the current path when the target is met; stated by GraphPaths.FetchParentsExtend, GraphPaths.FetchParentsKeeps and GraphPaths.FetchParentsFindsTarget |
| Deployment.RemoveOutEdges | internal/dependency/deployment.go:56-61 | removes exactly the edges from the vertex to the listed children |
| Deployment.RemoveInEdges | internal/dependency/deployment.go:63-68 | removes exactly the edges from the listed predecessors to the vertex |
| Deployment.ConnectAll | internal/dependency/deployment.go:70-86 | adds exactly the edges from every predecessor to every child; an edge already present is not duplicated, because edges form a set |
| Deployment.ConnectParents | internal/dependency/deployment.go:71-85 | for one child, adds exactly the edges from every predecessor to it, keeping the rank order acyclic |
| Deployment.BypassesRanked | internal/dependency/deployment.go:70-86 | every new edge goes from a lower to a higher rank, so no cycle appears, and none touches the removed vertex |
| Deployment.AbsorbSteps | internal/dependency/deployment.go:56-86 | removing the out-edges and in-edges and adding the cross edges is exactly the one-vertex rewrite |
| Deployment.AbsorbEdges | internal/dependency/deployment.go:56-88 | the one-vertex rewrite as a function of the edges: the edges touching the vertex are dropped and each predecessor is joined to each child; its meaning is stated by Deployment.AbsorbEdgesCharacterised and Deployment.AbsorbPreservesReachability |
| Deployment.AbsorbVertex | internal/dependency/deployment.go:50-91 | the edges become the one-vertex rewrite of the old edges, and the vertex is deleted |
| Deployment.AbsorbEdgesCharacterised | internal/dependency/deployment.go:56-88 | an edge is present after the rewrite if and only if it avoids the vertex and was present before or bypasses the vertex |
| Deployment.AbsorbKeepsRanked | internal/dependency/deployment.go:70-86 | the rewrite keeps the graph acyclic |
| Deployment.ReduceEdges | internal/dependency/deployment.go:33-94 | the edges after visiting a node list, absorbing each dependent node in turn; stated by Deployment.ReduceEdgesClosedForm, Deployment.ReducePreservesReachability and Deployment.ReduceDetaches |
| Deployment.AbsorbedPaths | internal/dependency/deployment.go:33-94 | the vertices the reduction of a node list deletes: the paths of its dependent nodes |
| Deployment.AbsorbedConfigs | internal/dependency/deployment.go:46-48 | the configurations a site collects while a node list is visited, in order; stated by Deployment.AbsorbedConfigsKept and Deployment.AbsorbedConfigsMembers |
| Deployment.ForwardWalk | internal/dependency/deployment.go:56-88 | a path between other vertices survives the rewrite |
| Deployment.BackwardWalk | internal/dependency/deployment.go:56-88 | a path after the rewrite existed before it |
| Deployment.AbsorbPreservesReachability | internal/dependency/deployment.go:56-88 | between any two other vertices, reachability is the same before and after the rewrite |
| Deployment.ReduceKeepsRanked | internal/dependency/deployment.go:28-100 | the whole reduction keeps the graph acyclic |
| Deployment.ReducePreservesReachability | internal/dependency/deployment.go:28-100 | between any two vertices that were not absorbed, reachability is the same before and after the reduction |
| Deployment.ReduceDetaches | internal/dependency/deployment.go:56-88 | no edge into or out of an absorbed vertex remains |
| Deployment.ReduceKeepsUntouched | internal/dependency/deployment.go:33-94 | an edge between two vertices that were not absorbed is kept |
| Deployment.ReduceIndependent | internal/dependency/deployment.go:33-94 | when every node is independent, the edges, the vertices and the nested configurations are unchanged |
| Deployment.AbsorbedConfigsKept | internal/dependency/deployment.go:46-48 | the configuration of every absorbed node is recorded at its parent site |
| Deployment.ReduceOne | internal/dependency/deployment.go:33-92 | with one dependent node, the reduction is the one-vertex rewrite, and the node's configuration goes to its own parent only |
| Deployment.FirstMisplaced | internal/dependency/deployment.go:33-38 | the index of the first dependent node without a site parent: no earlier node is one |
| Deployment.AbsorbNode | internal/dependency/deployment.go:46-91 | appends the node's configuration at the end of its parent's nested configurations, rewrites the edges around the node and deletes it |
| Deployment.Visit | internal/dependency/deployment.go:31-94 | stops with "node <path> is expected to have site as parent" if and only if a dependent node lacks a site parent, and then changes nothing; an independent node changes nothing; a dependent node is absorbed |
| Deployment.VisitNext | internal/dependency/deployment.go:30-95 | one visit extends the reduction of the visited prefix by one node, or stops with the prefix unchanged |
| Deployment.ReduceOrder | internal/dependency/deployment.go:28-100 | reduces the nodes in order up to the first misplaced one, whose error is returned; the edges, the vertices and every site's nested configurations are those of that prefix |
| Deployment.ReduceNodes | internal/dependency/deployment.go:28-100 | a missing start vertex fails with "could not find start vertex with hash <path>", with an empty order, and changes nothing; otherwise the traversal order starts at the start vertex, repeats no vertex and holds exactly the vertices reachable from it; the graph is reduced along it up to the first misplaced node, whose error is returned; every site's nested configurations grow by those of the nodes it absorbed |
| Deployment.ToDeploymentGraph | internal/dependency/deployment.go:10-26 | a build error or validation error is returned before any reduction, with an empty order, and no graph or nested configuration changes; otherwise the outcome is the reducer's, as stated for Deployment.ReduceNodes: the same edges, vertices, nested configurations and error, and the graph itself on success |
| Deployment.VisitingOrderPaths | internal/dependency/deployment.go:28-32 | a node is in the visiting order if and only if its vertex is reachable from the start |
| Deployment.ReducedNodesIndependent | internal/dependency/deployment.go:28-100 | after a reduction along the whole visiting order, every vertex left that is reachable from the start is independent |
| Deployment.ReduceIdempotent | internal/dependency/deployment.go:28-100 | when a run succeeds from an independent start, as the project is, a second run on its result succeeds, absorbs nothing and changes no edge, vertex or nested configuration |
| Deployment.ReduceEdgesClosedForm | internal/dependency/deployment.go:33-94 | after the reduction an edge joins two kept vertices exactly when the original graph has a walk between them whose inner vertices were all absorbed; the visiting order does not appear |
| Deployment.SameReducedEdges | internal/dependency/deployment.go:33-94 | two visiting orders that absorb the same vertices leave the same edges |
| Deployment.AbsorbedConfigsMembers | internal/dependency/deployment.go:46-48 | a site collects a configuration if and only if some absorbed node with that parent has it |
| Deployment.ReduceOrderIndependent | internal/dependency/deployment.go:28-100 | two successful runs from the same start along any two visiting orders leave the same edges and vertices, and every site collects the same configurations |
| DeploymentScenario.BuildSimpleSite | internal/graph/deployment_test.go:10-42 | builds the project, site and two components of the test with the three tree edges |
| DeploymentScenario.SimpleSiteReduction | internal/graph/deployment_test.go:44-90 | the reduction succeeds with 3 vertices, the 2 edges main→main/site-1 and main/site-1→main/site-1/site-component-2, and the single nested configuration "site-component-1" |
| DeploymentScenario.ScenarioOutcome | internal/graph/deployment_test.go:44-90 | the same outcome holds for every traversal order that reaches all vertices |
| DeploymentScenario.ScenarioOrder | internal/graph/deployment_test.go:44-59 | along any such order only the site-granularity component is absorbed, and its configuration goes to the site |
| DeploymentScenario.ScenarioSizes | internal/graph/deployment_test.go:47-51 | the reduced graph has 3 vertices and 2 edges |
| DeploymentScenario.AllReachable | internal/graph/deployment_test.go:10-42 | every vertex of the scenario is reachable from the project |
| DeploymentScenario.AbsorbSingleLeaf | internal/graph/deployment_test.go:65-90 | absorbing the site-granularity component leaves exactly the two expected edges |
| DeploymentScenario.TwoSitesByType | internal/graph/deployment_test.go:177-178 | with two configured sites, filtering by site type gives exactly the two site nodes |
| DeploymentScenario.TwoSitesPaths | internal/graph/deployment_test.go:128-178 | the vertices of site type are exactly "main/site-1" and "main/site-2" |
| ConfigVariable.ParseField | internal/config/variable/base.go:70-102 | a parsed scalar node is a scalar variable, a mapping node a map variable, and a sequence node a slice variable |
| ConfigVariable.ParseFieldSpec | internal/config/variable/base.go:70-102 | a scalar passes the scalar check or fails with its error; a mapping parses if and only if every value parses, with exactly its keys; a sequence parses if and only if every item parses, keeping length and order; any other kind fails with "unsupported variable type: <tag>" |
| ConfigVariable.ParseItemsOk | internal/config/variable/base.go:88-98 | the items parse if and only if each item parses |
| ConfigVariable.ParseItemsOrder | internal/config/variable/base.go:88-98 | parsed items keep the sequence's length and order |
| ConfigVariable.ParseItemsFirstError | internal/config/variable/base.go:91-95 | a failure is the error of the first item that fails |
| ConfigVariable.ParseItems | internal/config/variable/base.go:88-98 | the first items of a sequence node parsed in order, or the first failure; stated by ConfigVariable.ParseItemsOk, ConfigVariable.ParseItemsOrder and ConfigVariable.ParseItemsFirstError |
| ConfigVariable.ParsePairsOk | internal/config/variable/base.go:74-87 | the pairs parse if and only if every value parses |
| ConfigVariable.ParsePairsLastWins | internal/config/variable/base.go:74-87 | the parsed map has exactly the keys of the pairs, and a repeated key holds its last value |
| ConfigVariable.ParsePairsFirstError | internal/config/variable/base.go:76-83 | a failure is the error of the first value that fails |
| ConfigVariable.ParsePairs | internal/config/variable/base.go:74-87 | the first pairs of a mapping node, a later key overriding an earlier one, or the first failure; stated by ConfigVariable.ParsePairsOk, ConfigVariable.ParsePairsLastWins and ConfigVariable.ParsePairsFirstError |
| ConfigVariable.FailurePersists | internal/config/variable/base.go:56-65 | once a pair fails, the later pairs do not change the error |
| ConfigVariable.UnmarshalVariables | internal/config/variable/base.go:49-68 | a node that is not a mapping fails with "expected a mapping node" and leaves the map unchanged; otherwise it succeeds if and only if every value parses, giving one entry per key; on failure the map holds the pairs before the first failing one, whose value fails with the returned error |
| ConfigVariable.MergedKeys | internal/config/variable/base.go:19-31 | a key is in the merged map if and only if some input map has it |
| ConfigVariable.MergedLastWins | internal/config/variable/base.go:19-27 | each key takes its whole value from the last map that has it |
| ConfigVariable.Merged | internal/config/variable/base.go:19-31 | the top-level overlay of the maps, later ones winning; stated by ConfigVariable.MergedKeys and ConfigVariable.MergedLastWins |
| ConfigVariable.Overlay | internal/config/variable/base.go:24-28 | copying one map in overrides the earlier keys it shares |
| ConfigVariable.MergeVariablesMaps | internal/config/variable/base.go:19-31 | the result is the left-to-right last-wins merge of the maps |
| ConfigVariable.Transform | internal/config/variable/base.go:104-116 | succeeds if and only if every value transforms, with exactly the same keys and each key's transformed value; a failure carries the error of some failing value |
| ConfigVariable.Compact | internal/config/variable/base.go:125-125 | compacting never lengthens the list and keeps its last element |
| ConfigVariable.CompactNoAdjacentDuplicates | internal/config/variable/base.go:125-125 | no two adjacent entries of a compacted list are equal |
| ConfigVariable.CompactElements | internal/config/variable/base.go:125-125 | compacting keeps exactly the same elements |
| ConfigVariable.CompactFixed | internal/config/variable/base.go:125-125 | a list without adjacent duplicates is left as it is |
| ConfigVariable.ConcatRefsElements | internal/config/variable/base.go:118-123 | the concatenated references hold exactly the references of the listed variables |
| ConfigVariable.ConcatRefs | internal/config/variable/base.go:118-123 | the references of the listed variables concatenated in order; stated by ConfigVariable.ConcatRefsElements |
| ConfigVariable.ListReferencedComponents | internal/config/variable/base.go:118-126 | the result is the compacted concatenation of the variables' references, in map-iteration order: no adjacent duplicates, and exactly the components some variable refers to |
| TemplateVariable.MatchLength | internal/generator/variables.go:9-9 | the length of the match at the head of a string is the only length at which the pattern matches there |
| TemplateVariable.MatchShaped | internal/generator/variables.go:9-9 | a match is `${` + reference + `}`, and the reference starts with "component." |
| TemplateVariable.FindAll | internal/generator/variables.go:12-12 | at most the given number of matches are found, each of the pattern's shape |
| TemplateVariable.FindAllEmpty | internal/generator/variables.go:12-15 | no match is found if and only if the pattern matches at no position |
| TemplateVariable.WholeValueMatch | internal/generator/variables.go:9-12 | a value that is one wrapped reference matches exactly once, as a whole |
| TemplateVariable.RewriteOk | internal/generator/variables.go:17-29 | the rewrite succeeds if and only if every match splits into three parts |
| TemplateVariable.RewriteFirstError | internal/generator/variables.go:17-25 | the first match with fewer than three parts fails with the invalid-variable error quoting its reference |
| TemplateVariable.Rewrite | internal/generator/variables.go:17-29 | each match in turn replaced everywhere in the value, the first with fewer than three parts being an error; stated by TemplateVariable.RewriteOk and TemplateVariable.RewriteFirstError |
| TemplateVariable.ParseTemplateVariable | internal/generator/variables.go:11-32 | the result is the rewrite of the value over its first 20 matches |
| TemplateVariable.RewriteMatches | internal/generator/variables.go:17-31 | the loop over the matches gives their rewrite: the first match with fewer than three parts fails it, and otherwise every occurrence of each match is replaced in turn |
| TemplateVariable.NoReferenceUnchanged | internal/generator/variables.go:12-15 | a value with no match is returned unchanged |
| TemplateVariable.SplitReference | internal/generator/variables.go:18-18 | splitting `component.X.Y` into at most three parts gives "component", X and Y, and Y keeps its own dots |
| TemplateVariable.SingleReference | internal/generator/variables.go:18-28 | `${component.X.Y}` becomes `${module.X.Y}`, also when Y has further dots |
| TemplateVariable.MissingOutputName | internal/generator/variables.go:19-25 | `${component.X}` fails with the invalid-variable error quoting `component.X` |
| ComponentRender.RemoteStatesOk | internal/generator/component.go:151-162 | the remote states are found if and only if every parent is in the repository with a working remote state, and the texts follow the parents' order |
| ComponentRender.RemoteStatesFirstError | internal/generator/component.go:151-159 | the first parent that is missing fails with "missing remoteState for <name>", and the first failing remote state passes its error on |
| ComponentRender.RemoteStates | internal/generator/component.go:151-162 | the parents' remote-state texts in order, or the first failure; stated by ComponentRender.RemoteStatesOk and ComponentRender.RemoteStatesFirstError |
| ComponentRender.RenderRemoteSources | internal/generator/component.go:145-165 | the parents are the variables' components followed by the secrets' components; the output is their texts joined with newlines, or the first error with no partial text; no parents gives "" |
| ComponentRender.SnippetsAppend | internal/generator/component.go:78-100 | the plugin snippets of two plugin lists are the snippets of the first followed by those of the second, or the first error |
| ComponentRender.SilentPluginContributesNothing | internal/generator/component.go:78-94 | a plugin not among the integrations, or one that renders nothing, contributes nothing |
| ComponentRender.Snippets | internal/generator/component.go:78-94 | the snippets of the plugins among the component's integrations that return one, in order, or the first render failure; stated by ComponentRender.SnippetsAppend and ComponentRender.SilentPluginContributesNothing |
| ComponentRender.Resources | internal/generator/component.go:96-96 | one resources text per snippet, in order |
| ComponentRender.Variables | internal/generator/component.go:97-97 | one variables text per snippet, in order |
| ComponentRender.FlattenSnoc | internal/generator/component.go:96-99 | one more snippet appends its resources and variables, and extends the providers and depends-on lists with its own |
| ComponentRender.WithSnippetsSnoc | internal/generator/component.go:96-99 | filling the context with one more snippet appends that snippet's four contributions |
| ComponentRender.WithSnippets | internal/generator/component.go:96-99 | the context with the snippets' four contributions appended; stated by ComponentRender.WithSnippetsSnoc |
| ComponentRender.AddPluginSnippets | internal/generator/component.go:78-100 | the context gets the snippets of the listed plugins, or the first plugin error |
| ComponentRender.ContextFields | internal/generator/component.go:66-133 | empty variables or secrets default to "variables = {}" or "secrets = {}" exactly when there is a cloud integration, non-empty ones are serialized, a Git source gets "?ref=<version>", and the plugin resources are those of the snippets |
| ComponentRender.ContextOf | internal/generator/component.go:66-133 | the template values of a component or the first error, in the order plugins, variables, secrets; stated by ComponentRender.ContextFields |
| ComponentRender.RenderContext | internal/generator/component.go:66-133 | the template context is the one the component, its plugins and the serializer determine, or the first error |
| ComponentsConfig.Names | internal/config/parse_components.go:74-99 | the names of the components, in order |
| ComponentsConfig.VerifyComponents | internal/config/parse_components.go:73-103 | components are verified in order until the first one whose name repeats or whose source cannot be made absolute; each earlier one gets its defaults, the failing one is unchanged if its name repeats and otherwise has only its default integrations, and the later ones are unchanged |
| ComponentsConfig.NameSeen | internal/config/parse_components.go:79-81 | a name is in the seen list if and only if an earlier component has it |
| ComponentsConfig.DistinctIfVerified | internal/config/parse_components.go:73-103 | a verification that passes every component implies pairwise different names and working defaults |
| ComponentsConfig.VerifiedIfDistinct | internal/config/parse_components.go:73-103 | pairwise different names with working defaults pass verification |
| ComponentsConfig.NormalisedFields | internal/config/parse_components.go:83-97 | only empty integrations are replaced, by the cloud integration; only a source starting with "." is made absolute; name, version and endpoints are unchanged |
| ComponentsConfig.IncludeAt | internal/config/parse_components.go:106-107 | a found file name is non-empty, free of ")" and the directive at the head of the string |
| ComponentsConfig.IncludeOfDirective | internal/config/parse_components.go:106-111 | `${include(f)}` names exactly f |
| ComponentsConfig.LoadComponentsNode | internal/config/parse_components.go:105-125 | a value without an include directive fails with "failed to parse ${include()} tag"; success gives the single node of the document the directive names |
| ComponentsConfig.IncludedDocumentHasOneNode | internal/config/parse_components.go:121-123 | an included document without exactly one node fails with "Invalid yaml file" |
| ComponentsConfig.ComponentsNode | internal/config/parse_components.go:18-26 | only a string-tagged node is read as an include directive, relative to the directory of the source file; any other node is used as it is |
| SiteConfig.FileUnderSpec | internal/config/types_site.go:100-104 | filing one component adds it under each endpoint it names, once per naming, after the components already there |
| SiteConfig.FiledSpec | internal/config/types_site.go:97-106 | a key is present if and only if some component names it, and it holds exactly the components naming it, in component order |
| SiteConfig.Filed | internal/config/types_site.go:97-106 | the map from endpoint name to the components using it; stated by SiteConfig.FiledSpec |
| SiteConfig.UnderEmpty | internal/config/types_site.go:97-106 | an endpoint no component names has no components |
| SiteConfig.EndpointComponents | internal/config/types_site.go:97-106 | the result files every component under each endpoint its definition names, in component order |
| SiteConfig.UsedMembers | internal/config/types_site.go:108-117 | an endpoint is used if and only if it is among the site's endpoints and has components |
| SiteConfig.UsedEndpoints | internal/config/types_site.go:109-117 | exactly the endpoints with components, in order |
| SiteConfig.Used | internal/config/types_site.go:108-117 | the endpoints with components, in order; stated by SiteConfig.UsedMembers and SiteConfig.UsedEndpoints |
| SiteConfig.Zones | internal/config/types_site.go:123-125 | one zone per endpoint, in order |
| SiteConfig.DNSZones | internal/config/types_site.go:120-127 | the zones of the used endpoints, each exactly once |
| SiteConfig.HasCDNEndpoint | internal/config/types_site.go:130-138 | true if and only if some used endpoint has AWS settings with the CDN enabled |
| SiteConfig.HasCloudIntegration | internal/config/types_site.go:152-162 | true if and only if the definition's integrations include "aws" or "azure" |
| SiteConfig.SetDefaults | internal/config/types_site.go:174-180 | the protocol is stripped from the URL; a non-empty zone is kept; an empty zone is taken from a non-empty URL; nothing else changes |
| SiteConfig.SetDefaultsKeepsZone | internal/config/types_site.go:177-179 | applying the defaults twice never overwrites a zone that was set |
| SiteConfig.IsRootDomain | internal/config/types_site.go:182-184 | true if and only if the URL equals the zone |
| SiteConfig.Subdomain | internal/config/types_site.go:186-192 | an empty URL has the subdomain ""; otherwise the subdomain comes from the URL |
| SiteConfig.UrlEntry | internal/config/types_site.go:32-40 | a plain string value becomes an endpoint with that key, the stripped URL and no components |
| SiteConfig.EntriesOk | internal/config/types_site.go:30-66 | the entries build if and only if every raw value builds, and then there is one endpoint per key, in order |
| SiteConfig.EntriesPrefixError | internal/config/types_site.go:30-66 | the first raw value that fails ends the walk with its error, such as "unexecpted type while resolving endpoints" |
| SiteConfig.Entry | internal/config/types_site.go:31-64 | one raw value as an endpoint: a URL, a decoded mapping, or the unexpected-type error; stated through SiteConfig.EntriesOk and SiteConfig.EntriesPrefixError |
| SiteConfig.Entries | internal/config/types_site.go:30-66 | the endpoints of the raw entries in key order, or the first failure; stated by SiteConfig.EntriesOk and SiteConfig.EntriesPrefixError |
| SiteConfig.ResolveEntries | internal/config/types_site.go:29-66 | the built entries are appended to the site's endpoints, or the first error is returned |
| SiteConfig.Keys | internal/config/types_site.go:70-73 | one key per endpoint, in order |
| SiteConfig.KeysHasKey | internal/config/types_site.go:70-73 | a key is listed if and only if some endpoint has it |
| SiteConfig.ResolveEndpointsAsWritten | internal/config/types_site.go:29-95 | resolves the endpoints with the code's condition, which appends a "default" endpoint when the site already defines one |
| SiteConfig.AsWrittenDefaultInverted | internal/config/types_site.go:83-93 | as written, a site whose component uses "default" without defining it gets no endpoints, and one that defines "default" ends up with two |
| SiteConfig.ResolveEndpoints | internal/config/types_site.go:29-95 | resolves the endpoints and appends a "default" endpoint exactly when a component uses one that the site does not define |
| SiteConfig.ResolvedHasDefault | internal/config/types_site.go:75-93 | after the corrected resolution, a "default" endpoint exists whenever a component uses one |
| SiteConfig.ResolvedKeepsDefinedDefault | internal/config/types_site.go:79-93 | after the corrected resolution, a site that defines "default" gets no second one |
| SiteParse.IndexSpec | internal/config/parse_site.go:84-87 | a name is indexed if and only if some global component has it, and it maps to the last such component |
| SiteParse.BuildIndex | internal/config/parse_site.go:84-87 | builds the index of the global components by name |
| SiteParse.ResolveOneSpec | internal/config/parse_site.go:95-112 | a component resolves if and only if its name is global and both of its variable maps interpolate; an unknown name fails with "component <name> does not exist in global components."; the result keeps the name and gets that global definition |
| SiteParse.ResolveOne | internal/config/parse_site.go:95-112 | one site component resolved against the index and interpolated; stated by SiteParse.ResolveOneSpec |
| SiteParse.ResolveAllOk | internal/config/parse_site.go:94-113 | a site's components resolve if and only if each one does, one for one and in order |
| SiteParse.ResolveAllFirstError | internal/config/parse_site.go:97-111 | the first component that fails decides the error |
| SiteParse.ResolveAll | internal/config/parse_site.go:94-113 | a site's components resolved in order, or the first failure; stated by SiteParse.ResolveAllOk and SiteParse.ResolveAllFirstError |
| SiteParse.ResolveSite | internal/config/parse_site.go:89-114 | a site with its components resolved, a site without components left as it is; stated by SiteParse.SitesResolved |
| SiteParse.ResolveSites | internal/config/parse_site.go:89-115 | every site resolved in order, or the first failure; stated by SiteParse.ResolveSitesOk and SiteParse.SitesPrefixError |
| SiteParse.ResolveComponents | internal/config/parse_site.go:94-113 | the result is the resolution of a site's component list |
| SiteParse.ResolvePrefixError | internal/config/parse_site.go:94-113 | once a component fails, the later ones do not change the error |
| SiteParse.ResolveSitesOk | internal/config/parse_site.go:89-114 | the sites resolve if and only if each site does, one for one |
| SiteParse.SitesResolved | internal/config/parse_site.go:83-116 | sites without components are unchanged; every other component keeps its name and gets the global definition of that name |
| SiteParse.SitesReadyForEndpoints | internal/config/parse_site.go:89-114 | after a successful resolution every component of every site has a definition, which is what endpoint resolution needs |
| SiteParse.ResolveSiteComponents | internal/config/parse_site.go:83-116 | on success the site array holds the resolved sites; on failure the error of the first failing component is returned |
| SiteParse.SitesPrefixError | internal/config/parse_site.go:89-115 | once a site fails, the later sites do not change the error |
| SiteParse.MigrateCommercetools | internal/config/parse_site.go:120-165 | without store keys, or with a commercetools key, nothing changes; no key is removed or altered; otherwise a new commercetools mapping holds the store_variables pair before the store_secrets pair, for those present |
| SiteParse.ForwardedSpec | internal/config/parse_site.go:56-70 | a key is forwarded if and only if it is present and not one of name, variables, secrets, store_variables and store_secrets |
| SiteParse.ForwardComponentConfig | internal/config/parse_site.go:61-80 | with the component's keys listed each once in iteration order: on success exactly the unknown keys were forwarded and every key was accepted by its plugin; a failure is the conversion or plugin error of the first key not accepted, every earlier key having been accepted |
| SchemaValidation.SchemaVersion | internal/config/validate.go:116-130 | a decode error is returned first; a version with no number fails with the not-found error; success gives the number of the version string |
| SchemaValidation.GetSchemaVersionOfDocument | internal/config/validate.go:109-131 | reads the version of a document, failing with "no valid version identifier found" |
| SchemaValidation.GetSchemaVersion | config/parse.go:57-81 | reads the version of raw YAML, failing with "No valid version identifier found" |
| SchemaValidation.IntegerVersion | internal/config/validate.go:121-123 | an integer version string yields that integer |
| SchemaValidation.DottedVersion | internal/config/validate.go:125-128 | "N.rest" yields N |
| SchemaValidation.NonNumericVersion | internal/config/validate.go:121-130 | a version that starts with neither a digit nor a sign has no number |
| SchemaValidation.VersionNumber | internal/config/validate.go:121-130 | the number of a version string: the whole string, else its part before the first dot; stated by SchemaValidation.IntegerVersion, SchemaValidation.DottedVersion and SchemaValidation.NonNumericVersion |
| SchemaValidation.Messages | internal/config/validate.go:71-73 | one message per schema error, each followed by a newline |
| SchemaValidation.ValidationGate | internal/config/validate.go:40-77 | a document passes if and only if its version is 1, the schema loads and there are no schema errors; any other version is rejected as unsupported |
| SchemaValidation.ValidationErrorsPerFinding | internal/config/validate.go:67-75 | a validation error carries one message per schema error, in order |
| SchemaValidation.Validation | internal/config/validate.go:40-77 | the outcome of validateConfig: version error, unsupported version, schema error, or the findings; stated by SchemaValidation.ValidationGate and SchemaValidation.ValidationErrorsPerFinding |
| SchemaValidation.ValidateConfig | internal/config/validate.go:40-77 | the flag is true if and only if there is no error, and the error is the validation's outcome |
| SchemaValidation.CollectReady | internal/config/validate.go:257-269 | rebuilding a map from normalised values gives a normalised map |
| SchemaValidation.TransformedIsJsonReady | internal/config/validate.go:253-276 | after the transformation every map has string keys, at every depth |
| SchemaValidation.TransformedKeepsReady | internal/config/validate.go:255-276 | data that already has string keys everywhere is unchanged |
| SchemaValidation.Transformed | internal/config/validate.go:253-276 | the data with every map rebuilt with string keys; stated by SchemaValidation.TransformedIsJsonReady and SchemaValidation.TransformedKeepsReady |
| SchemaValidation.CollectKeys | internal/config/validate.go:263-269 | the rebuilt map has exactly the keys rendered with `%v` |
| SchemaValidation.CollectLast | internal/config/validate.go:263-269 | of several keys that render alike, the last one's value wins |
| SchemaValidation.TransformYamlData | internal/config/validate.go:255-276 | the result is the key normalisation of the data: maps are rebuilt, slices are transformed element by element keeping their length, and scalars are unchanged |
| SchemaValidation.TransformFields | internal/config/validate.go:257-262 | a string-keyed map is rebuilt with every value normalised under its own key |
| SchemaValidation.TransformEntries | internal/config/validate.go:263-269 | a map with other keys is rebuilt under the `%v`-rendered keys, in entry order |
| SchemaValidation.TransformItems | internal/config/validate.go:270-273 | a slice is normalised element by element |
| SchemaValidation.SetAdditionalProperties | internal/config/validate.go:228-234 | sets only additionalProperties, to the given flag |
| SchemaValidation.SetObjectProperties | internal/config/validate.go:236-251 | an empty property map changes nothing; otherwise only properties[name] is set, to the given map |
| PluginRegistry.Lookup | internal/plugins/repository.go:73-82 | a name is found if and only if it is loaded, giving the stored plugin; otherwise the error is "plugin <name> not found" |
| PluginRegistry.LoadAllKeeps | internal/plugins/repository.go:36-42 | loading never removes or replaces a plugin, and adds only the listed names |
| PluginRegistry.LoadAllOk | internal/plugins/repository.go:36-42 | loading succeeds if and only if every name is new, distinct from the others and starts; then each name finds its started plugin |
| PluginRegistry.LoadAllStops | internal/plugins/repository.go:36-42 | the first failing name ends the loading: later names change nothing |
| PluginRegistry.LoadThenGet | internal/plugins/repository.go:60-82 | loading a new name that starts makes it findable as that plugin, and every other lookup is unchanged |
| PluginRegistry.LoadOne | internal/plugins/repository.go:60-71 | one LoadPlugin call on the map: the already-loaded error, the start error, or the map with the new plugin; stated by PluginRegistry.LoadThenGet |
| PluginRegistry.LoadAll | internal/plugins/repository.go:36-42 | the names loaded in order, stopping at the first failure; stated by PluginRegistry.LoadAllKeeps, PluginRegistry.LoadAllOk and PluginRegistry.LoadAllStops |
| PluginRegistry.EnabledIn | internal/plugins/repository.go:88-91 | exactly the listed plugins that report enabled |
| PluginRegistry.EnabledCovers | internal/plugins/repository.go:88-91 | when the order lists every loaded plugin once, the plugins kept are exactly the loaded plugins that report enabled |
| PluginRegistry.PluginRepository.constructor | internal/plugins/repository.go:23-27 | a new registry has no plugins |
| PluginRegistry.PluginRepository.LoadPlugin | internal/plugins/repository.go:60-71 | a loaded name fails with "plugin <name> is already loaded", and a start failure passes its error on, both leaving the map unchanged; otherwise exactly that name is added |
| PluginRegistry.PluginRepository.LoadNames | internal/plugins/repository.go:36-42 | loads the names in order, stopping at the first failure |
| PluginRegistry.PluginRepository.LoadDefault | internal/plugins/repository.go:47-58 | does nothing when a plugin is loaded; otherwise loads the local plugins |
| PluginRegistry.PluginRepository.Load | internal/plugins/repository.go:30-44 | no data loads the defaults without error; otherwise the configured names are loaded once each, in map order, stopping at the first failure |
| PluginRegistry.PluginRepository.Get | internal/plugins/repository.go:73-82 | the stored plugin, or the not-found error for that name |
| PluginRegistry.PluginRepository.Enabled | internal/plugins/repository.go:88-91 | with the order listing every loaded plugin once: a plugin is in the result if and only if it is loaded and reports enabled, in that order, and there are at most as many as loaded |
| PluginRegistry.PluginRepository.SetRemoteState | internal/plugins/repository.go:93-99 | an unknown plugin gives the not-found error; otherwise the plugin's answer |
| PluginRegistry.PluginRepository.SetGlobalConfig | internal/plugins/repository.go:101-107 | an unknown plugin gives the not-found error; otherwise the plugin's answer |
| PluginRegistry.PluginRepository.SetSiteConfig | internal/plugins/repository.go:109-115 | an unknown plugin gives the not-found error; otherwise the plugin's answer for the site |
| PluginRegistry.PluginRepository.SetSiteComponentConfig | internal/plugins/repository.go:117-123 | an unknown plugin gives the not-found error; otherwise the plugin's answer for the site and component |
| PluginRegistry.PluginRepository.SetComponentConfig | internal/plugins/repository.go:125-131 | an unknown plugin gives the not-found error; otherwise the plugin's answer for the component |
| AzureRegions.FilterAzureRegionShort | generator/filters_azure.go:79-88 | a known region gives its abbreviation; any other fails from "filter:azure_region_short" with "region not found" |
| AzureRegions.FilterAzureRegionLong | generator/filters_azure.go:90-99 | a known region gives its display name; any other fails from "filter:azure_region_long" with "region not found" |
| AzureRegions.SameRegions | generator/filters_azure.go:9-77 | both tables list the same regions |
| AzureRegions.WestEurope | generator/filters_azure.go:19-54 | "westeurope" is "we" in the short table and "West Europe" in the long one |
| AzureRegions.UnknownRegion | generator/filters_azure.go:84-98 | a region missing from the tables fails in both filters with "region not found" |
| Strings.SplitN | internal/generator/variables.go:18-18 | splitting into at most n parts gives between 1 and n parts; the content is stated by Strings.SplitNJoin and Strings.SplitNPiecesHaveNoSeparator |
| Strings.SplitNJoin | internal/generator/variables.go:18-18 | the parts joined with the separator give back the input |
| Strings.SplitNPiecesHaveNoSeparator | internal/generator/variables.go:18-18 | every part but the last is free of the separator |
| Strings.Atoi | internal/config/validate.go:121-121 | a parsed number lies in the 64-bit range |
| Strings.AtoiOfIntToString | internal/config/validate.go:121-123 | parsing the decimal text of a 64-bit integer gives it back |
| Strings.ReplaceAllWhole | internal/generator/variables.go:28-28 | replacing a whole string gives the replacement |
| Strings.ReplaceAll | internal/generator/variables.go:28-28 | Go's strings.ReplaceAll for a non-empty pattern, scanning left to right; stated by Strings.ReplaceAllSkip, Strings.ReplaceAllFirst, Strings.ReplaceAllAbsent and Strings.ReplaceAllWhole |
| Strings.ReplaceAllSkip | internal/generator/variables.go:28-28 | a prefix in which no occurrence of the pattern starts is copied unchanged |
| Strings.ReplaceAllFirst | internal/generator/variables.go:28-28 | the leftmost occurrence is replaced, and replacing goes on after it, so occurrences do not overlap |
| Strings.ReplaceAllAbsent | internal/generator/variables.go:28-28 | a string in which the pattern does not occur is unchanged |
| Strings.Join | internal/generator/component.go:164-164 | no texts join to the empty string and a single text to itself |
| Strings.JoinSnoc | internal/generator/component.go:164-164 | each further text is added after one separator, at the end |

## Left out

- Per-node `Hash` and `HasConfigChanges`, `targetSiteNode`, building the dependency graph (`ToDependencyGraph`) and `validateDeployment` are not part of this model. `ToDeploymentGraph` receives their outcomes as parameters.
- Deployment.ReduceNodes: the graph library's breadth-first search visits vertices while the callback rewrites the graph. The model first computes the breadth-first order from the start node and then reduces along it. Every order the library can produce is allowed.
- Deployment.Visit: the library's own failures of `RemoveEdge`, `Edge`, `AddEdge` and `RemoveVertex` cannot occur on the owned graph, so those error paths are not modelled. In Go, `Type` is a string (internal/dependency/node.go:8-14). The model makes it an enumeration of the three declared kinds, because the graph builder only creates nodes of those kinds. With that choice only a site component can be dependent, so the "expected to be a site component" error is unreachable in the model.
- DependencyGraph.Graph.Routes: states that each route starts with a predecessor of the source, and that the result is empty without predecessors. The full list is stated by the recursive path enumeration it calls, not by `Routes` itself. The aliasing between slices appended in `fetchPathsToTarget` is not reproduced; paths are values.
- The sibling `ToDeploymentGraph` in internal/graph that the tests call is not part of this model. The scenario is proved against this reducer.
- ConfigVariable.UnmarshalVariables: requires mapping nodes to hold a value for every key, as the YAML decoder guarantees. The scalar check of `NewScalarVariable` is a parameter. The variable kinds' `TransformValue` and `ReferencedComponents` are parameters.
- TemplateVariable: the regular expression engine is replaced by a scanner for this one pattern.
- ComponentRender.RenderContext: the rest of `renderComponent` is left out. This covers `renderTerraformConfig`, `renderFileSources`, `renderResources`, reading the embedded template, `RenderGoTemplate` and joining the parts. Template rendering is outside the model. `HasCloudIntegration(&cfg.Global)` and `IsGitSource` are not shown, so they are boolean inputs.
- `registerComponentEndpoints`, `Decode` into components, and the forwarding of unknown component keys in `parseComponentsNode` are not modelled. They are plugin calls and YAML decoding. The key forwarding follows the same pattern as SiteParse.ForwardComponentConfig.
- ComponentsConfig.LoadComponentsNode: reading the file and decoding it are one parameter, so read and decode errors are not told apart.
- SiteParse.ResolveSiteComponents: on failure, Go has already updated the sites before the failing one. The model states only the error, not the array left behind.
- SiteParse.MigrateCommercetools: Go inserts into the caller's map of node pointers. The model returns the new map, and the warning it logs is left out.
- `mapYamlNodes`, `nodeAsMap`, `parseSitesNode` and the site-level plugin calls are not modelled. They are YAML decoding and plugin calls; `nodeAsMap` is a parameter of SiteParse.ForwardComponentConfig.
- SiteConfig.EndpointComponents: Go reads `c.Definition.Endpoints` for every site component (internal/config/types_site.go:100-101), so a component without a definition makes it panic on a nil pointer. The model states that case as the precondition `Resolved`. SiteConfig.ResolveEndpoints and SiteConfig.ResolveEndpointsAsWritten inherit it. SiteParse.SitesReadyForEndpoints shows that a successful resolution of the sites establishes it for every site.
- SiteConfig.ResolveEndpointsAsWritten: on failure, Go has already appended the endpoints before the failing raw value. The model returns only the error, as for SiteConfig.ResolveEndpoints below.
- SiteConfig.ResolveEndpoints: on failure, Go has already appended the endpoints before the failing raw value. The model returns only the error. The `decode` parameter stands for `yaml.Marshal` and `yaml.Unmarshal` of a mapping value, with their errors. `defaults.Set` is modelled by the call it makes to `Endpoint.SetDefaults` (SiteConfig.SetDefaults), in both branches. Its struct-tag defaults and its error are not modelled; no field of `Endpoint` carries a default tag. The printed warning is left out.
- SiteConfig.DNSZones: states that each zone of the used endpoints appears exactly once, not the order `pie.Unique` keeps.
- SiteConfig.SetDefaults: Go updates the endpoint through a pointer; the model returns the new endpoint. Azure settings of an endpoint are not modelled.
- SiteConfig.HasCloudIntegration: `log.Fatalf` on a missing definition is modelled as a precondition.
- SchemaValidation.Validation: `loadSchema`, `newYamlLoader` and gojsonschema are parameters. The text of `ValidationError.Error()` is not modelled. `createFullSchema` and `validateCompleteConfig` are left out; they depend on plugin schemas that are not visible.
- SchemaValidation.TransformYamlData: Go overwrites the elements of a slice in place, which the caller can see. The model returns the transformed value.
- SchemaValidation.SetAdditionalProperties: Go changes a map the caller shares, and panics when the value is not a map. The model returns the new map and makes the map shape a precondition.
- SchemaValidation.SetObjectProperties: the same aliasing and panics as SetAdditionalProperties.
- PluginRegistry.PluginRepository.Get: the panic on an empty name is modelled as a precondition.
- PluginRegistry.PluginRepository.LoadDefault: the panic when a default plugin fails to load is a precondition. `LocalPluginNames` is not shown, so the names are a parameter.
- PluginRegistry.PluginRepository.Load: the plugin properties are passed along but have no effect, as in the code. `All` returns the map itself and is not modelled separately.
- Deployment.ReduceOrderIndependent: proved for runs that succeed. When a misplaced node stops a run, which error is reported and how much was reduced before it depend on the visiting order. Within one site the nested configurations follow the visiting order, so only which configurations are collected is proved equal, not their order.
- SiteConfig.HasKey: `stringContains` is not shown in the source. `stringContains(xs, s)` is modelled as `s in xs`, and the finding about internal/config/types_site.go:83 depends on that reading.
- AzureRegions.SameRegions: the number of regions (32 in each table) is not stated.
- Logging, process start-up, file reading and the CLI are outside the model.

## Findings

| source | as written | input that shows it | evidently intended | confidence | as-written member | corrected member |
|---|---|---|---|---|---|---|
| internal/config/types_site.go:83 | appends an extra endpoint keyed "default" when a component uses "default" and the site's endpoints already contain "default" | a site with one component whose definition lists the endpoint "default": with the raw endpoints {"default": "example.com"} it ends with two endpoints keyed "default"; with no raw endpoints it gets none | add the default endpoint only when a component uses "default" and the site does not define it, as the comment and warning at lines 75-88 say | not executed | SiteConfig.ResolveEndpointsAsWritten (shown by SiteConfig.AsWrittenDefaultInverted) | SiteConfig.ResolveEndpoints (proved by SiteConfig.ResolvedHasDefault and SiteConfig.ResolvedKeepsDefinedDefault) |
