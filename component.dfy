/** The per-component parts of Terraform generation
    (internal/generator/component.go): the remote-state sources a component
    reads from, and the values the component template is filled with. */
module ComponentRender {
  import opened Wrappers
  import opened Strings
  import opened ConfigVariable

  /** The remote-state texts of the parents, in order; the first parent
      missing from the state repository, or whose remote state fails,
      ends the walk with that error. `states` maps each component the
      repository has to what its renderer's RemoteState returns. */
  function RemoteStates(parents: seq<string>, states: map<string, Result<string>>): (r: Result<seq<string>>)
  {
    if |parents| == 0 then Ok([])
    else if parents[0] !in states then Err(MissingRemoteState(parents[0]))
    else match states[parents[0]]
      case Err(e) => Err(e)
      case Ok(text) =>
        match RemoteStates(parents[1..], states)
        case Err(e) => Err(e)
        case Ok(rest) => Ok([text] + rest)
  }

  function MissingRemoteState(parent: string): string {
    "missing remoteState for " + parent
  }

  /** The walk succeeds exactly when every parent has a remote state that
      renders, and then holds one text per parent in parent order. */
  lemma {:induction false} RemoteStatesOk(parents: seq<string>, states: map<string, Result<string>>)
    ensures RemoteStates(parents, states).Ok? <==>
              forall i :: 0 <= i < |parents| ==> parents[i] in states && states[parents[i]].Ok?
    ensures RemoteStates(parents, states).Ok? ==>
              var texts := RemoteStates(parents, states).value;
              |texts| == |parents|
              && forall i :: 0 <= i < |parents| ==> states[parents[i]] == Ok(texts[i])
  {
    if |parents| > 0 {
      RemoteStatesOk(parents[1..], states);
      assert forall i :: 1 <= i < |parents| ==> parents[1..][i - 1] == parents[i];
    }
  }

  /** A failure is the error of the first parent that has none or whose
      remote state fails. */
  lemma {:induction false} RemoteStatesFirstError(parents: seq<string>, states: map<string, Result<string>>, k: nat)
    requires k < |parents|
    requires forall j :: 0 <= j < k ==> parents[j] in states && states[parents[j]].Ok?
    requires parents[k] !in states || states[parents[k]].Err?
    ensures RemoteStates(parents, states)
            == Err(if parents[k] !in states then MissingRemoteState(parents[k]) else states[parents[k]].error)
    decreases k
  {
    if k > 0 {
      forall j | 0 <= j < k - 1
        ensures parents[1..][j] in states && states[parents[1..][j]].Ok?
      {
        assert parents[1..][j] == parents[j + 1];
      }
      assert parents[1..][k - 1] == parents[k];
      RemoteStatesFirstError(parents[1..], states, k - 1);
    }
  }

  /** The prefix `done` in front of what the rest of a walk yields. */
  function Prepend<T>(done: seq<T>, r: Result<seq<T>>): Result<seq<T>> {
    match r
    case Ok(rest) => Ok(done + rest)
    case Err(e) => Err(e)
  }

  /** A one-step concatenation fact, used only to keep the loop invariants
      of RenderRemoteSources and AddPluginSnippets: an empty prefix adds nothing. */
  lemma PrependNothing<T>(r: Result<seq<T>>)
    ensures Prepend([], r) == r
  {
    if r.Ok? {
      assert [] + r.value == r.value;
    }
  }

  /** A one-step concatenation fact, used only to keep the loop invariants
      of RenderRemoteSources and AddPluginSnippets: two prefixes prepend as one. */
  lemma PrependTwice<T>(a: seq<T>, b: seq<T>, r: Result<seq<T>>)
    ensures Prepend(a, Prepend(b, r)) == Prepend(a + b, r)
  {
    if r.Ok? {
      assert a + (b + r.value) == (a + b) + r.value;
    }
  }

  /** Go's renderRemoteSources for a component whose variables reference
      `variableParents` and whose secrets reference `secretParents`: the
      remote-state texts joined with newlines. */
  method RenderRemoteSources(variableParents: seq<string>, secretParents: seq<string>,
                             states: map<string, Result<string>>)
    returns (r: Result<string>)
    ensures match RemoteStates(variableParents + secretParents, states)
            case Ok(texts) => r == Ok(Join(texts, "\n"))
            case Err(e) => r == Err(e)
    ensures |variableParents + secretParents| == 0 ==> r == Ok("")
  {
    var parents := variableParents + secretParents;
    var result: seq<string> := [];
    var i := 0;
    assert parents[0..] == parents;
    PrependNothing(RemoteStates(parents, states));
    while i < |parents|
      invariant 0 <= i <= |parents|
      invariant RemoteStates(parents, states) == Prepend(result, RemoteStates(parents[i..], states))
    {
      var parent := parents[i];
      assert parents[i..][1..] == parents[i + 1..];
      if parent !in states {
        return Err(MissingRemoteState(parent));
      }
      var remoteState := states[parent];
      if remoteState.Err? {
        return Err(remoteState.error);
      }
      PrependTwice(result, [remoteState.value], RemoteStates(parents[i + 1..], states));
      result := result + [remoteState.value];
      i := i + 1;
    }
    assert parents[i..] == [] && result + [] == result;
    return Ok(Join(result, "\n"));
  }

  /** What a plugin's RenderTerraformComponent contributes when it returns
      something. */
  datatype PluginSnippet = PluginSnippet(resources: string, variables: string,
                                         providers: seq<string>, dependsOn: seq<string>)

  /** The snippets of the plugins, in order, from those the component lists
      among its integrations and that return one; the first render failure
      is the error. `render` is each plugin's RenderTerraformComponent for
      this site and component. */
  function Snippets(plugins: seq<string>, integrations: seq<string>,
                    render: string -> Result<Option<PluginSnippet>>): (r: Result<seq<PluginSnippet>>)
  {
    if |plugins| == 0 then Ok([])
    else if plugins[0] !in integrations then Snippets(plugins[1..], integrations, render)
    else match render(plugins[0])
      case Err(e) => Err(RenderFailed(plugins[0], e))
      case Ok(None) => Snippets(plugins[1..], integrations, render)
      case Ok(Some(s)) =>
        match Snippets(plugins[1..], integrations, render)
        case Err(e) => Err(e)
        case Ok(rest) => Ok([s] + rest)
  }

  function RenderFailed(plugin: string, e: string): string {
    "plugin " + plugin + " failed to render component: " + e
  }

  /** Whether a plugin neither fails nor contributes. */
  predicate Silent(p: string, integrations: seq<string>, render: string -> Result<Option<PluginSnippet>>) {
    p !in integrations || render(p) == Ok(None)
  }

  /** Snippets of a concatenation: the first part's, then the second's. */
  lemma {:induction false} SnippetsAppend(ps: seq<string>, qs: seq<string>, integrations: seq<string>,
                                          render: string -> Result<Option<PluginSnippet>>)
    ensures Snippets(ps + qs, integrations, render)
            == match Snippets(ps, integrations, render)
               case Err(e) => Err(e)
               case Ok(front) =>
                 match Snippets(qs, integrations, render)
                 case Err(e) => Err(e)
                 case Ok(back) => Ok(front + back)
  {
    if |ps| > 0 {
      assert (ps + qs)[1..] == ps[1..] + qs;
      assert (ps + qs)[0] == ps[0];
      SnippetsAppend(ps[1..], qs, integrations, render);
      if ps[0] in integrations && render(ps[0]).Ok? && render(ps[0]).value.Some? {
        var s := render(ps[0]).value.value;
        match Snippets(ps[1..], integrations, render)
        case Err(e) =>
        case Ok(front) =>
          match Snippets(qs, integrations, render)
          case Err(e) =>
          case Ok(back) => assert [s] + (front + back) == ([s] + front) + back;
      }
    } else {
      assert ps + qs == qs;
      match Snippets(qs, integrations, render)
      case Err(e) =>
      case Ok(back) => assert [] + back == back;
    }
  }

  /** A plugin the component does not list, or that renders nothing,
      changes neither the snippets nor their order. */
  lemma SilentPluginContributesNothing(ps: seq<string>, p: string, qs: seq<string>, integrations: seq<string>,
                                       render: string -> Result<Option<PluginSnippet>>)
    requires Silent(p, integrations, render)
    ensures Snippets(ps + [p] + qs, integrations, render) == Snippets(ps + qs, integrations, render)
  {
    SnippetsAppend(ps + [p], qs, integrations, render);
    SnippetsAppend(ps, [p], integrations, render);
    SnippetsAppend(ps, qs, integrations, render);
    assert Snippets([p], integrations, render) == Ok([]) by {
      assert [p][1..] == [];
    }
    match Snippets(ps, integrations, render)
    case Err(e) =>
    case Ok(front) => assert front + [] == front;
  }

  function Resources(snippets: seq<PluginSnippet>): (r: seq<string>)
    ensures |r| == |snippets| && forall i :: 0 <= i < |r| ==> r[i] == snippets[i].resources
  {
    if |snippets| == 0 then [] else [snippets[0].resources] + Resources(snippets[1..])
  }

  function Variables(snippets: seq<PluginSnippet>): (r: seq<string>)
    ensures |r| == |snippets| && forall i :: 0 <= i < |r| ==> r[i] == snippets[i].variables
  {
    if |snippets| == 0 then [] else [snippets[0].variables] + Variables(snippets[1..])
  }

  function Providers(snippets: seq<PluginSnippet>): seq<string> {
    if |snippets| == 0 then [] else snippets[0].providers + Providers(snippets[1..])
  }

  function DependsOn(snippets: seq<PluginSnippet>): seq<string> {
    if |snippets| == 0 then [] else snippets[0].dependsOn + DependsOn(snippets[1..])
  }

  /** The flattened provider and dependency lists grow by a snippet's own
      lists, appended at the end. */
  lemma {:induction false} FlattenSnoc(snippets: seq<PluginSnippet>, s: PluginSnippet)
    ensures Resources(snippets + [s]) == Resources(snippets) + [s.resources]
    ensures Variables(snippets + [s]) == Variables(snippets) + [s.variables]
    ensures Providers(snippets + [s]) == Providers(snippets) + s.providers
    ensures DependsOn(snippets + [s]) == DependsOn(snippets) + s.dependsOn
  {
    if |snippets| == 0 {
      assert [] + [s] == [s] && [s][1..] == [];
    } else {
      assert (snippets + [s])[1..] == snippets[1..] + [s];
      FlattenSnoc(snippets[1..], s);
    }
  }

  /** The parts of a site component the template values come from; the
      definition fields are those of the resolved global component. */
  datatype ComponentInput = ComponentInput(name: string, version: string, source: string,
                                           integrations: seq<string>,
                                           variables: VariablesMap, secrets: VariablesMap)

  /** The values renderComponent fills its template with. */
  datatype ComponentContext = ComponentContext(
    componentName: string, siteName: string, environment: string, source: string,
    pluginResources: seq<string>, pluginProviders: seq<string>,
    pluginDependsOn: seq<string>, pluginVariables: seq<string>,
    componentVariables: string, componentSecrets: string,
    componentVersion: string, hasCloudIntegration: bool)

  /** A component's `variables` or `secrets` block: the serialised values
      when there are any, otherwise the empty block for a component with a
      cloud integration and nothing for other components. */
  function Block(name: string, values: VariablesMap, hasCloudIntegration: bool,
                 serialize: (string, VariablesMap) -> Result<string>): Result<string>
  {
    if |values| > 0 then serialize(name, values)
    else Ok(if hasCloudIntegration then name + " = {}" else "")
  }

  /** The module source: a Git source pins the version with `?ref=`. */
  function SourceOf(c: ComponentInput, isGitSource: bool): string {
    if isGitSource then c.source + "?ref=" + c.version else c.source
  }

  /** The template values of a component, or the first error in the order
      renderComponent meets them: a plugin failing, then the variables,
      then the secrets failing to serialise. */
  function ContextOf(c: ComponentInput, siteIdentifier: string, environment: string,
                     plugins: seq<string>, render: string -> Result<Option<PluginSnippet>>,
                     hasCloudIntegration: bool, isGitSource: bool,
                     serialize: (string, VariablesMap) -> Result<string>): Result<ComponentContext>
  {
    match Snippets(plugins, c.integrations, render)
    case Err(e) => Err(e)
    case Ok(snippets) =>
      match Block("variables", c.variables, hasCloudIntegration, serialize)
      case Err(e) => Err(e)
      case Ok(variables) =>
        match Block("secrets", c.secrets, hasCloudIntegration, serialize)
        case Err(e) => Err(e)
        case Ok(secrets) =>
          Ok(ComponentContext(c.name, siteIdentifier, environment, SourceOf(c, isGitSource),
                              Resources(snippets), Providers(snippets), DependsOn(snippets), Variables(snippets),
                              variables, secrets, c.version, hasCloudIntegration))
  }

  /** The fields renderComponent selects: the empty `variables = {}` and
      `secrets = {}` blocks for a component with a cloud integration unless
      it has values of its own, the serialised values when it has, and a
      `?ref=` pin on a Git source. */
  lemma ContextFields(c: ComponentInput, siteIdentifier: string, environment: string,
                      plugins: seq<string>, render: string -> Result<Option<PluginSnippet>>,
                      hasCloudIntegration: bool, isGitSource: bool,
                      serialize: (string, VariablesMap) -> Result<string>)
    requires ContextOf(c, siteIdentifier, environment, plugins, render,
                       hasCloudIntegration, isGitSource, serialize).Ok?
    ensures var tc := ContextOf(c, siteIdentifier, environment, plugins, render,
                                hasCloudIntegration, isGitSource, serialize).value;
            && (|c.variables| == 0 ==> tc.componentVariables == if hasCloudIntegration then "variables = {}" else "")
            && (|c.secrets| == 0 ==> tc.componentSecrets == if hasCloudIntegration then "secrets = {}" else "")
            && (|c.variables| > 0 ==> serialize("variables", c.variables) == Ok(tc.componentVariables))
            && (|c.secrets| > 0 ==> serialize("secrets", c.secrets) == Ok(tc.componentSecrets))
            && tc.source == (if isGitSource then c.source + "?ref=" + c.version else c.source)
            && tc.hasCloudIntegration == hasCloudIntegration
            && Snippets(plugins, c.integrations, render).Ok?
            && tc.pluginResources == Resources(Snippets(plugins, c.integrations, render).value)
  {
    assert "variables" + " = {}" == "variables = {}" && "secrets" + " = {}" == "secrets = {}";
  }

  /** `tc` with the snippets' parts appended to its plugin lists. */
  function WithSnippets(tc: ComponentContext, snippets: seq<PluginSnippet>): ComponentContext {
    tc.(pluginResources := tc.pluginResources + Resources(snippets),
        pluginVariables := tc.pluginVariables + Variables(snippets),
        pluginProviders := tc.pluginProviders + Providers(snippets),
        pluginDependsOn := tc.pluginDependsOn + DependsOn(snippets))
  }

  lemma WithSnippetsSnoc(tc: ComponentContext, snippets: seq<PluginSnippet>, s: PluginSnippet)
    ensures WithSnippets(tc, snippets + [s])
            == var t := WithSnippets(tc, snippets);
               t.(pluginResources := t.pluginResources + [s.resources],
                  pluginVariables := t.pluginVariables + [s.variables],
                  pluginProviders := t.pluginProviders + s.providers,
                  pluginDependsOn := t.pluginDependsOn + s.dependsOn)
  {
    FlattenSnoc(snippets, s);
    AppendAssoc(tc.pluginResources, Resources(snippets), [s.resources]);
    AppendAssoc(tc.pluginVariables, Variables(snippets), [s.variables]);
    AppendAssoc(tc.pluginProviders, Providers(snippets), s.providers);
    AppendAssoc(tc.pluginDependsOn, DependsOn(snippets), s.dependsOn);
  }

  /** A context without plugin parts takes the snippets' parts as they are. */
  lemma WithSnippetsOfEmpty(tc: ComponentContext, snippets: seq<PluginSnippet>)
    requires tc.pluginResources == tc.pluginVariables == tc.pluginProviders == tc.pluginDependsOn == []
    ensures WithSnippets(tc, snippets) == tc.(pluginResources := Resources(snippets),
                                              pluginVariables := Variables(snippets),
                                              pluginProviders := Providers(snippets),
                                              pluginDependsOn := DependsOn(snippets))
  {
    assert [] + Resources(snippets) == Resources(snippets) && [] + Variables(snippets) == Variables(snippets);
    assert [] + Providers(snippets) == Providers(snippets) && [] + DependsOn(snippets) == DependsOn(snippets);
  }

  lemma AppendAssoc(a: seq<string>, b: seq<string>, c: seq<string>)
    ensures a + (b + c) == (a + b) + c
  {
  }

  /** The plugin loop of renderComponent: each plugin the component lists
      and that returns a snippet appends its parts to the template values. */
  method AddPluginSnippets(tc0: ComponentContext, plugins: seq<string>, integrations: seq<string>,
                           render: string -> Result<Option<PluginSnippet>>)
    returns (r: Result<ComponentContext>)
    ensures r == match Snippets(plugins, integrations, render)
                 case Err(e) => Err(e)
                 case Ok(snippets) => Ok(WithSnippets(tc0, snippets))
  {
    var tc := tc0;
    ghost var taken: seq<PluginSnippet> := [];
    var i := 0;
    assert plugins[0..] == plugins;
    PrependNothing(Snippets(plugins, integrations, render));
    assert WithSnippets(tc0, []) == tc0 by {
      assert tc0.pluginResources + [] == tc0.pluginResources && tc0.pluginVariables + [] == tc0.pluginVariables;
      assert tc0.pluginProviders + [] == tc0.pluginProviders && tc0.pluginDependsOn + [] == tc0.pluginDependsOn;
    }
    while i < |plugins|
      invariant 0 <= i <= |plugins|
      invariant Snippets(plugins, integrations, render) == Prepend(taken, Snippets(plugins[i..], integrations, render))
      invariant tc == WithSnippets(tc0, taken)
    {
      var name := plugins[i];
      ghost var rest := Snippets(plugins[i + 1..], integrations, render);
      assert plugins[i..][1..] == plugins[i + 1..] && plugins[i..][0] == name;
      i := i + 1;
      if name !in integrations {
        continue;
      }
      var cr := render(name);
      if cr.Err? {
        return Err(RenderFailed(name, cr.error));
      }
      if cr.value.None? {
        continue;
      }
      var s := cr.value.value;
      PrependTwice(taken, [s], rest);
      WithSnippetsSnoc(tc0, taken, s);
      taken := taken + [s];
      tc := tc.(pluginResources := tc.pluginResources + [s.resources],
                pluginVariables := tc.pluginVariables + [s.variables],
                pluginProviders := tc.pluginProviders + s.providers,
                pluginDependsOn := tc.pluginDependsOn + s.dependsOn);
    }
    assert plugins[i..] == [] && taken + [] == taken;
    return Ok(tc);
  }

  /** Go's renderComponent up to the template call: the template values,
      filled in step by step. `plugins` lists the repository's plugins in
      the order the map iteration yields them. */
  method RenderContext(c: ComponentInput, siteIdentifier: string, environment: string,
                       plugins: seq<string>, render: string -> Result<Option<PluginSnippet>>,
                       hasCloudIntegration: bool, isGitSource: bool,
                       serialize: (string, VariablesMap) -> Result<string>)
    returns (r: Result<ComponentContext>)
    ensures r == ContextOf(c, siteIdentifier, environment, plugins, render,
                           hasCloudIntegration, isGitSource, serialize)
  {
    var base := ComponentContext(c.name, siteIdentifier, environment, c.source,
                                 [], [], [], [], "", "", c.version, false);
    var withPlugins := AddPluginSnippets(base, plugins, c.integrations, render);
    if withPlugins.Err? {
      return Err(withPlugins.error);
    }
    var tc := withPlugins.value;
    ghost var snippets := Snippets(plugins, c.integrations, render).value;
    WithSnippetsOfEmpty(base, snippets);
    assert "variables" + " = {}" == "variables = {}" && "secrets" + " = {}" == "secrets = {}";
    if hasCloudIntegration {
      tc := tc.(hasCloudIntegration := true, componentVariables := "variables = {}",
                componentSecrets := "secrets = {}");
    }
    if |c.variables| > 0 {
      var val := serialize("variables", c.variables);
      if val.Err? {
        return Err(val.error);
      }
      tc := tc.(componentVariables := val.value);
    }
    assert Block("variables", c.variables, hasCloudIntegration, serialize) == Ok(tc.componentVariables);
    if |c.secrets| > 0 {
      var val := serialize("secrets", c.secrets);
      if val.Err? {
        return Err(val.error);
      }
      tc := tc.(componentSecrets := val.value);
    }
    assert Block("secrets", c.secrets, hasCloudIntegration, serialize) == Ok(tc.componentSecrets);
    if isGitSource {
      tc := tc.(source := tc.source + "?ref=" + c.version);
    }
    return Ok(tc);
  }
}
