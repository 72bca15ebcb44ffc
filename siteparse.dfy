/** Reading the `sites:` block (internal/config/parse_site.go): linking each
    site component to its global definition, moving the old top-level
    `store_variables`/`store_secrets` keys under `commercetools`, and
    handing every other key of a site component to the plugins. */
module SiteParse {
  import opened Wrappers
  import Yaml
  import opened ConfigVariable
  import opened ComponentsConfig
  import opened SiteConfig

  /** The global components by name; of several with one name, the last. */
  function Index(cs: seq<Component>): map<string, Component> {
    if |cs| == 0 then map[] else Index(cs[..|cs| - 1])[cs[|cs| - 1].name := cs[|cs| - 1]]
  }

  /** A name is in the index exactly when some component has it, and it maps
      to the last such component. */
  lemma {:induction false} IndexSpec(cs: seq<Component>, name: string)
    ensures name in Index(cs) <==> exists i :: 0 <= i < |cs| && cs[i].name == name
    ensures name in Index(cs) ==>
              exists i :: 0 <= i < |cs| && cs[i].name == name && Index(cs)[name] == cs[i]
                          && forall j :: i < j < |cs| ==> cs[j].name != name
  {
    if |cs| > 0 {
      var init := cs[..|cs| - 1];
      IndexSpec(init, name);
      forall i | 0 <= i < |init|
        ensures init[i] == cs[i]
      {
      }
    }
  }

  /** The name-to-component map resolveSiteComponents builds first. */
  method BuildIndex(cs: seq<Component>) returns (components: map<string, Component>)
    ensures components == Index(cs)
  {
    components := map[];
    var i := 0;
    while i < |cs|
      invariant 0 <= i <= |cs|
      invariant components == Index(cs[..i])
    {
      assert cs[..i + 1][..i] == cs[..i];
      components := components[cs[i].name := cs[i]];
      i := i + 1;
    }
    assert cs[..i] == cs;
  }

  function NotFound(name: string): string {
    "component " + name + " does not exist in global components."
  }

  /** One site component resolved: its definition looked up by name, then
      its variables and its secrets interpolated (`interpolate` is
      InterpolateComponentVars). */
  function ResolveOne(c: SiteComponent, index: map<string, Component>,
                      interpolate: VariablesMap -> Result<VariablesMap>): Result<SiteComponent>
  {
    if c.name !in index then Err(NotFound(c.name))
    else match interpolate(c.variables)
      case Err(e) => Err(e)
      case Ok(vs) =>
        match interpolate(c.secrets)
        case Err(e) => Err(e)
        case Ok(ss) => Ok(c.(definition := Some(index[c.name]), variables := vs, secrets := ss))
  }

  /** A resolved component keeps its name and carries the indexed definition. */
  lemma ResolveOneSpec(c: SiteComponent, index: map<string, Component>,
                       interpolate: VariablesMap -> Result<VariablesMap>)
    ensures ResolveOne(c, index, interpolate).Ok? <==>
              c.name in index && interpolate(c.variables).Ok? && interpolate(c.secrets).Ok?
    ensures c.name !in index ==> ResolveOne(c, index, interpolate) == Err(NotFound(c.name))
    ensures ResolveOne(c, index, interpolate).Ok? ==>
              var r := ResolveOne(c, index, interpolate).value;
              && r.name == c.name && r.definition == Some(index[c.name])
              && r.variables == interpolate(c.variables).value && r.secrets == interpolate(c.secrets).value
  {
  }

  /** The components of one site resolved in order, or the first failure. */
  function ResolveAll(cs: seq<SiteComponent>, index: map<string, Component>,
                      interpolate: VariablesMap -> Result<VariablesMap>): Result<seq<SiteComponent>>
  {
    if |cs| == 0 then Ok([])
    else
      match ResolveAll(cs[..|cs| - 1], index, interpolate)
      case Err(e) => Err(e)
      case Ok(front) =>
        match ResolveOne(cs[|cs| - 1], index, interpolate)
        case Err(e) => Err(e)
        case Ok(c) => Ok(front + [c])
  }

  /** All components resolve exactly when each does, and then in place. */
  lemma {:induction false} ResolveAllOk(cs: seq<SiteComponent>, index: map<string, Component>,
                                        interpolate: VariablesMap -> Result<VariablesMap>)
    ensures ResolveAll(cs, index, interpolate).Ok? <==>
              forall j :: 0 <= j < |cs| ==> ResolveOne(cs[j], index, interpolate).Ok?
    ensures ResolveAll(cs, index, interpolate).Ok? ==>
              var rs := ResolveAll(cs, index, interpolate).value;
              |rs| == |cs| && forall j :: 0 <= j < |cs| ==> ResolveOne(cs[j], index, interpolate) == Ok(rs[j])
  {
    if |cs| > 0 {
      var init := cs[..|cs| - 1];
      ResolveAllOk(init, index, interpolate);
      forall j | 0 <= j < |init|
        ensures init[j] == cs[j]
      {
      }
    }
  }

  /** The first component that does not resolve decides the error; in
      particular the first one missing from the index reports its name. */
  lemma {:induction false} ResolveAllFirstError(cs: seq<SiteComponent>, k: nat, index: map<string, Component>,
                                                interpolate: VariablesMap -> Result<VariablesMap>)
    requires k < |cs| && ResolveOne(cs[k], index, interpolate).Err?
    requires forall j :: 0 <= j < k ==> ResolveOne(cs[j], index, interpolate).Ok?
    ensures ResolveAll(cs, index, interpolate) == Err(ResolveOne(cs[k], index, interpolate).error)
  {
    var init := cs[..|cs| - 1];
    if k < |cs| - 1 {
      forall j | 0 <= j < k
        ensures ResolveOne(init[j], index, interpolate).Ok?
      {
        assert init[j] == cs[j];
      }
      assert init[k] == cs[k];
      ResolveAllFirstError(init, k, index, interpolate);
    } else {
      forall j | 0 <= j < |init|
        ensures ResolveOne(init[j], index, interpolate).Ok?
      {
        assert init[j] == cs[j];
      }
      ResolveAllOk(init, index, interpolate);
    }
  }

  /** A site after resolution: one without components is left as it is. */
  function ResolveSite(s: Site, index: map<string, Component>,
                       interpolate: VariablesMap -> Result<VariablesMap>): Result<Site>
  {
    if |s.components| < 1 then Ok(s)
    else
      match ResolveAll(s.components, index, interpolate)
      case Err(e) => Err(e)
      case Ok(cs) => Ok(s.(components := cs))
  }

  /** Every site resolved in order, or the first failure. */
  function ResolveSites(sites: seq<Site>, index: map<string, Component>,
                        interpolate: VariablesMap -> Result<VariablesMap>): Result<seq<Site>>
  {
    if |sites| == 0 then Ok([])
    else
      match ResolveSites(sites[..|sites| - 1], index, interpolate)
      case Err(e) => Err(e)
      case Ok(front) =>
        match ResolveSite(sites[|sites| - 1], index, interpolate)
        case Err(e) => Err(e)
        case Ok(s) => Ok(front + [s])
  }

  lemma {:induction false} ResolveSitesOk(sites: seq<Site>, index: map<string, Component>,
                                          interpolate: VariablesMap -> Result<VariablesMap>)
    ensures ResolveSites(sites, index, interpolate).Ok? <==>
              forall i :: 0 <= i < |sites| ==> ResolveSite(sites[i], index, interpolate).Ok?
    ensures ResolveSites(sites, index, interpolate).Ok? ==>
              var ss := ResolveSites(sites, index, interpolate).value;
              |ss| == |sites| && forall i :: 0 <= i < |sites| ==> ResolveSite(sites[i], index, interpolate) == Ok(ss[i])
  {
    if |sites| > 0 {
      var init := sites[..|sites| - 1];
      ResolveSitesOk(init, index, interpolate);
      forall i | 0 <= i < |init|
        ensures init[i] == sites[i]
      {
      }
    }
  }

  /** After a successful resolution every site component, kept in its place
      and under its name, has as definition the global component of that
      name; sites without components are unchanged. */
  lemma SitesResolved(components: seq<Component>, sites: seq<Site>,
                      interpolate: VariablesMap -> Result<VariablesMap>)
    requires ResolveSites(sites, Index(components), interpolate).Ok?
    ensures var ss := ResolveSites(sites, Index(components), interpolate).value;
            && |ss| == |sites|
            && (forall i :: 0 <= i < |sites| && |sites[i].components| < 1 ==> ss[i] == sites[i])
            && forall i, j :: 0 <= i < |sites| && 0 <= j < |sites[i].components| ==>
                 && |ss[i].components| == |sites[i].components|
                 && ss[i].components[j].name == sites[i].components[j].name
                 && sites[i].components[j].name in Index(components)
                 && ss[i].components[j].definition == Some(Index(components)[sites[i].components[j].name])
  {
    var index := Index(components);
    ResolveSitesOk(sites, index, interpolate);
    var ss := ResolveSites(sites, index, interpolate).value;
    forall i, j | 0 <= i < |sites| && 0 <= j < |sites[i].components|
      ensures && |ss[i].components| == |sites[i].components|
              && ss[i].components[j].name == sites[i].components[j].name
              && sites[i].components[j].name in index
              && ss[i].components[j].definition == Some(index[sites[i].components[j].name])
    {
      assert ResolveSite(sites[i], index, interpolate) == Ok(ss[i]);
      ResolveAllOk(sites[i].components, index, interpolate);
      ResolveOneSpec(sites[i].components[j], index, interpolate);
    }
  }

  /** After a successful resolution every site meets the precondition of
      endpoint resolution: each of its components has a definition. */
  lemma SitesReadyForEndpoints(components: seq<Component>, sites: seq<Site>,
                               interpolate: VariablesMap -> Result<VariablesMap>)
    requires ResolveSites(sites, Index(components), interpolate).Ok?
    ensures var ss := ResolveSites(sites, Index(components), interpolate).value;
            && |ss| == |sites|
            && forall i :: 0 <= i < |ss| ==> Resolved(ss[i].components)
  {
    var index := Index(components);
    ResolveSitesOk(sites, index, interpolate);
    var ss := ResolveSites(sites, index, interpolate).value;
    forall i | 0 <= i < |ss|
      ensures Resolved(ss[i].components)
    {
      if |sites[i].components| >= 1 {
        assert ResolveSite(sites[i], index, interpolate) == Ok(ss[i]);
        ResolveAllOk(sites[i].components, index, interpolate);
        forall j | 0 <= j < |ss[i].components|
          ensures ss[i].components[j].definition.Some?
        {
          ResolveOneSpec(sites[i].components[j], index, interpolate);
        }
      }
    }
  }

  /** The components of one site resolved in turn, each written back in its
      place; the first failure ends the walk. */
  method ResolveComponents(cs: seq<SiteComponent>, index: map<string, Component>,
                           interpolate: VariablesMap -> Result<VariablesMap>)
    returns (r: Result<seq<SiteComponent>>)
    ensures r == ResolveAll(cs, index, interpolate)
  {
    var current := cs;
    var i := 0;
    while i < |cs|
      invariant 0 <= i <= |cs| && |current| == |cs|
      invariant ResolveAll(cs[..i], index, interpolate) == Ok(current[..i])
      invariant current[i..] == cs[i..]
    {
      var c := current[i];
      assert c == cs[i];
      if c.name !in index {
        ResolveAllStops(cs, i, index, interpolate);
        return Err(NotFound(c.name));
      }
      c := c.(definition := Some(index[c.name]));
      var vs := interpolate(c.variables);
      if vs.Err? {
        ResolveAllStops(cs, i, index, interpolate);
        return Err(vs.error);
      }
      c := c.(variables := vs.value);
      var ss := interpolate(c.secrets);
      if ss.Err? {
        ResolveAllStops(cs, i, index, interpolate);
        return Err(ss.error);
      }
      c := c.(secrets := ss.value);
      assert ResolveOne(cs[i], index, interpolate) == Ok(c);
      ResolveAllSnoc(cs, i, current[..i], c, index, interpolate);
      ghost var before := current;
      current := current[i := c];
      assert current[..i + 1] == before[..i] + [c];
      assert current[i + 1..] == before[i + 1..];
      i := i + 1;
    }
    assert cs[..i] == cs && current[..i] == current;
    return Ok(current);
  }

  /** One more resolved component extends the resolved prefix. */
  lemma ResolveAllSnoc(cs: seq<SiteComponent>, i: nat, front: seq<SiteComponent>, c: SiteComponent,
                       index: map<string, Component>, interpolate: VariablesMap -> Result<VariablesMap>)
    requires i < |cs|
    requires ResolveAll(cs[..i], index, interpolate) == Ok(front)
    requires ResolveOne(cs[i], index, interpolate) == Ok(c)
    ensures ResolveAll(cs[..i + 1], index, interpolate) == Ok(front + [c])
  {
    assert cs[..i + 1][..i] == cs[..i];
  }

  /** The first component that fails to resolve fails the whole walk. */
  lemma ResolveAllStops(cs: seq<SiteComponent>, i: nat, index: map<string, Component>,
                        interpolate: VariablesMap -> Result<VariablesMap>)
    requires i < |cs|
    requires ResolveAll(cs[..i], index, interpolate).Ok? && ResolveOne(cs[i], index, interpolate).Err?
    ensures ResolveAll(cs, index, interpolate) == Err(ResolveOne(cs[i], index, interpolate).error)
  {
    assert cs[..i + 1][..i] == cs[..i];
    ResolvePrefixError(cs, i + 1, index, interpolate);
  }

  /** A failing prefix fails the whole walk with its error. */
  lemma {:induction false} ResolvePrefixError(cs: seq<SiteComponent>, n: nat, index: map<string, Component>,
                                              interpolate: VariablesMap -> Result<VariablesMap>)
    requires n <= |cs| && ResolveAll(cs[..n], index, interpolate).Err?
    ensures ResolveAll(cs, index, interpolate) == ResolveAll(cs[..n], index, interpolate)
    decreases |cs| - n
  {
    if n < |cs| {
      assert cs[..n + 1][..n] == cs[..n];
      ResolvePrefixError(cs, n + 1, index, interpolate);
    } else {
      assert cs[..n] == cs;
    }
  }

  /** The walk has resolved the first `i` sites of `original` into `now`
      and left the rest as they were. */
  ghost predicate SitesDone(original: seq<Site>, now: seq<Site>, i: nat, index: map<string, Component>,
                            interpolate: VariablesMap -> Result<VariablesMap>) {
    && i <= |original| && |now| == |original|
    && ResolveSites(original[..i], index, interpolate) == Ok(now[..i])
    && now[i..] == original[i..]
  }

  lemma SitesStep(original: seq<Site>, now: seq<Site>, i: nat, index: map<string, Component>,
                  interpolate: VariablesMap -> Result<VariablesMap>, site: Site, next: seq<Site>)
    requires SitesDone(original, now, i, index, interpolate) && i < |original|
    requires ResolveSite(original[i], index, interpolate) == Ok(site) && next == now[i := site]
    ensures SitesDone(original, next, i + 1, index, interpolate)
  {
    assert original[..i + 1][..i] == original[..i];
    assert next[..i + 1] == now[..i] + [site];
    assert next[i + 1..] == now[i + 1..];
  }

  /** Go's resolveSiteComponents: every component of every site that has
      components gets its definition and interpolated variables and secrets,
      written back into the site. */
  method ResolveSiteComponents(components: seq<Component>, sites: array<Site>,
                               interpolate: VariablesMap -> Result<VariablesMap>)
    returns (err: Option<string>)
    modifies sites
    ensures match ResolveSites(old(sites[..]), Index(components), interpolate)
            case Ok(ss) => err.None? && sites[..] == ss
            case Err(e) => err == Some(e)
  {
    var index := BuildIndex(components);
    ghost var original := sites[..];
    var i := 0;
    while i < sites.Length
      invariant 0 <= i <= sites.Length
      invariant SitesDone(original, sites[..], i, index, interpolate)
    {
      ghost var before := sites[..];
      var site := sites[i];
      assert site == original[i] by {
        assert before[i..][0] == original[i..][0];
      }
      if |site.components| < 1 {
        assert before[i := site] == before;
        SitesStep(original, before, i, index, interpolate, site, before);
        i := i + 1;
        continue;
      }
      var resolved := ResolveComponents(site.components, index, interpolate);
      if resolved.Err? {
        assert original[..i + 1][..i] == original[..i] && original[..i + 1][i] == site;
        SitesPrefixError(original, i + 1, index, interpolate);
        return Some(resolved.error);
      }
      sites[i] := site.(components := resolved.value);
      assert sites[..] == before[i := sites[i]];
      SitesStep(original, before, i, index, interpolate, sites[i], sites[..]);
      i := i + 1;
    }
    assert original[..i] == original && sites[..i] == sites[..];
    return None;
  }

  lemma {:induction false} SitesPrefixError(sites: seq<Site>, n: nat, index: map<string, Component>,
                                            interpolate: VariablesMap -> Result<VariablesMap>)
    requires n <= |sites| && ResolveSites(sites[..n], index, interpolate).Err?
    ensures ResolveSites(sites, index, interpolate) == ResolveSites(sites[..n], index, interpolate)
    decreases |sites| - n
  {
    if n < |sites| {
      assert sites[..n + 1][..n] == sites[..n];
      SitesPrefixError(sites, n + 1, index, interpolate);
    } else {
      assert sites[..n] == sites;
    }
  }

  const StoreVariables := "store_variables"
  const StoreSecrets := "store_secrets"
  const Commercetools := "commercetools"

  /** A key node and its value, as a mapping node holds them. */
  function Pair(nodes: map<string, Yaml.Node>, key: string): seq<Yaml.Node> {
    if key in nodes then [Yaml.ScalarNodeOf("!!str", key), nodes[key]] else []
  }

  /** Go's migrateCommercetools over a component's key-to-node map: when a
      store key is present and there is no commercetools entry, one is
      created holding the present store pairs, store_variables first. */
  method MigrateCommercetools(nodes: map<string, Yaml.Node>) returns (result: map<string, Yaml.Node>)
    ensures StoreVariables !in nodes && StoreSecrets !in nodes ==> result == nodes
    ensures Commercetools in nodes ==> result == nodes
    ensures forall k :: k in nodes ==> k in result && result[k] == nodes[k]
    ensures forall k :: k in result ==> k in nodes || k == Commercetools
    ensures (StoreVariables in nodes || StoreSecrets in nodes) && Commercetools !in nodes ==>
              && Commercetools in result
              && result[Commercetools] == Yaml.Node(Yaml.MappingNode, "!!map", "",
                                                    Pair(nodes, StoreVariables) + Pair(nodes, StoreSecrets))
  {
    result := nodes;
    var needsMigrate := false;
    if StoreVariables in nodes {
      needsMigrate := true;
    }
    if StoreSecrets in nodes {
      needsMigrate := true;
    }
    if !needsMigrate {
      return;
    }
    if Commercetools !in result {
      result := result[Commercetools := Yaml.Node(Yaml.MappingNode, "!!map", "", [])];
      if StoreVariables in result {
        var keyNode := Yaml.ScalarNodeOf("!!str", StoreVariables);
        var ct := result[Commercetools];
        result := result[Commercetools := ct.(content := ct.content + [keyNode, result[StoreVariables]])];
      }
      if StoreSecrets in result {
        var keyNode := Yaml.ScalarNodeOf("!!str", StoreSecrets);
        var ct := result[Commercetools];
        result := result[Commercetools := ct.(content := ct.content + [keyNode, result[StoreSecrets]])];
      }
      assert result[Commercetools].content == [] + Pair(nodes, StoreVariables) + Pair(nodes, StoreSecrets);
    }
  }

  /** The keys parseSiteComponentsNode does not hand to the plugins. */
  const KnownKeys := ["name", "variables", "secrets", "store_variables", "store_secrets"]

  /** The keys of `keys` handed to the plugins, in order. */
  function Forwarded(keys: seq<string>): seq<string> {
    if |keys| == 0 then []
    else Forwarded(keys[..|keys| - 1]) + (if keys[|keys| - 1] in KnownKeys then [] else [keys[|keys| - 1]])
  }

  /** Exactly the keys that are not known keys are handed over, each as
      often as it is listed. */
  lemma {:induction false} ForwardedSpec(keys: seq<string>, k: string)
    ensures k in Forwarded(keys) <==> k in keys && k !in KnownKeys
    ensures |Forwarded(keys)| <= |keys|
  {
    if |keys| > 0 {
      ForwardedSpec(keys[..|keys| - 1], k);
      assert keys == keys[..|keys| - 1] + [keys[|keys| - 1]];
    }
  }

  /** Key `k` is a known key, or its node converts and the plugin of that
      name takes the configuration. */
  predicate Accepted<D>(nodes: map<string, Yaml.Node>, k: string, asMap: Yaml.Node -> Result<D>,
                        configure: (string, D) -> Option<string>)
    requires k in nodes
  {
    k in KnownKeys || (asMap(nodes[k]).Ok? && configure(k, asMap(nodes[k]).value).None?)
  }

  /** The error reported for key `k` when it is not accepted: the
      conversion's error, or else the plugin's. */
  function RejectError<D>(nodes: map<string, Yaml.Node>, k: string, asMap: Yaml.Node -> Result<D>,
                          configure: (string, D) -> Option<string>): string
    requires k in nodes && !Accepted(nodes, k, asMap, configure)
  {
    if asMap(nodes[k]).Err? then asMap(nodes[k]).error else configure(k, asMap(nodes[k]).value).value
  }

  /** `keys` lists every key of `nodes` exactly once. */
  ghost predicate ListsKeys(keys: seq<string>, nodes: map<string, Yaml.Node>) {
    (forall k :: k in keys <==> k in nodes) && |keys| == |nodes|
  }

  /** The plugin loop of parseSiteComponentsNode for one component: each key
      that is not a known key has its node converted (`asMap`, nodeAsMap)
      and handed to the plugin of that name (`configure`,
      SetSiteComponentConfig, which answers with an error or nothing).
      `keys` is the order of Go's map iteration over the component's keys.
      The result is the keys handed over; a failure is the error of the
      first key, in that order, that was not accepted. */
  method ForwardComponentConfig<D>(nodes: map<string, Yaml.Node>, keys: seq<string>,
                                   asMap: Yaml.Node -> Result<D>, configure: (string, D) -> Option<string>)
    returns (r: Result<seq<string>>)
    requires ListsKeys(keys, nodes)
    ensures r.Ok? ==> r.value == Forwarded(keys) && forall k :: k in nodes ==> Accepted(nodes, k, asMap, configure)
    ensures r.Err? ==>
              exists i :: && 0 <= i < |keys| && !Accepted(nodes, keys[i], asMap, configure)
                          && (forall j :: 0 <= j < i ==> Accepted(nodes, keys[j], asMap, configure))
                          && r.error == RejectError(nodes, keys[i], asMap, configure)
  {
    var handed: seq<string> := [];
    var i := 0;
    while i < |keys|
      invariant 0 <= i <= |keys|
      invariant handed == Forwarded(keys[..i])
      invariant forall j :: 0 <= j < i ==> Accepted(nodes, keys[j], asMap, configure)
    {
      var key := keys[i];
      assert keys[..i + 1][..i] == keys[..i] && keys[..i + 1][i] == key;
      if key in KnownKeys {
        i := i + 1;
        continue;
      }
      var data := asMap(nodes[key]);
      if data.Err? {
        assert !Accepted(nodes, key, asMap, configure);
        return Err(data.error);
      }
      var e := configure(key, data.value);
      if e.Some? {
        assert !Accepted(nodes, key, asMap, configure);
        return Err(e.value);
      }
      handed := handed + [key];
      i := i + 1;
    }
    assert keys[..i] == keys;
    forall k | k in nodes
      ensures Accepted(nodes, k, asMap, configure)
    {
      var j :| 0 <= j < |keys| && keys[j] == k;
    }
    return Ok(handed);
  }
}
