/** Sites and their endpoints (internal/config/types_site.go): the queries
    generation asks of a site, the endpoint defaults, and the building of
    the endpoint list from the raw `endpoints:` map. */
module SiteConfig {
  import opened Wrappers
  import opened ComponentsConfig
  import opened ConfigVariable

  /** A component as a site uses it; `definition` is the global component
      once the site's components have been resolved. */
  datatype SiteComponent = SiteComponent(name: string, variables: VariablesMap, secrets: VariablesMap,
                                         definition: Option<Component>)

  datatype AWSEndpoint = AWSEndpoint(enableCDN: bool)

  datatype Endpoint = Endpoint(url: string, key: string, zone: string, aws: Option<AWSEndpoint>,
                               components: seq<SiteComponent>)

  /** A value of the raw `endpoints:` map: a URL, a mapping of endpoint
      settings, or anything else. */
  datatype RawEndpoint = RawUrl(url: string) | RawMapping(fields: map<string, string>) | RawOther

  datatype Site = Site(name: string, identifier: string, rawEndpoints: map<string, RawEndpoint>,
                       endpoints: seq<Endpoint>, components: seq<SiteComponent>)

  /** Every component of the site has its definition. */
  predicate Resolved(cs: seq<SiteComponent>) {
    forall i :: 0 <= i < |cs| ==> cs[i].definition.Some?
  }

  /** The endpoint names a site component's definition uses. */
  function EndpointNames(c: SiteComponent): seq<string> {
    if c.definition.Some? then c.definition.value.endpoints else []
  }

  /** Files `c` under each of `names`, once per occurrence. */
  function FileUnder(m: map<string, seq<SiteComponent>>, c: SiteComponent, names: seq<string>): map<string, seq<SiteComponent>>
    decreases |names|
  {
    if |names| == 0 then m
    else
      var v := names[|names| - 1];
      var before := FileUnder(m, c, names[..|names| - 1]);
      before[v := (if v in before then before[v] else []) + [c]]
  }

  /** The map EndpointComponents builds. */
  function Filed(cs: seq<SiteComponent>): map<string, seq<SiteComponent>> {
    if |cs| == 0 then map[]
    else FileUnder(Filed(cs[..|cs| - 1]), cs[|cs| - 1], EndpointNames(cs[|cs| - 1]))
  }

  /** The number of times `v` occurs in `names`. */
  function Count(names: seq<string>, v: string): nat {
    if |names| == 0 then 0 else Count(names[..|names| - 1], v) + (if names[|names| - 1] == v then 1 else 0)
  }

  function Repeat(c: SiteComponent, n: nat): seq<SiteComponent> {
    if n == 0 then [] else Repeat(c, n - 1) + [c]
  }

  /** The components filed under endpoint `v`: each component once per use
      of `v`, in component order. */
  function Under(cs: seq<SiteComponent>, v: string): seq<SiteComponent> {
    if |cs| == 0 then []
    else Under(cs[..|cs| - 1], v) + Repeat(cs[|cs| - 1], Count(EndpointNames(cs[|cs| - 1]), v))
  }

  /** Filing one component adds it to exactly the names it uses. */
  lemma {:induction false} FileUnderSpec(m: map<string, seq<SiteComponent>>, c: SiteComponent, names: seq<string>, v: string)
    ensures v in FileUnder(m, c, names) <==> v in m || v in names
    ensures v in FileUnder(m, c, names) ==>
              FileUnder(m, c, names)[v] == (if v in m then m[v] else []) + Repeat(c, Count(names, v))
    decreases |names|
  {
    if |names| > 0 {
      var init := names[..|names| - 1];
      FileUnderSpec(m, c, init, v);
      assert names == init + [names[|names| - 1]];
      if names[|names| - 1] == v {
        if v !in FileUnder(m, c, init) {
          CountAbsent(init, v);
        }
        assert (if v in m then m[v] else []) + Repeat(c, Count(init, v)) + [c]
               == (if v in m then m[v] else []) + (Repeat(c, Count(init, v)) + [c]);
      }
    }
  }

  /** EndpointComponents files each component under exactly the endpoint
      names it uses, and then under `v` are the components using `v`, in
      component order. */
  lemma {:induction false} FiledSpec(cs: seq<SiteComponent>, v: string)
    ensures v in Filed(cs) <==> exists i :: 0 <= i < |cs| && v in EndpointNames(cs[i])
    ensures v in Filed(cs) ==> Filed(cs)[v] == Under(cs, v)
  {
    if |cs| > 0 {
      var init := cs[..|cs| - 1];
      var last := cs[|cs| - 1];
      FiledSpec(init, v);
      FileUnderSpec(Filed(init), last, EndpointNames(last), v);
      forall i | 0 <= i < |init|
        ensures init[i] == cs[i]
      {
      }
      if v in Filed(cs) && v !in Filed(init) {
        assert Under(init, v) == [] by {
          UnderEmpty(init, v);
        }
        assert [] + Repeat(last, Count(EndpointNames(last), v)) == Repeat(last, Count(EndpointNames(last), v));
      }
    }
  }

  /** No component uses `v`: nothing is filed under it. */
  lemma {:induction false} UnderEmpty(cs: seq<SiteComponent>, v: string)
    requires forall i :: 0 <= i < |cs| ==> v !in EndpointNames(cs[i])
    ensures Under(cs, v) == []
  {
    if |cs| > 0 {
      var init := cs[..|cs| - 1];
      forall i | 0 <= i < |init|
        ensures v !in EndpointNames(init[i])
      {
        assert init[i] == cs[i];
      }
      UnderEmpty(init, v);
      CountAbsent(EndpointNames(cs[|cs| - 1]), v);
    }
  }

  lemma {:induction false} CountAbsent(names: seq<string>, v: string)
    requires v !in names
    ensures Count(names, v) == 0
  {
    if |names| > 0 {
      CountAbsent(names[..|names| - 1], v);
    }
  }

  /** Go's Site.EndpointComponents: each endpoint name a component uses,
      mapped to the components using it. */
  method EndpointComponents(s: Site) returns (endpoints: map<string, seq<SiteComponent>>)
    requires Resolved(s.components)
    ensures endpoints == Filed(s.components)
  {
    endpoints := map[];
    var i := 0;
    while i < |s.components|
      invariant 0 <= i <= |s.components|
      invariant endpoints == Filed(s.components[..i])
    {
      var c := s.components[i];
      var names := c.definition.value.endpoints;
      assert names == EndpointNames(c);
      assert s.components[..i + 1][..i] == s.components[..i];
      ghost var before := endpoints;
      var j := 0;
      while j < |names|
        invariant 0 <= j <= |names|
        invariant endpoints == FileUnder(before, c, names[..j])
      {
        var value := names[j];
        assert names[..j + 1][..j] == names[..j];
        endpoints := endpoints[value := (if value in endpoints then endpoints[value] else []) + [c]];
        j := j + 1;
      }
      assert names[..j] == names;
      i := i + 1;
    }
    assert s.components[..i] == s.components;
  }

  /** The endpoints some component uses, in order. */
  function Used(eps: seq<Endpoint>): seq<Endpoint> {
    if |eps| == 0 then []
    else Used(eps[..|eps| - 1]) + (if |eps[|eps| - 1].components| > 0 then [eps[|eps| - 1]] else [])
  }

  /** The used endpoints are exactly the endpoints with components. */
  lemma {:induction false} UsedMembers(eps: seq<Endpoint>, e: Endpoint)
    ensures e in Used(eps) <==> e in eps && |e.components| > 0
    ensures |Used(eps)| <= |eps|
  {
    if |eps| > 0 {
      var init := eps[..|eps| - 1];
      UsedMembers(init, e);
      assert eps == init + [eps[|eps| - 1]];
    }
  }

  /** Go's Site.UsedEndpoints. */
  method UsedEndpoints(s: Site) returns (result: seq<Endpoint>)
    ensures result == Used(s.endpoints)
  {
    result := [];
    var i := 0;
    while i < |s.endpoints|
      invariant 0 <= i <= |s.endpoints|
      invariant result == Used(s.endpoints[..i])
    {
      assert s.endpoints[..i + 1][..i] == s.endpoints[..i];
      if |s.endpoints[i].components| > 0 {
        result := result + [s.endpoints[i]];
      }
      i := i + 1;
    }
    assert s.endpoints[..i] == s.endpoints;
  }

  function Zones(eps: seq<Endpoint>): (r: seq<string>)
    ensures |r| == |eps| && forall i :: 0 <= i < |eps| ==> r[i] == eps[i].zone
  {
    if |eps| == 0 then [] else Zones(eps[..|eps| - 1]) + [eps[|eps| - 1].zone]
  }

  predicate NoDuplicates(xs: seq<string>) {
    forall i, j :: 0 <= i < j < |xs| ==> xs[i] != xs[j]
  }

  /** Go's Site.DNSZones: the zones of the used endpoints, each once. */
  method DNSZones(s: Site) returns (result: seq<string>)
    ensures NoDuplicates(result)
    ensures forall z :: z in result <==> z in Zones(Used(s.endpoints))
  {
    var endpoints := UsedEndpoints(s);
    var zones := Zones(endpoints);
    result := [];
    var i := 0;
    while i < |zones|
      invariant 0 <= i <= |zones|
      invariant NoDuplicates(result)
      invariant forall z :: z in result <==> z in zones[..i]
    {
      assert zones[..i + 1] == zones[..i] + [zones[i]];
      if zones[i] !in result {
        result := result + [zones[i]];
      }
      i := i + 1;
    }
    assert zones[..i] == zones;
  }

  predicate HasCDN(e: Endpoint) {
    e.aws.Some? && e.aws.value.enableCDN
  }

  /** Go's Site.HasCDNEndpoint. */
  method HasCDNEndpoint(s: Site) returns (r: bool)
    ensures r <==> exists e :: e in Used(s.endpoints) && HasCDN(e)
  {
    var endpoints := UsedEndpoints(s);
    var i := 0;
    while i < |endpoints|
      invariant 0 <= i <= |endpoints|
      invariant forall j :: 0 <= j < i ==> !HasCDN(endpoints[j])
    {
      if endpoints[i].aws.Some? && endpoints[i].aws.value.enableCDN {
        assert endpoints[i] in endpoints && HasCDN(endpoints[i]);
        return true;
      }
      i := i + 1;
    }
    return false;
  }

  /** Go's SiteComponent.HasCloudIntegration; an unresolved component stops
      the program, so the definition must be there. */
  method HasCloudIntegration(sc: SiteComponent) returns (r: bool)
    requires sc.definition.Some?
    ensures r <==> "aws" in sc.definition.value.integrations || "azure" in sc.definition.value.integrations
  {
    var integrations := sc.definition.value.integrations;
    var i := 0;
    while i < |integrations|
      invariant 0 <= i <= |integrations|
      invariant "aws" !in integrations[..i] && "azure" !in integrations[..i]
    {
      if integrations[i] == "aws" || integrations[i] == "azure" {
        return true;
      }
      assert integrations[..i + 1] == integrations[..i] + [integrations[i]];
      i := i + 1;
    }
    assert integrations[..i] == integrations;
    return false;
  }

  /** Go's Endpoint.SetDefaults: the URL loses its protocol (`strip`) and an
      empty zone is derived from the stripped URL (`zoneFromURL`) when
      there is one. */
  function SetDefaults(e: Endpoint, strip: string -> string, zoneFromURL: string -> string): (r: Endpoint)
    ensures r.url == strip(e.url) && r.key == e.key && r.aws == e.aws && r.components == e.components
    ensures e.zone != "" ==> r.zone == e.zone
    ensures e.zone == "" ==> r.zone == (if r.url != "" then zoneFromURL(r.url) else "")
  {
    var url := strip(e.url);
    e.(url := url, zone := if e.zone == "" && url != "" then zoneFromURL(url) else e.zone)
  }

  /** A non-empty zone is a fixed point of the zone default. */
  lemma SetDefaultsKeepsZone(e: Endpoint, strip: string -> string, zoneFromURL: string -> string)
    requires e.zone != ""
    ensures SetDefaults(SetDefaults(e, strip, zoneFromURL), strip, zoneFromURL).zone == e.zone
  {
  }

  /** Go's Endpoint.IsRootDomain. */
  function IsRootDomain(e: Endpoint): (r: bool)
    ensures r <==> e.url == e.zone
  {
    e.url == e.zone
  }

  /** Go's Endpoint.Subdomain; `subdomainFromURL` is SubdomainFromURL. */
  function Subdomain(e: Endpoint, subdomainFromURL: string -> string): (r: string)
    ensures e.url == "" ==> r == ""
    ensures e.url != "" ==> r == subdomainFromURL(e.url)
  {
    if e.url == "" then "" else subdomainFromURL(e.url)
  }

  /** The endpoint one raw entry becomes: a URL gives an endpoint with that
      key and URL; a mapping is decoded onto an endpoint with that key
      (`decode` stands for the YAML round trip); both get their defaults. */
  function Entry(k: string, raw: RawEndpoint, strip: string -> string, zoneFromURL: string -> string,
                 decode: (string, map<string, string>) -> Result<Endpoint>): Result<Endpoint>
  {
    match raw
    case RawUrl(url) => Ok(SetDefaults(Endpoint(url, k, "", None, []), strip, zoneFromURL))
    case RawMapping(fields) =>
      (match decode(k, fields)
       case Ok(ep) => Ok(SetDefaults(ep, strip, zoneFromURL))
       case Err(e) => Err(e))
    case RawOther => Err("unexecpted type while resolving endpoints")
  }

  /** The entries for `keys` in order, or the first failure. */
  function Entries(keys: seq<string>, raw: map<string, RawEndpoint>, strip: string -> string,
                   zoneFromURL: string -> string, decode: (string, map<string, string>) -> Result<Endpoint>)
    : Result<seq<Endpoint>>
    requires forall k :: k in keys ==> k in raw
  {
    if |keys| == 0 then Ok([])
    else
      match Entries(keys[..|keys| - 1], raw, strip, zoneFromURL, decode)
      case Err(e) => Err(e)
      case Ok(front) =>
        match Entry(keys[|keys| - 1], raw[keys[|keys| - 1]], strip, zoneFromURL, decode)
        case Err(e) => Err(e)
        case Ok(ep) => Ok(front + [ep])
  }

  /** A string entry keeps its key and (stripped) URL. */
  lemma UrlEntry(k: string, url: string, strip: string -> string, zoneFromURL: string -> string,
                 decode: (string, map<string, string>) -> Result<Endpoint>)
    ensures var r := Entry(k, RawUrl(url), strip, zoneFromURL, decode);
            r.Ok? && r.value.key == k && r.value.url == strip(url) && r.value.components == []
  {
  }

  /** Entries are all there, in key order, exactly when every entry can be
      built. */
  lemma EntriesOk(keys: seq<string>, raw: map<string, RawEndpoint>, strip: string -> string,
                  zoneFromURL: string -> string, decode: (string, map<string, string>) -> Result<Endpoint>)
    requires forall k :: k in keys ==> k in raw
    ensures Entries(keys, raw, strip, zoneFromURL, decode).Ok?
            <==> forall i :: 0 <= i < |keys| ==> Entry(keys[i], raw[keys[i]], strip, zoneFromURL, decode).Ok?
    ensures Entries(keys, raw, strip, zoneFromURL, decode).Ok? ==>
              var eps := Entries(keys, raw, strip, zoneFromURL, decode).value;
              |eps| == |keys|
              && forall i :: 0 <= i < |keys| ==> Entry(keys[i], raw[keys[i]], strip, zoneFromURL, decode) == Ok(eps[i])
  {
    EntriesAllOk(keys, raw, strip, zoneFromURL, decode);
    if Entries(keys, raw, strip, zoneFromURL, decode).Ok? {
      EntriesValues(keys, raw, strip, zoneFromURL, decode);
    }
  }

  lemma {:induction false} EntriesAllOk(keys: seq<string>, raw: map<string, RawEndpoint>, strip: string -> string,
                                        zoneFromURL: string -> string,
                                        decode: (string, map<string, string>) -> Result<Endpoint>)
    requires forall k :: k in keys ==> k in raw
    ensures Entries(keys, raw, strip, zoneFromURL, decode).Ok?
            <==> forall i :: 0 <= i < |keys| ==> Entry(keys[i], raw[keys[i]], strip, zoneFromURL, decode).Ok?
  {
    if |keys| > 0 {
      var init := keys[..|keys| - 1];
      EntriesAllOk(init, raw, strip, zoneFromURL, decode);
      forall i | 0 <= i < |init|
        ensures init[i] == keys[i]
      {
      }
    }
  }

  lemma {:induction false} EntriesValues(keys: seq<string>, raw: map<string, RawEndpoint>, strip: string -> string,
                                         zoneFromURL: string -> string,
                                         decode: (string, map<string, string>) -> Result<Endpoint>)
    requires forall k :: k in keys ==> k in raw
    requires Entries(keys, raw, strip, zoneFromURL, decode).Ok?
    ensures var eps := Entries(keys, raw, strip, zoneFromURL, decode).value;
            |eps| == |keys|
            && forall i :: 0 <= i < |keys| ==> Entry(keys[i], raw[keys[i]], strip, zoneFromURL, decode) == Ok(eps[i])
  {
    if |keys| > 0 {
      var init := keys[..|keys| - 1];
      EntriesValues(init, raw, strip, zoneFromURL, decode);
      var front := Entries(init, raw, strip, zoneFromURL, decode).value;
      var eps := Entries(keys, raw, strip, zoneFromURL, decode).value;
      assert eps[..|init|] == front;
      forall i | 0 <= i < |init|
        ensures init[i] == keys[i]
      {
      }
    }
  }

  /** Some endpoint in `eps` has the given key. */
  predicate HasKey(eps: seq<Endpoint>, key: string) {
    exists i :: 0 <= i < |eps| && eps[i].key == key
  }

  const DefaultEndpoint := Endpoint("", "default", "", None, [])

  /** The condition as written: a 'default' endpoint is appended when some
      component uses one and the site ALREADY defines one. */
  predicate AddsDefaultAsWritten(components: seq<SiteComponent>, eps: seq<Endpoint>) {
    "default" in Filed(components) && HasKey(eps, "default")
  }

  /** The condition the code's comments describe: a 'default' endpoint is
      appended when some component uses one the site does not define. */
  predicate AddsDefault(components: seq<SiteComponent>, eps: seq<Endpoint>) {
    "default" in Filed(components) && !HasKey(eps, "default")
  }

  /** The endpoints resolveEndpoints leaves, as written. */
  function ResolvedAsWritten(s: Site, keys: seq<string>, strip: string -> string, zoneFromURL: string -> string,
                             decode: (string, map<string, string>) -> Result<Endpoint>): Result<seq<Endpoint>>
    requires forall k :: k in keys ==> k in s.rawEndpoints
  {
    match Entries(keys, s.rawEndpoints, strip, zoneFromURL, decode)
    case Err(e) => Err(e)
    case Ok(entries) =>
      var eps := s.endpoints + entries;
      Ok(if AddsDefaultAsWritten(s.components, eps) then eps + [DefaultEndpoint] else eps)
  }

  /** The endpoints resolveEndpoints is meant to leave. */
  function ResolvedEndpoints(s: Site, keys: seq<string>, strip: string -> string, zoneFromURL: string -> string,
                             decode: (string, map<string, string>) -> Result<Endpoint>): Result<seq<Endpoint>>
    requires forall k :: k in keys ==> k in s.rawEndpoints
  {
    match Entries(keys, s.rawEndpoints, strip, zoneFromURL, decode)
    case Err(e) => Err(e)
    case Ok(entries) =>
      var eps := s.endpoints + entries;
      Ok(if AddsDefault(s.components, eps) then eps + [DefaultEndpoint] else eps)
  }

  /** `keys` lists each key of the raw map once, in the order Go's map
      iteration happens to yield them. */
  ghost predicate Enumerates(keys: seq<string>, raw: map<string, RawEndpoint>) {
    && (forall k :: k in keys <==> k in raw)
    && forall i, j :: 0 <= i < j < |keys| ==> keys[i] != keys[j]
  }

  /** The entry loop of resolveEndpoints: every raw entry as an endpoint,
      appended to the site's endpoints. */
  method ResolveEntries(s: Site, keys: seq<string>, strip: string -> string, zoneFromURL: string -> string,
                        decode: (string, map<string, string>) -> Result<Endpoint>)
    returns (r: Result<seq<Endpoint>>)
    requires Enumerates(keys, s.rawEndpoints)
    ensures r == match Entries(keys, s.rawEndpoints, strip, zoneFromURL, decode)
                 case Err(e) => Err(e)
                 case Ok(entries) => Ok(s.endpoints + entries)
  {
    var endpoints := s.endpoints;
    var i := 0;
    while i < |keys|
      invariant 0 <= i <= |keys|
      invariant Entries(keys[..i], s.rawEndpoints, strip, zoneFromURL, decode).Ok?
      invariant endpoints == s.endpoints + Entries(keys[..i], s.rawEndpoints, strip, zoneFromURL, decode).value
    {
      var k := keys[i];
      assert keys[..i + 1][..i] == keys[..i] && keys[..i + 1][i] == k;
      var ep := Entry(k, s.rawEndpoints[k], strip, zoneFromURL, decode);
      if ep.Err? {
        EntriesPrefixError(keys, i + 1, s.rawEndpoints, strip, zoneFromURL, decode);
        return Err(ep.error);
      }
      endpoints := endpoints + [ep.value];
      i := i + 1;
    }
    assert keys[..i] == keys;
    return Ok(endpoints);
  }

  /** A failing prefix makes the whole walk fail with its error. */
  lemma {:induction false} EntriesPrefixError(keys: seq<string>, n: nat, raw: map<string, RawEndpoint>,
                                              strip: string -> string, zoneFromURL: string -> string,
                                              decode: (string, map<string, string>) -> Result<Endpoint>)
    requires n <= |keys| && forall k :: k in keys ==> k in raw
    requires Entries(keys[..n], raw, strip, zoneFromURL, decode).Err?
    ensures Entries(keys, raw, strip, zoneFromURL, decode) == Entries(keys[..n], raw, strip, zoneFromURL, decode)
    decreases |keys| - n
  {
    if n < |keys| {
      assert keys[..n + 1][..n] == keys[..n];
      EntriesPrefixError(keys, n + 1, raw, strip, zoneFromURL, decode);
    } else {
      assert keys[..n] == keys;
    }
  }

  /** The key list of the endpoints, in order. */
  function Keys(eps: seq<Endpoint>): (r: seq<string>)
    ensures |r| == |eps| && forall i :: 0 <= i < |eps| ==> r[i] == eps[i].key
  {
    if |eps| == 0 then [] else Keys(eps[..|eps| - 1]) + [eps[|eps| - 1].key]
  }

  lemma KeysHasKey(eps: seq<Endpoint>, key: string)
    ensures key in Keys(eps) <==> HasKey(eps, key)
  {
    if key in Keys(eps) {
      var i :| 0 <= i < |eps| && Keys(eps)[i] == key;
    }
  }

  /** Go's Site.resolveEndpoints, as written. */
  method ResolveEndpointsAsWritten(s: Site, keys: seq<string>, strip: string -> string, zoneFromURL: string -> string,
                                   decode: (string, map<string, string>) -> Result<Endpoint>)
    returns (r: Result<seq<Endpoint>>)
    requires Enumerates(keys, s.rawEndpoints) && Resolved(s.components)
    ensures r == ResolvedAsWritten(s, keys, strip, zoneFromURL, decode)
  {
    var entries := ResolveEntries(s, keys, strip, zoneFromURL, decode);
    if entries.Err? {
      return Err(entries.error);
    }
    var endpoints := entries.value;
    var components := EndpointComponents(s);
    var endpointKeys := Keys(endpoints);
    KeysHasKey(endpoints, "default");
    if "default" in components && "default" in endpointKeys {
      endpoints := endpoints + [DefaultEndpoint];
    }
    return Ok(endpoints);
  }

  /** resolveEndpoints with the condition its comments describe. */
  method ResolveEndpoints(s: Site, keys: seq<string>, strip: string -> string, zoneFromURL: string -> string,
                          decode: (string, map<string, string>) -> Result<Endpoint>)
    returns (r: Result<seq<Endpoint>>)
    requires Enumerates(keys, s.rawEndpoints) && Resolved(s.components)
    ensures r == ResolvedEndpoints(s, keys, strip, zoneFromURL, decode)
  {
    var entries := ResolveEntries(s, keys, strip, zoneFromURL, decode);
    if entries.Err? {
      return Err(entries.error);
    }
    var endpoints := entries.value;
    var components := EndpointComponents(s);
    var endpointKeys := Keys(endpoints);
    KeysHasKey(endpoints, "default");
    if "default" in components && "default" !in endpointKeys {
      endpoints := endpoints + [DefaultEndpoint];
    }
    return Ok(endpoints);
  }

  /** Corrected: after resolution a 'default' endpoint exists whenever a
      component uses one. */
  lemma ResolvedHasDefault(s: Site, keys: seq<string>, strip: string -> string, zoneFromURL: string -> string,
                           decode: (string, map<string, string>) -> Result<Endpoint>)
    requires forall k :: k in keys ==> k in s.rawEndpoints
    requires ResolvedEndpoints(s, keys, strip, zoneFromURL, decode).Ok?
    requires "default" in Filed(s.components)
    ensures HasKey(ResolvedEndpoints(s, keys, strip, zoneFromURL, decode).value, "default")
  {
    var eps := s.endpoints + Entries(keys, s.rawEndpoints, strip, zoneFromURL, decode).value;
    if !HasKey(eps, "default") {
      var r := eps + [DefaultEndpoint];
      assert r[|eps|].key == "default";
    }
  }

  /** Corrected: a site that defines its own 'default' endpoint gets no
      second one. */
  lemma ResolvedKeepsDefinedDefault(s: Site, keys: seq<string>, strip: string -> string, zoneFromURL: string -> string,
                                    decode: (string, map<string, string>) -> Result<Endpoint>)
    requires forall k :: k in keys ==> k in s.rawEndpoints
    requires Entries(keys, s.rawEndpoints, strip, zoneFromURL, decode).Ok?
    requires HasKey(s.endpoints + Entries(keys, s.rawEndpoints, strip, zoneFromURL, decode).value, "default")
    ensures ResolvedEndpoints(s, keys, strip, zoneFromURL, decode)
            == Ok(s.endpoints + Entries(keys, s.rawEndpoints, strip, zoneFromURL, decode).value)
  {
  }

  /** A site with one component that uses the 'default' endpoint. */
  function DefaultUser(raw: map<string, RawEndpoint>): Site {
    var def := Component("c", "./c", "1.0", ["aws"], ["default"]);
    Site("site", "site-1", raw, [], [SiteComponent("c", map[], map[], Some(def))])
  }

  /** As written, a site whose component uses 'default' without defining it
      gets no default endpoint, and one that defines it gets a second. */
  lemma AsWrittenDefaultInverted(strip: string -> string, zoneFromURL: string -> string,
                                 decode: (string, map<string, string>) -> Result<Endpoint>)
    ensures ResolvedAsWritten(DefaultUser(map[]), [], strip, zoneFromURL, decode) == Ok([])
    ensures var s := DefaultUser(map["default" := RawUrl("example.com")]);
            var r := ResolvedAsWritten(s, ["default"], strip, zoneFromURL, decode);
            r.Ok? && |r.value| == 2 && r.value[0].key == "default" && r.value[1].key == "default"
  {
    var s0 := DefaultUser(map[]);
    assert "default" in Filed(s0.components) by {
      FiledSpec(s0.components, "default");
      assert "default" in EndpointNames(s0.components[0]);
    }
    var s1 := DefaultUser(map["default" := RawUrl("example.com")]);
    assert "default" in Filed(s1.components) by {
      FiledSpec(s1.components, "default");
      assert "default" in EndpointNames(s1.components[0]);
    }
    var one := Entries(["default"], s1.rawEndpoints, strip, zoneFromURL, decode);
    var ep := SetDefaults(Endpoint("example.com", "default", "", None, []), strip, zoneFromURL);
    assert ["default"][..0] == [];
    assert Entry("default", s1.rawEndpoints["default"], strip, zoneFromURL, decode) == Ok(ep);
    assert one == Ok([] + [ep]);
    assert HasKey([] + one.value, "default") by {
      assert ([] + one.value)[0].key == "default";
    }
  }
}
