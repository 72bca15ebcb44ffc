/** The plugin registry (internal/plugins/repository.go): the loaded plugins
    by name, how they are loaded, looked up and listed, and the calls that
    hand configuration to one plugin. Starting a plugin process and the
    plugins' own handling of configuration are parameters. */
module PluginRegistry {
  import opened Wrappers

  /** A started plugin, as the registry sees it. */
  datatype Plugin = Plugin(name: string, handle: nat)

  function AlreadyLoaded(name: string): string {
    "plugin " + name + " is already loaded"
  }

  /** The message of a PluginNotFoundError for `name`. */
  function NotFound(name: string): string {
    "plugin " + name + " not found"
  }

  /** Go's Get on a map of plugins. */
  function Lookup(plugins: map<string, Plugin>, name: string): (r: Result<Plugin>)
    ensures name in plugins <==> r.Ok?
    ensures r.Ok? ==> r.value == plugins[name]
    ensures r.Err? ==> r.error == NotFound(name)
  {
    if name in plugins then Ok(plugins[name]) else Err(NotFound(name))
  }

  /** The registry and the error, if any, after loading `names` in turn
      into `plugins`; the first failure stops the loading and keeps what was
      loaded before it. */
  datatype Loading = Loading(plugins: map<string, Plugin>, error: Option<string>)

  /** One LoadPlugin call. */
  function LoadOne(plugins: map<string, Plugin>, name: string, start: string -> Result<Plugin>): Loading {
    if name in plugins then Loading(plugins, Some(AlreadyLoaded(name)))
    else match start(name)
      case Err(e) => Loading(plugins, Some(e))
      case Ok(p) => Loading(plugins[name := p], None)
  }

  function LoadAll(plugins: map<string, Plugin>, names: seq<string>, start: string -> Result<Plugin>): Loading {
    if |names| == 0 then Loading(plugins, None)
    else
      var front := LoadAll(plugins, names[..|names| - 1], start);
      if front.error.Some? then front else LoadOne(front.plugins, names[|names| - 1], start)
  }

  /** Loading never removes or replaces a loaded plugin. */
  lemma {:induction false} LoadAllKeeps(plugins: map<string, Plugin>, names: seq<string>, start: string -> Result<Plugin>)
    ensures var r := LoadAll(plugins, names, start);
            forall k :: k in plugins ==> k in r.plugins && r.plugins[k] == plugins[k]
    ensures forall k :: k in LoadAll(plugins, names, start).plugins ==> k in plugins || k in names
  {
    if |names| > 0 {
      LoadAllKeeps(plugins, names[..|names| - 1], start);
    }
  }

  /** The names are new, pairwise different, and every plugin starts. */
  predicate Loadable(plugins: map<string, Plugin>, names: seq<string>, start: string -> Result<Plugin>) {
    && (forall i :: 0 <= i < |names| ==> names[i] !in plugins && start(names[i]).Ok?)
    && (forall i, j :: 0 <= i < j < |names| ==> names[i] != names[j])
  }

  lemma LoadableSnoc(plugins: map<string, Plugin>, names: seq<string>, start: string -> Result<Plugin>)
    requires |names| > 0
    ensures var init := names[..|names| - 1];
            var last := names[|names| - 1];
            Loadable(plugins, names, start) <==>
              Loadable(plugins, init, start) && last !in plugins && start(last).Ok? && last !in init
  {
    var init := names[..|names| - 1];
    var last := names[|names| - 1];
    forall i | 0 <= i < |init|
      ensures init[i] == names[i]
    {
    }
    if last in init {
      var i :| 0 <= i < |init| && init[i] == last;
      assert names[i] == names[|names| - 1];
    }
  }

  /** Loading succeeds exactly when the names are new and pairwise
      different and every plugin starts; then each name holds its plugin. */
  lemma {:induction false} LoadAllOk(plugins: map<string, Plugin>, names: seq<string>, start: string -> Result<Plugin>)
    ensures LoadAll(plugins, names, start).error.None? <==> Loadable(plugins, names, start)
    ensures LoadAll(plugins, names, start).error.None? ==>
              forall i :: 0 <= i < |names| ==>
                Lookup(LoadAll(plugins, names, start).plugins, names[i]) == Ok(start(names[i]).value)
  {
    if |names| > 0 {
      var init := names[..|names| - 1];
      var last := names[|names| - 1];
      LoadAllOk(plugins, init, start);
      LoadAllKeeps(plugins, init, start);
      LoadableSnoc(plugins, names, start);
      var front := LoadAll(plugins, init, start);
      if front.error.None? {
        assert last in front.plugins <==> last in plugins || last in init by {
          if last in init {
            var i :| 0 <= i < |init| && init[i] == last;
            assert Lookup(front.plugins, init[i]).Ok?;
          }
        }
        if last !in front.plugins && start(last).Ok? {
          var after := front.plugins[last := start(last).value];
          assert LoadAll(plugins, names, start).plugins == after;
          forall i | 0 <= i < |names|
            ensures Lookup(after, names[i]) == Ok(start(names[i]).value)
          {
            if i < |init| {
              assert names[i] == init[i];
            }
          }
        }
      }
    }
  }

  /** Go's PluginRepository. */
  class PluginRepository {
    var plugins: map<string, Plugin>

    /** Go's NewPluginRepository. */
    constructor ()
      ensures plugins == map[]
    {
      plugins := map[];
    }

    /** Go's LoadPlugin: a new name gets the plugin `start` starts for it. */
    method LoadPlugin(name: string, properties: map<string, string>, start: string -> Result<Plugin>)
      returns (err: Option<string>)
      modifies this
      ensures Loading(plugins, err) == LoadOne(old(plugins), name, start)
    {
      if name in plugins {
        return Some(AlreadyLoaded(name));
      }
      var plugin := start(name);
      if plugin.Err? {
        return Some(plugin.error);
      }
      plugins := plugins[name := plugin.value];
      return None;
    }

    /** Loads `names` in turn, stopping at the first failure. */
    method LoadNames(names: seq<string>, start: string -> Result<Plugin>) returns (err: Option<string>)
      modifies this
      ensures Loading(plugins, err) == LoadAll(old(plugins), names, start)
    {
      ghost var initial := plugins;
      var i := 0;
      while i < |names|
        invariant 0 <= i <= |names|
        invariant LoadAll(initial, names[..i], start) == Loading(plugins, None)
      {
        assert names[..i + 1][..i] == names[..i];
        err := LoadPlugin(names[i], map[], start);
        if err.Some? {
          LoadAllStops(initial, names, i + 1, start);
          return;
        }
        i := i + 1;
      }
      assert names[..i] == names;
      return None;
    }

    /** Go's LoadDefault: with no plugin loaded, the local plugins are
        loaded; a plugin that fails to load stops the program, so the local
        plugins must load. */
    method LoadDefault(localNames: seq<string>, start: string -> Result<Plugin>)
      modifies this
      requires |plugins| > 0 || LoadAll(plugins, localNames, start).error.None?
      ensures old(|plugins|) > 0 ==> plugins == old(plugins)
      ensures old(|plugins|) == 0 ==> plugins == LoadAll(map[], localNames, start).plugins
    {
      if |plugins| > 0 {
        return;
      }
      assert plugins == map[];
      var err := LoadNames(localNames, start);
    }

    /** Go's Load: no plugin section loads the local plugins, otherwise the
        listed plugins are loaded in `order`, the order of Go's map
        iteration, stopping at the first failure. */
    method Load(data: Option<map<string, map<string, string>>>, order: seq<string>, localNames: seq<string>,
                start: string -> Result<Plugin>)
      returns (err: Option<string>)
      modifies this
      requires data.Some? ==> (forall k :: k in order <==> k in data.value) && |order| == |data.value|
      requires data.None? ==> |plugins| > 0 || LoadAll(plugins, localNames, start).error.None?
      ensures data.None? ==> err.None?
      ensures data.None? && old(|plugins|) > 0 ==> plugins == old(plugins)
      ensures data.None? && old(|plugins|) == 0 ==> plugins == LoadAll(map[], localNames, start).plugins
      ensures data.Some? ==> Loading(plugins, err) == LoadAll(old(plugins), order, start)
    {
      if data.None? {
        LoadDefault(localNames, start);
        return None;
      }
      err := LoadNames(order, start);
    }

    /** Go's Get; an empty name is a programming error. */
    function Get(name: string): (r: Result<Plugin>)
      reads this
      requires name != ""
      ensures r == Lookup(plugins, name)
    {
      Lookup(plugins, name)
    }

    /** Go's Enabled: the loaded plugins reporting `isEnabled`, in `order`,
        the order pie.Values happens to list the map's keys in. */
    function Enabled(order: seq<string>, isEnabled: Plugin -> bool): (r: seq<Plugin>)
      reads this
      requires ListsKeys(order, plugins)
      ensures forall p :: p in r <==> exists k :: k in plugins && plugins[k] == p && isEnabled(p)
      ensures forall p :: p in r <==> exists i :: 0 <= i < |order| && plugins[order[i]] == p && isEnabled(p)
      ensures |r| <= |plugins|
    {
      EnabledCovers(plugins, order, isEnabled);
      EnabledIn(plugins, order, isEnabled)
    }

    /** The calls that hand configuration to the plugin `name`: the
        not-found error of Get, or the plugin's own answer. */
    function SetRemoteState<D>(name: string, data: D, setBackend: (Plugin, D) -> Option<string>): (r: Option<string>)
      reads this
      requires name != ""
      ensures name !in plugins ==> r == Some(NotFound(name))
      ensures name in plugins ==> r == setBackend(plugins[name], data)
    {
      match Get(name)
      case Err(e) => Some(e)
      case Ok(p) => setBackend(p, data)
    }

    function SetGlobalConfig<D>(name: string, data: D, setGlobal: (Plugin, D) -> Option<string>): (r: Option<string>)
      reads this
      requires name != ""
      ensures name !in plugins ==> r == Some(NotFound(name))
      ensures name in plugins ==> r == setGlobal(plugins[name], data)
    {
      match Get(name)
      case Err(e) => Some(e)
      case Ok(p) => setGlobal(p, data)
    }

    function SetSiteConfig<D>(name: string, site: string, data: D, setSite: (Plugin, string, D) -> Option<string>)
      : (r: Option<string>)
      reads this
      requires name != ""
      ensures name !in plugins ==> r == Some(NotFound(name))
      ensures name in plugins ==> r == setSite(plugins[name], site, data)
    {
      match Get(name)
      case Err(e) => Some(e)
      case Ok(p) => setSite(p, site, data)
    }

    function SetSiteComponentConfig<D>(site: string, component: string, name: string, data: D,
                                       setSiteComponent: (Plugin, string, string, D) -> Option<string>)
      : (r: Option<string>)
      reads this
      requires name != ""
      ensures name !in plugins ==> r == Some(NotFound(name))
      ensures name in plugins ==> r == setSiteComponent(plugins[name], site, component, data)
    {
      match Get(name)
      case Err(e) => Some(e)
      case Ok(p) => setSiteComponent(p, site, component, data)
    }

    function SetComponentConfig<D>(name: string, component: string, data: D,
                                   setComponent: (Plugin, string, D) -> Option<string>)
      : (r: Option<string>)
      reads this
      requires name != ""
      ensures name !in plugins ==> r == Some(NotFound(name))
      ensures name in plugins ==> r == setComponent(plugins[name], component, data)
    {
      match Get(name)
      case Err(e) => Some(e)
      case Ok(p) => setComponent(p, component, data)
    }
  }

  /** A failure in the first `n` names is the failure of them all. */
  lemma {:induction false} LoadAllStops(plugins: map<string, Plugin>, names: seq<string>, n: nat,
                                        start: string -> Result<Plugin>)
    requires n <= |names| && LoadAll(plugins, names[..n], start).error.Some?
    ensures LoadAll(plugins, names, start) == LoadAll(plugins, names[..n], start)
    decreases |names| - n
  {
    if n < |names| {
      assert names[..n + 1][..n] == names[..n];
      LoadAllStops(plugins, names, n + 1, start);
    } else {
      assert names[..n] == names;
    }
  }

  /** `order` lists every key of `plugins` exactly once. */
  ghost predicate ListsKeys(order: seq<string>, plugins: map<string, Plugin>) {
    (forall k :: k in order <==> k in plugins) && |order| == |plugins|
  }

  /** When `order` lists every loaded plugin, the plugins EnabledIn keeps are
      all the enabled ones. */
  lemma EnabledCovers(plugins: map<string, Plugin>, order: seq<string>, isEnabled: Plugin -> bool)
    requires ListsKeys(order, plugins)
    ensures forall p :: p in EnabledIn(plugins, order, isEnabled) <==>
              exists k :: k in plugins && plugins[k] == p && isEnabled(p)
  {
    forall p | p in EnabledIn(plugins, order, isEnabled)
      ensures exists k :: k in plugins && plugins[k] == p && isEnabled(p)
    {
      var i :| 0 <= i < |order| && plugins[order[i]] == p && isEnabled(p);
    }
    forall p, k | k in plugins && plugins[k] == p && isEnabled(p)
      ensures p in EnabledIn(plugins, order, isEnabled)
    {
      var i :| 0 <= i < |order| && order[i] == k;
    }
  }

  /** The enabled plugins among those listed in `order`, in that order. */
  function EnabledIn(plugins: map<string, Plugin>, order: seq<string>, isEnabled: Plugin -> bool): (r: seq<Plugin>)
    requires forall k :: k in order ==> k in plugins
    ensures forall p :: p in r <==> exists i :: 0 <= i < |order| && plugins[order[i]] == p && isEnabled(p)
    ensures |r| <= |order|
  {
    if |order| == 0 then []
    else
      var front := EnabledIn(plugins, order[..|order| - 1], isEnabled);
      var p := plugins[order[|order| - 1]];
      assert forall i :: 0 <= i < |order| - 1 ==> order[..|order| - 1][i] == order[i];
      front + (if isEnabled(p) then [p] else [])
  }

  /** A freshly loaded plugin is found under its name. */
  lemma LoadThenGet(plugins: map<string, Plugin>, name: string, start: string -> Result<Plugin>)
    requires name !in plugins && start(name).Ok?
    ensures LoadOne(plugins, name, start).error.None?
    ensures Lookup(LoadOne(plugins, name, start).plugins, name) == Ok(start(name).value)
    ensures forall k :: k in plugins ==> Lookup(LoadOne(plugins, name, start).plugins, k) == Lookup(plugins, k)
  {
  }
}
