/** How the plugin controller activates plugins in load order: each plugin gets a loader
    whose parents are the application loader and the loaders of those of its dependencies
    that are already registered; a plugin is recorded as enabled only once its `init()`
    returns, and a failure of one plugin never stops the others. */
module PluginActivation {
  import opened PluginMetadata
  import LoadOrder

  /** What happens when a plugin is instantiated and initialised. Reflection, class loading
      and the plugin's own code are not modelled; only their outcome is. */
  datatype Activation =
    | InstantiationFails                // loadClass, asSubclass or the constructor throws
    | InitThrows                        // init() throws
    | Initialised(postInitThrows: bool) // init() returns (its boolean is ignored)

  /** A class loader: the application's own, or the loader built for one plugin. */
  datatype Loader = AppLoader | PluginLoader(plugin: string, jarUrl: string, parents: seq<Loader>)

  /** The loaders registered under `names`, in the order of `names`; unregistered names are
      skipped. */
  function Registered(names: seq<string>, registry: map<string, Loader>): (r: seq<Loader>)
    ensures |r| <= |names|
    ensures forall l :: l in r ==> exists n :: n in names && n in registry && registry[n] == l
    ensures forall n :: n in names && n in registry ==> registry[n] in r
  {
    if names == [] then []
    else
      var last := names[|names| - 1];
      assert names == names[..|names| - 1] + [last];
      Registered(names[..|names| - 1], registry) + (if last in registry then [registry[last]] else [])
  }

  /** The parents handed to a plugin's loader: the application loader, then its registered
      hard dependencies, then its registered soft dependencies. */
  function ParentsOf(p: Descriptor, registry: map<string, Loader>): seq<Loader> {
    [AppLoader] + Registered(p.dependencies, registry) + Registered(p.softDependencies, registry)
  }

  /** The controller's bookkeeping: enabled names, registered loaders, and the name-to-loader
      map local to one activation run. */
  datatype Activated = Activated(enabled: seq<string>, loaders: seq<Loader>, registry: map<string, Loader>)

  /** Activating one plugin. */
  function Step(p: Descriptor, outcome: Activation, st: Activated): Activated {
    var loader := PluginLoader(p.name, p.jarUrl, ParentsOf(p, st.registry));
    if outcome.Initialised? then
      Activated(st.enabled + [p.name], st.loaders + [loader], st.registry[p.name := loader])
    else st
  }

  /** Activating the plugins of `order` in turn, `outcomes[i]` being what happens to `order[i]`. */
  function ActivateAll(order: seq<Descriptor>, outcomes: seq<Activation>, st: Activated): Activated
    requires |outcomes| == |order|
    decreases |order|
  {
    if order == [] then st
    else
      var n := |order| - 1;
      Step(order[n], outcomes[n], ActivateAll(order[..n], outcomes[..n], st))
  }

  /** The names of the plugins whose `init()` returned, in load order. */
  function InitialisedNames(order: seq<Descriptor>, outcomes: seq<Activation>): seq<string>
    requires |outcomes| == |order|
  {
    if order == [] then []
    else (if outcomes[0].Initialised? then [order[0].name] else []) + InitialisedNames(order[1..], outcomes[1..])
  }

  lemma {:induction false} InitialisedNamesAppend(order: seq<Descriptor>, outcomes: seq<Activation>, p: Descriptor, o: Activation)
    requires |outcomes| == |order|
    ensures InitialisedNames(order + [p], outcomes + [o])
         == InitialisedNames(order, outcomes) + (if o.Initialised? then [p.name] else [])
  {
    if order == [] {
      assert (order + [p])[1..] == [] && (outcomes + [o])[1..] == [];
    } else {
      assert (order + [p])[1..] == order[1..] + [p];
      assert (outcomes + [o])[1..] == outcomes[1..] + [o];
      InitialisedNamesAppend(order[1..], outcomes[1..], p, o);
    }
  }

  /** Exactly the plugins whose `init()` returned are enabled, in load order, each with one
      registered loader built for it; a plugin that failed is simply absent, and the
      plugins after it are activated as usual. */
  lemma {:induction false} EnabledAreInitialised(order: seq<Descriptor>, outcomes: seq<Activation>)
    requires |outcomes| == |order|
    ensures ActivateAll(order, outcomes, Activated([], [], map[])).enabled == InitialisedNames(order, outcomes)
    ensures |ActivateAll(order, outcomes, Activated([], [], map[])).loaders| == |InitialisedNames(order, outcomes)|
    ensures forall i :: 0 <= i < |ActivateAll(order, outcomes, Activated([], [], map[])).loaders| ==>
              ActivateAll(order, outcomes, Activated([], [], map[])).loaders[i].PluginLoader? &&
              ActivateAll(order, outcomes, Activated([], [], map[])).loaders[i].plugin == InitialisedNames(order, outcomes)[i]
    ensures ActivateAll(order, outcomes, Activated([], [], map[])).registry.Keys
         == set n | n in InitialisedNames(order, outcomes)
    decreases |order|
  {
    if order != [] {
      var n := |order| - 1;
      EnabledAreInitialised(order[..n], outcomes[..n]);
      assert order == order[..n] + [order[n]] && outcomes == outcomes[..n] + [outcomes[n]];
      InitialisedNamesAppend(order[..n], outcomes[..n], order[n], outcomes[n]);
    }
  }

  /** `isPluginEnabled(name)` after activation holds exactly when some plugin of that name
      in the load order had its `init()` return — whatever `postInit()` then did. */
  lemma EnabledExactlyWhenInitialised(order: seq<Descriptor>, outcomes: seq<Activation>, name: string)
    requires |outcomes| == |order|
    ensures name in ActivateAll(order, outcomes, Activated([], [], map[])).enabled <==>
            exists i :: 0 <= i < |order| && order[i].name == name && outcomes[i].Initialised?
  {
    EnabledAreInitialised(order, outcomes);
    InitialisedNamesMembers(order, outcomes, name);
  }

  lemma {:induction false} InitialisedNamesMembers(order: seq<Descriptor>, outcomes: seq<Activation>, name: string)
    requires |outcomes| == |order|
    ensures name in InitialisedNames(order, outcomes) <==>
            exists i :: 0 <= i < |order| && order[i].name == name && outcomes[i].Initialised?
  {
    if order != [] {
      InitialisedNamesMembers(order[1..], outcomes[1..], name);
      if exists i :: 0 <= i < |order| && order[i].name == name && outcomes[i].Initialised? {
        var i :| 0 <= i < |order| && order[i].name == name && outcomes[i].Initialised?;
        if i > 0 {
          assert order[1..][i - 1] == order[i] && outcomes[1..][i - 1] == outcomes[i];
        }
      }
      if exists i :: 0 <= i < |order[1..]| && order[1..][i].name == name && outcomes[1..][i].Initialised? {
        var i :| 0 <= i < |order[1..]| && order[1..][i].name == name && outcomes[1..][i].Initialised?;
        assert order[i + 1] == order[1..][i] && outcomes[i + 1] == outcomes[1..][i];
      }
    }
  }

  /** `order[i]` is the last plugin named `name` whose `init()` returned, and `loader` is the
      loader built for it from the loaders registered before it. */
  ghost predicate LatestEnabled(order: seq<Descriptor>, outcomes: seq<Activation>, name: string, i: int, loader: Loader)
    requires |outcomes| == |order|
  {
    0 <= i < |order| && order[i].name == name && outcomes[i].Initialised? &&
    loader == PluginLoader(name, order[i].jarUrl,
                ParentsOf(order[i], ActivateAll(order[..i], outcomes[..i], Activated([], [], map[])).registry)) &&
    forall j :: i < j < |order| && order[j].name == name ==> !outcomes[j].Initialised?
  }

  /** Activating one more plugin that is not an enabled `name` leaves the latest enabled
      `name` where it was. */
  lemma LatestEnabledExtends(order: seq<Descriptor>, outcomes: seq<Activation>, name: string, i: int, loader: Loader)
    requires |outcomes| == |order| && |order| > 0
    requires LatestEnabled(order[..|order| - 1], outcomes[..|order| - 1], name, i, loader)
    requires !(outcomes[|order| - 1].Initialised? && order[|order| - 1].name == name)
    ensures LatestEnabled(order, outcomes, name, i, loader)
  {
    var n := |order| - 1;
    assert order[..n][..i] == order[..i] && outcomes[..n][..i] == outcomes[..i];
    assert order[..n][i] == order[i] && outcomes[..n][i] == outcomes[i];
    forall j | i < j < |order| && order[j].name == name
      ensures !outcomes[j].Initialised?
    {
      if j < n {
        assert order[..n][j] == order[j] && outcomes[..n][j] == outcomes[j];
      }
    }
  }

  /** The loader map maps each registered name to the loader of the last plugin of that name
      that was enabled. */
  lemma {:induction false} RegistryHoldsLatest(order: seq<Descriptor>, outcomes: seq<Activation>, name: string)
    requires |outcomes| == |order|
    requires name in ActivateAll(order, outcomes, Activated([], [], map[])).registry
    ensures exists i :: LatestEnabled(order, outcomes, name, i, ActivateAll(order, outcomes, Activated([], [], map[])).registry[name])
    decreases |order|
  {
    var n := |order| - 1;
    var prev := ActivateAll(order[..n], outcomes[..n], Activated([], [], map[]));
    if outcomes[n].Initialised? && order[n].name == name {
      assert LatestEnabled(order, outcomes, name, n, ActivateAll(order, outcomes, Activated([], [], map[])).registry[name]);
    } else {
      RegistryHoldsLatest(order[..n], outcomes[..n], name);
      var i :| LatestEnabled(order[..n], outcomes[..n], name, i, prev.registry[name]);
      LatestEnabledExtends(order, outcomes, name, i, prev.registry[name]);
    }
  }

  /** A parent list starts with the application loader, and holds exactly the registered
      loaders of the plugin's hard and soft dependencies. */
  lemma ParentsAreRegisteredDependencies(p: Descriptor, registry: map<string, Loader>)
    ensures ParentsOf(p, registry)[0] == AppLoader
    ensures forall l :: l in ParentsOf(p, registry)[1..] ==>
              exists n :: (n in p.dependencies || n in p.softDependencies) && n in registry && registry[n] == l
    ensures forall n :: n in p.dependencies && n in registry ==> registry[n] in ParentsOf(p, registry)[1..]
    ensures forall n :: n in p.softDependencies && n in registry ==> registry[n] in ParentsOf(p, registry)[1..]
  {
    var hard := Registered(p.dependencies, registry);
    var soft := Registered(p.softDependencies, registry);
    assert ParentsOf(p, registry)[1..] == hard + soft;
  }

  /** One of the two loops of `loadPlugins` that collect parents: the registered loader of
      each name in `names` that has one, in order. */
  method CollectRegistered(names: seq<string>, pluginLoaders: map<string, Loader>) returns (found: seq<Loader>)
    ensures found == Registered(names, pluginLoaders)
  {
    found := [];
    var k := 0;
    while k < |names|
      invariant 0 <= k <= |names|
      invariant found == Registered(names[..k], pluginLoaders)
    {
      assert names[..k + 1][..k] == names[..k];
      if names[k] in pluginLoaders {
        found := found + [pluginLoaders[names[k]]];
      }
      k := k + 1;
    }
    assert names[..k] == names;
  }

  /** The parent loaders of a plugin's loader: the application loader, then for each hard
      dependency and then each soft dependency that has a registered loader, that loader. */
  method CollectParents(plugin: Descriptor, pluginLoaders: map<string, Loader>) returns (parents: seq<Loader>)
    ensures parents == ParentsOf(plugin, pluginLoaders)
  {
    var hard := CollectRegistered(plugin.dependencies, pluginLoaders);
    var soft := CollectRegistered(plugin.softDependencies, pluginLoaders);
    parents := [AppLoader] + hard + soft;
  }

  class PluginController {
    /** The names of the enabled plugins (what `getEnabledPlugins` returns). */
    var enabledPlugins: seq<string>
    /** The loaders of the enabled plugins, in activation order (what
        `getPluginClassLoaders` returns; each loader is new, so the set never merges two). */
    var pluginClassLoaders: seq<Loader>

    constructor()
      ensures enabledPlugins == [] && pluginClassLoaders == []
    {
      enabledPlugins := [];
      pluginClassLoaders := [];
    }

    /** `enabledPlugins.contains(name)`: a scan of the enabled list. */
    method IsPluginEnabled(name: string) returns (r: bool)
      ensures r <==> name in enabledPlugins
    {
      var i := 0;
      while i < |enabledPlugins|
        invariant 0 <= i <= |enabledPlugins|
        invariant name !in enabledPlugins[..i]
      {
        if enabledPlugins[i] == name {
          return true;
        }
        assert enabledPlugins[..i + 1] == enabledPlugins[..i] + [enabledPlugins[i]];
        i := i + 1;
      }
      assert enabledPlugins[..i] == enabledPlugins;
      return false;
    }

    /** Activates the plugins of `loadOrder` in turn. For each it collects the parent loaders
        (application loader, registered hard dependencies, registered soft dependencies),
        builds its loader and instantiates it; if `init()` returns, it records the name and
        the loader and calls `postInit()`. An `Exception` abandons only the current plugin;
        an `Error` is not caught here and is left out of this model. */
    method LoadPlugins(loadOrder: seq<Descriptor>, outcomes: seq<Activation>) returns (pluginLoaders: map<string, Loader>)
      requires |outcomes| == |loadOrder|
      modifies this
      ensures Activated(enabledPlugins, pluginClassLoaders, pluginLoaders)
           == ActivateAll(loadOrder, outcomes, Activated(old(enabledPlugins), old(pluginClassLoaders), map[]))
    {
      pluginLoaders := map[];
      ghost var start := Activated(enabledPlugins, pluginClassLoaders, map[]);
      var i := 0;
      while i < |loadOrder|
        invariant 0 <= i <= |loadOrder|
        invariant Activated(enabledPlugins, pluginClassLoaders, pluginLoaders)
               == ActivateAll(loadOrder[..i], outcomes[..i], start)
      {
        var plugin := loadOrder[i];
        var parents := CollectParents(plugin, pluginLoaders);
        var loader := PluginLoader(plugin.name, plugin.jarUrl, parents);

        match outcomes[i] {
          case InstantiationFails =>
          case InitThrows =>
          case Initialised(postInitThrows) =>
            enabledPlugins := enabledPlugins + [plugin.name];
            pluginClassLoaders := pluginClassLoaders + [loader];
            pluginLoaders := pluginLoaders[plugin.name := loader];
            // postInit() runs now; if it throws, the exception is caught and nothing is undone.
        }
        assert loadOrder[..i + 1][..i] == loadOrder[..i] && outcomes[..i + 1][..i] == outcomes[..i];
        i := i + 1;
      }
      assert loadOrder[..i] == loadOrder && outcomes[..i] == outcomes;
    }

    /** Start-up of the plugin system over already discovered plugins: resolve the load
        order, then activate it; `outcomeOf` says what activating each plugin does. */
    method Init(discovered: seq<Descriptor>, outcomeOf: Descriptor -> Activation)
      modifies this
      ensures var order := LoadOrder.LoadOrderOf(discovered).order;
              var outcomes := seq(|order|, i requires 0 <= i < |order| => outcomeOf(order[i]));
              enabledPlugins == old(enabledPlugins) + InitialisedNames(order, outcomes) &&
              pluginClassLoaders == ActivateAll(order, outcomes, Activated(old(enabledPlugins), old(pluginClassLoaders), map[])).loaders
    {
      var loadOrder, pending, report := LoadOrder.ResolveLoadOrder(discovered);
      var outcomes := seq(|loadOrder|, i requires 0 <= i < |loadOrder| => outcomeOf(loadOrder[i]));
      var pluginLoaders := LoadPlugins(loadOrder, outcomes);
      ActivationAppends(loadOrder, outcomes, old(enabledPlugins), old(pluginClassLoaders));
    }
  }

  /** Activation only appends to what the controller already recorded. */
  lemma {:induction false} ActivationAppends(order: seq<Descriptor>, outcomes: seq<Activation>,
                                             enabled: seq<string>, loaders: seq<Loader>)
    requires |outcomes| == |order|
    ensures ActivateAll(order, outcomes, Activated(enabled, loaders, map[])).enabled
         == enabled + InitialisedNames(order, outcomes)
    decreases |order|
  {
    if order != [] {
      var n := |order| - 1;
      ActivationAppends(order[..n], outcomes[..n], enabled, loaders);
      assert order == order[..n] + [order[n]] && outcomes == outcomes[..n] + [outcomes[n]];
      InitialisedNamesAppend(order[..n], outcomes[..n], order[n], outcomes[n]);
    } else {
      assert enabled + [] == enabled;
    }
  }
}
