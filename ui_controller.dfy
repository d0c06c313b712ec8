/** The application's UI controller, without its rendering: the tab registry behind the
    sidebar, the center area's content, and the lookup of stylesheets and icons through the
    application loader and then the plugin loaders. */
module UI {
  import opened Wrappers
  import opened LookupChain
  import opened Sidebar
  import PluginActivation

  /** The icon shown when no loader has the requested one; it must come from the application. */
  const House: string := "/img/house.png"
  const FallbackMissing: string := "Fallback icon not found: /img/house.png"
  const SceneMissing: string := "Main scene is not initialized yet. Call start() first."

  /** What the center area can show: a tab's content, or the "no plugins enabled" warning. */
  datatype Node = Content(id: string) | NoPluginsAlert

  /** What a loader's `getResource` resolves: resource path to URL. */
  type Resources = map<string, string>

  /** `correctClassLoaderPath`: class-loader paths are relative, so one leading '/' is dropped. */
  function CorrectClassLoaderPath(original: string): (r: string)
    ensures |original| > 0 && original[0] == '/' ==> ['/'] + r == original
    ensures !(|original| > 0 && original[0] == '/') ==> r == original
  {
    if |original| > 0 && original[0] == '/' then original[1..] else original
  }

  /** An absolute path and its relative form resolve the same, and only one '/' is ever
      dropped: a relative path is left alone, a doubled '/' keeps its second one. */
  lemma CorrectedPathRoundTrip(p: string)
    ensures CorrectClassLoaderPath("/" + p) == p
    ensures (|p| == 0 || p[0] != '/') ==> CorrectClassLoaderPath(p) == p
    ensures CorrectClassLoaderPath("//" + p) == "/" + p
  {
    assert ("/" + p)[1..] == p;
    assert ("//" + p)[1..] == "/" + p;
  }

  /** The resource a path resolves to: the application loader first, then each plugin loader
      in registration order. */
  function Resolve(appResources: Resources, pluginResources: seq<Resources>, path: string): Option<string> {
    FirstHit([appResources] + pluginResources, CorrectClassLoaderPath(path))
  }

  /** A stylesheet or icon the application loader has is taken from it; otherwise the first
      plugin loader that has it wins. */
  lemma ResolvePrefersApplication(appResources: Resources, pluginResources: seq<Resources>, path: string)
    ensures CorrectClassLoaderPath(path) in appResources ==>
              Resolve(appResources, pluginResources, path) == Some(appResources[CorrectClassLoaderPath(path)])
    ensures CorrectClassLoaderPath(path) !in appResources ==>
              Resolve(appResources, pluginResources, path) == FirstHit(pluginResources, CorrectClassLoaderPath(path))
  {
    FirstHitConcat([appResources], pluginResources, CorrectClassLoaderPath(path));
    assert ([appResources])[1..] == [];
  }

  /** A JavaFX scene, reduced to its stylesheet list. */
  class Scene {
    var stylesheets: seq<string>

    constructor()
      ensures stylesheets == []
    {
      stylesheets := [];
    }
  }

  /** `tryLoadStylesheet`: adds the stylesheet's URL once if the loader resolves it. */
  method TryLoadStylesheet(scene: Scene, path: string, loader: Resources) returns (loaded: bool)
    modifies scene
    ensures loaded <==> CorrectClassLoaderPath(path) in loader
    ensures loaded ==> scene.stylesheets == old(scene.stylesheets) + [loader[CorrectClassLoaderPath(path)]]
    ensures !loaded ==> scene.stylesheets == old(scene.stylesheets)
  {
    var correctedPath := CorrectClassLoaderPath(path);
    if correctedPath !in loader {
      return false;
    }
    scene.stylesheets := scene.stylesheets + [loader[correctedPath]];
    return true;
  }

  class UIController {
    /** The tab contents by tab text (each supplier stands for the node it supplies). */
    var lazyTabContents: map<string, Node>
    /** The children of the center area. */
    var centerContent: seq<Node>
    /** Set by `start`; `None` until then. */
    var scene: Option<Scene>
    const sidebar: Sidebar
    /** What the application's own class loader resolves. */
    const appResources: Resources

    ghost predicate Valid()
      reads this, sidebar
    {
      sidebar.Valid()
    }

    /** The controller as `start` leaves it before the main tab is built. */
    constructor(appResources: Resources, scene: Option<Scene>)
      ensures Valid() && fresh(sidebar)
      ensures this.appResources == appResources && this.scene == scene
      ensures lazyTabContents == map[] && centerContent == []
      ensures sidebar.children == [] && sidebar.selectedTab == None
    {
      this.appResources := appResources;
      this.scene := scene;
      lazyTabContents := map[];
      centerContent := [];
      sidebar := new Sidebar();
    }

    /** `getMainScene`: fails until `start` has set the scene. */
    method GetMainScene() returns (r: Result<Scene, string>)
      ensures r.Failure? <==> scene.None?
      ensures r.Failure? ==> r.error == SceneMissing
      ensures r.Success? ==> Some(r.value) == scene
    {
      if scene.None? {
        return Failure(SceneMissing);
      }
      return Success(scene.value);
    }

    /** `loadStylesheetToScene`: tries the application loader, then the plugin loaders in
        order, stopping at the first that resolves the path; the scene gains that one URL,
        or nothing when every loader misses. */
    method LoadStylesheetToScene(scene: Scene, path: string, pluginResources: seq<Resources>)
      modifies scene
      ensures scene.stylesheets == old(scene.stylesheets) +
                match Resolve(appResources, pluginResources, path)
                case Some(url) => [url]
                case None => []
    {
      ResolvePrefersApplication(appResources, pluginResources, path);
      var loaded := TryLoadStylesheet(scene, path, appResources);
      if loaded {
        return;
      }
      var key := CorrectClassLoaderPath(path);
      var i := 0;
      while i < |pluginResources|
        invariant 0 <= i <= |pluginResources|
        invariant FirstHit(pluginResources, key) == FirstHit(pluginResources[i..], key)
        invariant scene.stylesheets == old(scene.stylesheets)
      {
        assert pluginResources[i..][1..] == pluginResources[i + 1..];
        loaded := TryLoadStylesheet(scene, path, pluginResources[i]);
        if loaded {
          return;
        }
        i := i + 1;
      }
    }

    /** `loadIcon`: fails if the application loader lacks the fallback icon; otherwise the
        first loader resolving the path supplies the icon, and the fallback stands in when
        none does. */
    method LoadIcon(path: string, pluginResources: seq<Resources>) returns (r: Result<string, string>)
      ensures r.Failure? <==> CorrectClassLoaderPath(House) !in appResources
      ensures r.Failure? ==> r.error == FallbackMissing
      ensures r.Success? ==>
                r.value == Resolve(appResources, pluginResources, path).GetOr(appResources[CorrectClassLoaderPath(House)])
    {
      ResolvePrefersApplication(appResources, pluginResources, path);
      var housePath := CorrectClassLoaderPath(House);
      if housePath !in appResources {
        return Failure(FallbackMissing);
      }
      var fallbackIcon := appResources[housePath];
      var correctedPath := CorrectClassLoaderPath(path);
      if correctedPath in appResources {
        return Success(appResources[correctedPath]);
      }
      var i := 0;
      while i < |pluginResources|
        invariant 0 <= i <= |pluginResources|
        invariant FirstHit(pluginResources, correctedPath) == FirstHit(pluginResources[i..], correctedPath)
      {
        assert pluginResources[i..][1..] == pluginResources[i + 1..];
        if correctedPath in pluginResources[i] {
          return Success(pluginResources[i][correctedPath]);
        }
        i := i + 1;
      }
      return Success(fallbackIcon);
    }

    /** `createTab`: a null supplier is refused and changes nothing; otherwise the sidebar
        gains a tab and the text is mapped to its supplier, a repeated text overwriting. */
    method CreateTab(text: string, hasIcon: bool, contentSupplier: Option<Node>) returns (created: bool)
      requires Valid()
      modifies this, sidebar
      ensures Valid()
      ensures created <==> contentSupplier.Some?
      ensures !created ==> lazyTabContents == old(lazyTabContents) &&
                           sidebar.children == old(sidebar.children) && sidebar.tabButtons == old(sidebar.tabButtons)
      ensures created ==> lazyTabContents == old(lazyTabContents)[text := contentSupplier.value] &&
                          sidebar.children == old(sidebar.children) + [Button(text, [SidebarButton], hasIcon)] &&
                          sidebar.tabButtons == old(sidebar.tabButtons)[text := |old(sidebar.children)|]
      ensures sidebar.selectedTab == old(sidebar.selectedTab)
      ensures centerContent == old(centerContent) && scene == old(scene)
    {
      if contentSupplier.None? {
        return false;
      }
      sidebar.AddTab(text, hasIcon);
      lazyTabContents := lazyTabContents[text := contentSupplier.value];
      return true;
    }

    /** `displayNullAlert`: the center area shows only the warning. */
    method DisplayNullAlert()
      modifies this
      ensures centerContent == [NoPluginsAlert]
      ensures lazyTabContents == old(lazyTabContents) && scene == old(scene)
    {
      centerContent := [NoPluginsAlert];
    }

    /** `updateCenterContent(tabText)`: the area is cleared and shows the tab's content, or
        the warning when no content is registered for that text. */
    method UpdateCenterContent(tabText: string)
      modifies this
      ensures tabText in lazyTabContents ==> centerContent == [lazyTabContents[tabText]]
      ensures tabText !in lazyTabContents ==> centerContent == [NoPluginsAlert]
      ensures lazyTabContents == old(lazyTabContents) && scene == old(scene)
    {
      centerContent := [];
      if tabText in lazyTabContents {
        centerContent := centerContent + [lazyTabContents[tabText]];
      } else {
        DisplayNullAlert();
      }
    }

    /** `postPluginInit`: the warning replaces the center area exactly when no plugin is
        enabled. */
    method PostPluginInit(controller: PluginActivation.PluginController)
      modifies this
      ensures controller.enabledPlugins == [] ==> centerContent == [NoPluginsAlert]
      ensures controller.enabledPlugins != [] ==> centerContent == old(centerContent)
      ensures lazyTabContents == old(lazyTabContents) && scene == old(scene)
    {
      if |controller.enabledPlugins| == 0 {
        DisplayNullAlert();
      }
    }

    /** A click on the sidebar's tab `name`: the sidebar is built with `updateCenterContent`
        as its callback, so a click that selects a tab also switches the center area. */
    method ClickTab(name: string) returns (r: Outcome<string>)
      requires Valid()
      modifies this, sidebar
      ensures Valid()
      ensures old(sidebar.selectedTab) == Some(name) ==>
                r == Pass && centerContent == old(centerContent) && sidebar.selectedTab == Some(name)
      ensures old(sidebar.selectedTab) != Some(name) && r.Pass? ==>
                sidebar.selectedTab == Some(name) &&
                centerContent == [if name in lazyTabContents then lazyTabContents[name] else NoPluginsAlert]
      ensures r.Fail? ==> centerContent == old(centerContent) && sidebar.selectedTab == old(sidebar.selectedTab)
      ensures lazyTabContents == old(lazyTabContents)
    {
      var notified;
      r, notified := sidebar.Click(name);
      if notified.Some? {
        UpdateCenterContent(notified.value);
      }
    }
  }
}
