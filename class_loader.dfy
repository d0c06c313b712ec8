/** The class loader every plugin gets: it looks in its own jar first and then asks, in
    order, the loaders it was given as parents (the application loader, then the loaders of
    the plugin's registered dependencies). */
module ClassLoading {
  import opened Wrappers
  import opened LookupChain

  /** A loaded class, identified by the loader that defined it and its name. */
  datatype ClassRef = ClassRef(definedBy: string, name: string)

  type Url = string

  /** What a delegate loader answers: the classes its `loadClass` resolves and the resources
      its `getResource` resolves. Its own internal delegation is folded into these maps. */
  datatype LoaderView = LoaderView(classes: map<string, ClassRef>, resources: map<string, Url>)

  function ClassMaps(ls: seq<LoaderView>): (r: seq<map<string, ClassRef>>)
    ensures |r| == |ls| && forall i :: 0 <= i < |ls| ==> r[i] == ls[i].classes
  {
    seq(|ls|, i requires 0 <= i < |ls| => ls[i].classes)
  }

  function ResourceMaps(ls: seq<LoaderView>): (r: seq<map<string, Url>>)
    ensures |r| == |ls| && forall i :: 0 <= i < |ls| ==> r[i] == ls[i].resources
  {
    seq(|ls|, i requires 0 <= i < |ls| => ls[i].resources)
  }

  /** On a chain whose first `i` maps lack the key and whose `i`-th map holds it, the first
      hit is that map's value. */
  lemma HitAt<V>(chain: seq<map<string, V>>, key: string, i: int)
    requires 0 <= i < |chain| && key in chain[i]
    requires forall j :: 0 <= j < i ==> key !in chain[j]
    ensures FirstHit(chain, key) == Some(chain[i][key])
  {
    FirstHitIsFirst(chain, key, chain[i][key]);
  }

  class CombinedPluginClassLoader {
    /** Classes defined from the loader's own jar. */
    const ownClasses: map<string, ClassRef>
    /** Resources in the loader's own jar. */
    const ownResources: map<string, Url>
    /** Resources the bootstrap loader (the parent, since the parent passed up is null) finds. */
    const bootstrapResources: map<string, Url>
    /** The parent loaders, copied from the caller's list when the loader is built. */
    const delegates: seq<LoaderView>

    /** Builds the loader from its jar and a list of parents; the list is copied, so later
        changes to the caller's array do not reach the loader. */
    constructor(ownClasses: map<string, ClassRef>, ownResources: map<string, Url>,
                bootstrapResources: map<string, Url>, parents: array<LoaderView>)
      ensures this.ownClasses == ownClasses && this.ownResources == ownResources
      ensures this.bootstrapResources == bootstrapResources
      ensures delegates == parents[..]
    {
      this.ownClasses := ownClasses;
      this.ownResources := ownResources;
      this.bootstrapResources := bootstrapResources;
      this.delegates := parents[..];
    }

    /** Where `findClass` looks, in order. */
    function ClassChain(): seq<map<string, ClassRef>> {
      [ownClasses] + ClassMaps(delegates)
    }

    /** Where `getResource` looks, in order. */
    function ResourceChain(): seq<map<string, Url>> {
      [bootstrapResources, ownResources] + ResourceMaps(delegates)
    }

    /** The loader's own jar first; then each delegate in list order, the first that loads
        the class winning; `ClassNotFoundException` (carrying the name) if all miss. */
    method FindClass(name: string) returns (r: Result<ClassRef, string>)
      ensures name in ownClasses ==> r == Success(ownClasses[name])
      ensures r.Success? <==> FirstHit(ClassChain(), name).Some?
      ensures r.Success? ==> FirstHit(ClassChain(), name) == Some(r.value)
      ensures r.Failure? ==> r.error == name
    {
      var chain := ClassChain();
      if name in ownClasses {
        HitAt(chain, name, 0);
        return Success(ownClasses[name]);
      }
      var i := 0;
      while i < |delegates|
        invariant 0 <= i <= |delegates|
        invariant forall j :: 0 <= j < i ==> name !in delegates[j].classes
      {
        if name in delegates[i].classes {
          HitAt(chain, name, i + 1);
          return Success(delegates[i].classes[name]);
        }
        i := i + 1;
      }
      FirstHitMisses(chain, name);
      return Failure(name);
    }

    /** The superclass lookup first (bootstrap loader, then the own jar); then each delegate
        in list order; `None` (Java's `null`) if nothing resolves the name. */
    method GetResource(name: string) returns (r: Option<Url>)
      ensures name in bootstrapResources ==> r == Some(bootstrapResources[name])
      ensures name !in bootstrapResources && name in ownResources ==> r == Some(ownResources[name])
      ensures r == FirstHit(ResourceChain(), name)
    {
      var chain := ResourceChain();
      if name in bootstrapResources {
        HitAt(chain, name, 0);
        return Some(bootstrapResources[name]);
      }
      if name in ownResources {
        HitAt(chain, name, 1);
        return Some(ownResources[name]);
      }
      var i := 0;
      while i < |delegates|
        invariant 0 <= i <= |delegates|
        invariant forall j :: 0 <= j < i ==> name !in delegates[j].resources
      {
        if name in delegates[i].resources {
          HitAt(chain, name, i + 2);
          return Some(delegates[i].resources[name]);
        }
        i := i + 1;
      }
      FirstHitMisses(chain, name);
      return None;
    }
  }
}
