/** What discovery records about one plugin class: the `@Plugin` annotation's name and
    dependency lists, the class to instantiate and the jar it came from. */
module PluginMetadata {

  /** One discovered plugin. The loader discovery used is not kept: activation builds its own. */
  datatype Descriptor = Descriptor(
    name: string,
    dependencies: seq<string>,
    softDependencies: seq<string>,
    className: string,
    jarUrl: string)

  /** The names of a sequence of descriptors. */
  function Names(ps: seq<Descriptor>): set<string> {
    set p | p in ps :: p.name
  }
}
