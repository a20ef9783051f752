/**
 * The registry manifest and the installation record, as validated by the registry schema:
 * a component's file list, its dependency lists, the manifest, and the tracking file's records.
 */
module RegistryTypes {

  import opened Wrappers
  import opened Collections

  /** `'component' | 'style' | 'story'` */
  datatype FileType = ComponentFile | StyleFile | StoryFile

  /** A file entry is either a bare file name or a descriptor whose `optional` flag may be absent. */
  datatype FileEntry =
    | Bare(name: string)
    | Descriptor(path: string, fileType: FileType, optional: Option<bool>)

  /** `'registry:ui' | 'registry:util'` */
  datatype ComponentType = UiComponent | UtilComponent

  /** The `dependencies` object: both lists may be absent. */
  datatype Dependencies = Dependencies(npm: Option<seq<string>>, components: Option<seq<string>>)

  /**
   * A component definition. Nothing ties `name` to the key under which the manifest stores it.
   */
  datatype Component = Component(
    name: string,
    version: Option<string>,
    description: Option<string>,
    kind: ComponentType,
    files: seq<FileEntry>,
    dependencies: Option<Dependencies>,
    devDependencies: Option<seq<string>>,
    registryDependencies: Option<seq<string>>)

  /**
   * The manifest as parsed: `components` is the record of definitions by name and
   * `keyOrder` lists its keys in the order `Object.keys` enumerates them.
   */
  datatype RegistryData = RegistryData(
    version: Option<string>,
    components: map<string, Component>,
    keyOrder: seq<string>,
    utils: Option<map<string, Component>>)

  predicate KeysListed(r: RegistryData) {
    NoDup(r.keyOrder)
    && (forall k | k in r.keyOrder :: k in r.components)
    && (forall k | k in r.components :: k in r.keyOrder)
  }

  type Registry = r: RegistryData | KeysListed(r) witness RegistryData(None, map[], [], None)

  /** One record of the tracking file; every field is required. */
  datatype InstalledComponent = InstalledComponent(
    name: string,
    version: string,
    installedAt: string,
    files: seq<string>)

  /** The tracking file's content: the record of each installed component by name. */
  datatype InstalledRegistry = InstalledRegistry(components: map<string, InstalledComponent>)

  const EmptyInstalled: InstalledRegistry := InstalledRegistry(map[])

  /** `x || []` for the optional name lists. */
  function OrEmpty(o: Option<seq<string>>): seq<string> {
    match o
    case None => []
    case Some(xs) => xs
  }

  /** `component.registryDependencies || []` */
  function RegistryDeps(c: Component): seq<string> {
    OrEmpty(c.registryDependencies)
  }

  /** `component.dependencies?.components || []` */
  function ComponentDeps(c: Component): seq<string> {
    match c.dependencies
    case None => []
    case Some(d) => OrEmpty(d.components)
  }

  /** `component.dependencies?.npm`, absent read as empty */
  function NpmDeps(c: Component): seq<string> {
    match c.dependencies
    case None => []
    case Some(d) => OrEmpty(d.npm)
  }

  /** `component.devDependencies`, absent read as empty */
  function DevDeps(c: Component): seq<string> {
    OrEmpty(c.devDependencies)
  }
}
