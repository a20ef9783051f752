/**
 * Locating and reading the project configuration, and the two paths derived from it.
 * The file system is a set of existing paths; loading a configuration module and
 * validating it is a function from a path to a configuration or an error.
 */
module ConfigFiles {

  import opened Wrappers
  import opened JsStrings
  import opened ConfigTypes

  /** Candidate configuration file names, highest priority first. */
  const ConfigFileNames: seq<string> := ["pushui.config.ts", "pushui.config.js", "pushui.config.mjs"]

  /** `path.join(dir, name)`, taken as concatenation with one separator. */
  function PathJoin(dir: string, name: string): string {
    dir + "/" + name
  }

  predicate IsAbsolute(p: string) {
    |p| > 0 && p[0] == '/'
  }

  /** `path.resolve(cwd, p)`: an absolute `p` stands, a relative one is taken under `cwd`. */
  function PathResolve(cwd: string, p: string): (r: string)
    ensures IsAbsolute(p) ==> r == p
    ensures !IsAbsolute(p) ==> r == PathJoin(cwd, p)
  {
    if IsAbsolute(p) then p else PathJoin(cwd, p)
  }

  /** The path of the `i`-th candidate under `cwd`. */
  function Candidate(cwd: string, i: nat): string
    requires i < |ConfigFileNames|
  {
    PathJoin(cwd, ConfigFileNames[i])
  }

  /** The first candidate, from index `from` on, that exists. */
  function FirstExisting(cwd: string, existing: set<string>, from: nat): (r: Option<string>)
    requires from <= |ConfigFileNames|
    ensures r.Some? ==>
      exists i :: from <= i < |ConfigFileNames| && r.value == Candidate(cwd, i)
        && r.value in existing && forall j :: from <= j < i ==> Candidate(cwd, j) !in existing
    ensures r.None? <==> forall i :: from <= i < |ConfigFileNames| ==> Candidate(cwd, i) !in existing
    decreases |ConfigFileNames| - from
  {
    if from == |ConfigFileNames| then None
    else if Candidate(cwd, from) in existing then Some(Candidate(cwd, from))
    else FirstExisting(cwd, existing, from + 1)
  }

  /** The configuration file `findConfigFile` settles on, if any. */
  function ConfigFile(cwd: string, existing: set<string>): Option<string> {
    FirstExisting(cwd, existing, 0)
  }

  /** `findConfigFile`: tries the candidates in priority order and stops at the first that exists. */
  method FindConfigFile(cwd: string, existing: set<string>) returns (r: Option<string>)
    ensures r == ConfigFile(cwd, existing)
    ensures r.Some? ==> r.value in existing
    ensures r.None? <==> forall i :: 0 <= i < |ConfigFileNames| ==> Candidate(cwd, i) !in existing
  {
    var i := 0;
    while i < |ConfigFileNames|
      invariant 0 <= i <= |ConfigFileNames|
      invariant FirstExisting(cwd, existing, 0) == FirstExisting(cwd, existing, i)
    {
      var filePath := PathJoin(cwd, ConfigFileNames[i]);
      if filePath in existing {
        return Some(filePath);
      }
      i := i + 1;
    }
    return None;
  }

  /** `configExists` */
  method ConfigExists(cwd: string, existing: set<string>) returns (b: bool)
    ensures b <==> ConfigFile(cwd, existing).Some?
    ensures b <==> exists i :: 0 <= i < |ConfigFileNames| && Candidate(cwd, i) in existing
  {
    var found := FindConfigFile(cwd, existing);
    b := found != None;
  }

  /**
   * `loadConfig`: the configuration the chosen file yields once loaded and validated,
   * or the defaults when there is no file or loading fails.
   */
  method LoadConfig(cwd: string, existing: set<string>, load: string -> Result<Config, string>)
    returns (r: Config)
    ensures ConfigFile(cwd, existing).None? ==> r == DefaultConfig
    ensures ConfigFile(cwd, existing).Some? && load(ConfigFile(cwd, existing).value).Err? ==> r == DefaultConfig
    ensures ConfigFile(cwd, existing).Some? && load(ConfigFile(cwd, existing).value).Ok? ==>
      r == load(ConfigFile(cwd, existing).value).value
  {
    var configPath := FindConfigFile(cwd, existing);
    if configPath.None? {
      return DefaultConfig;
    }
    var loaded := load(configPath.value);
    match loaded
    case Ok(c) => r := c;
    case Err(_) => r := DefaultConfig;
  }

  /** `getComponentPath` */
  function GetComponentPath(config: Config, cwd: string): string {
    PathResolve(cwd, config.componentPath)
  }

  /** `getLibPath`: the first `@/` of the lib alias becomes `src/`, and the result is resolved under `cwd`. */
  function GetLibPath(config: Config, cwd: string): string {
    PathResolve(cwd, ReplaceFirst(config.aliases.lib, "@/", "src/"))
  }

  /**
   * Only the first `@/` is rewritten, wherever it stands; an alias without `@/` is
   * resolved as it is.
   */
  lemma LibPathRewritesFirstAlias(config: Config, cwd: string)
    ensures Free(config.aliases.lib, "@/") ==> GetLibPath(config, cwd) == PathResolve(cwd, config.aliases.lib)
    ensures !Free(config.aliases.lib, "@/") ==> exists a, b ::
      config.aliases.lib == a + "@/" + b && Free(a + "@", "@/")
      && GetLibPath(config, cwd) == PathResolve(cwd, a + "src/" + b)
  {
    ReplaceFirstSpec(config.aliases.lib, "@/", "src/");
    var p := "@/";
    assert p[..|p| - 1] == "@";
  }

  /** The default lib alias `@/lib` resolves to `src/lib` under `cwd`. */
  lemma DefaultLibPath(cwd: string)
    ensures GetLibPath(DefaultConfig, cwd) == cwd + "/src/lib"
  {
    ReplaceFirstPrefix("@/", "src/", "lib");
    assert "@/" + "lib" == DefaultConfig.aliases.lib;
    assert "src/" + "lib" == "src/lib";
  }

  /** The default component directory resolves to `src/components/ui` under `cwd`. */
  lemma DefaultComponentPath(cwd: string)
    ensures GetComponentPath(DefaultConfig, cwd) == cwd + "/src/components/ui"
  {
  }
}
