/**
 * `pushui init`: check for `package.json`, ask before replacing an existing configuration,
 * merge the answers over `defaultConfig` (a shallow, top-level merge), write
 * `pushui.config.ts` from a fixed template, and create `src/lib/utils.ts` if it is absent.
 *
 * The three prompts and the overwrite question are inputs; which paths can be written is
 * a parameter.
 */
module InitCommand {

  import opened Wrappers
  import opened ConfigTypes
  import opened ConfigFiles
  import opened Workspace
  import Installer

  /** What the three prompts answer: the component path, the style strategy, Storybook on or off. */
  datatype Answers = Answers(componentPath: string, strategy: Strategy, storybookEnabled: bool)

  /** The partial configuration built from the answers; Storybook's `path` is not among them. */
  function AnswersInput(a: Answers): ConfigInput {
    ConfigInput(
      Some(a.componentPath),
      Some(StyleInput(Some(a.strategy), None)),
      None,
      Some(StorybookInput(Some(a.storybookEnabled), None, Some(a.storybookEnabled))),
      None)
  }

  /** `{ ...base, ...over }`: a top-level field of `over` that is present replaces `base`'s whole. */
  function ShallowMerge(base: ConfigInput, over: ConfigInput): (r: ConfigInput)
    ensures r.componentPath == if over.componentPath.Some? then over.componentPath else base.componentPath
    ensures r.style == if over.style.Some? then over.style else base.style
    ensures r.aliases == if over.aliases.Some? then over.aliases else base.aliases
    ensures r.storybook == if over.storybook.Some? then over.storybook else base.storybook
    ensures r.registry == if over.registry.Some? then over.registry else base.registry
  {
    ConfigInput(
      if over.componentPath.Some? then over.componentPath else base.componentPath,
      if over.style.Some? then over.style else base.style,
      if over.aliases.Some? then over.aliases else base.aliases,
      if over.storybook.Some? then over.storybook else base.storybook,
      if over.registry.Some? then over.registry else base.registry)
  }

  /** The configuration `init` serialises: the defaults under `--yes`, the merged answers otherwise. */
  function FinalConfig(yes: bool, answers: Answers): (c: ConfigInput)
    ensures Serialisable(c)
  {
    ShallowMerge(ToInput(DefaultConfig), if yes then EmptyInput else AnswersInput(answers))
  }

  // ---------------------------------------------------------------------------------
  // The serialiser

  /** A template hole: an absent value prints as `undefined`. */
  function Show(o: Option<string>): string {
    if o.Some? then o.value else "undefined"
  }

  function ShowStrategy(o: Option<Strategy>): string {
    match o
    case Some(TailwindOnly) => "tailwind-only"
    case Some(TailwindCss) => "tailwind+css"
    case None => "undefined"
  }

  function ShowBool(o: Option<bool>): string {
    match o
    case Some(true) => "true"
    case Some(false) => "false"
    case None => "undefined"
  }

  /** `config.style.cssPath || 'src/styles/components'` */
  const DefaultCssPath: string := "src/styles/components"

  function CssPathOrDefault(o: Option<string>): string {
    if o.Some? && o.value != "" then o.value else DefaultCssPath
  }

  /** The config object has all three nested objects; the template dereferences each. */
  predicate Serialisable(c: ConfigInput) {
    c.style.Some? && c.aliases.Some? && c.storybook.Some?
  }

  /** The lines of `generateConfigFile`, each to be followed by a newline. */
  function ConfigFileLines(c: ConfigInput): (lines: seq<string>)
    requires Serialisable(c)
  {
    var style := c.style.value;
    var cssLine := if style.strategy == Some(TailwindCss) then ["    cssPath: '" + CssPathOrDefault(style.cssPath) + "',"] else [];
    [ "import { defineConfig } from '@marketpushapps/pushui';",
      "",
      "export default defineConfig({",
      "  // Where to install components",
      "  componentPath: '" + Show(c.componentPath) + "',",
      "",
      "  // Style configuration",
      "  style: {",
      "    strategy: '" + ShowStrategy(style.strategy) + "',"
    ]
    + cssLine
    + [ "  },",
        "",
        "  // Path aliases (should match your tsconfig.json paths)",
        "  aliases: {",
        "    components: '" + Show(c.aliases.value.components) + "',",
        "    lib: '" + Show(c.aliases.value.lib) + "',",
        "  },",
        "",
        "  // Storybook integration",
        "  storybook: {",
        "    enabled: " + ShowBool(c.storybook.value.enabled) + ",",
        "    path: '" + Show(c.storybook.value.path) + "',",
        "    autoGenerate: " + ShowBool(c.storybook.value.autoGenerate) + ",",
        "  },",
        "});"
      ]
  }

  function Unlines(lines: seq<string>): string
    decreases |lines|
  {
    if lines == [] then "" else Unlines(lines[..|lines| - 1]) + lines[|lines| - 1] + "\n"
  }

  /** `generateConfigFile` */
  function GenerateConfigFile(c: ConfigInput): string
    requires Serialisable(c)
  {
    Unlines(ConfigFileLines(c))
  }

  /**
   * `generateUtilsFile`: the same helper as the installer's `Installer.InstallerUtilsContent`,
   * with one more comment line; the two texts are distinct constants on purpose.
   */
  const InitUtilsContent: string :=
    "import { type ClassValue, clsx } from 'clsx';\n"
    + "import { twMerge } from 'tailwind-merge';\n"
    + "\n"
    + "/**\n"
    + " * Merge Tailwind CSS classes with clsx\n"
    + " * Use this in components: cn('base-classes', conditionalClass && 'class', props.className)\n"
    + " */\n"
    + "export function cn(...inputs: ClassValue[]) {\n"
    + "  return twMerge(clsx(inputs));\n"
    + "}\n"

  // ---------------------------------------------------------------------------------
  // The action

  datatype InitOutcome = NoPackageJson | InitCancelled | InitFailed(path: string) | Initialized(config: ConfigInput)

  function PackageJsonPath(cwd: string): string {
    PathJoin(cwd, "package.json")
  }

  function ConfigPath(cwd: string): string {
    PathJoin(cwd, "pushui.config.ts")
  }

  /** Always under `src/lib`, whatever the lib alias says. */
  function InitUtilsPath(cwd: string): string {
    PathJoin(PathJoin(cwd, "src/lib"), "utils.ts")
  }

  /** The effect and the outcome of `init` on a project. */
  function InitSpec(cwd: string, yes: bool, force: bool, confirmOverwrite: bool, answers: Answers,
                    writable: string -> bool, before: DiskState): (DiskState, InitOutcome)
  {
    if PackageJsonPath(cwd) !in before.files then (before, NoPackageJson)
    else if ConfigFile(cwd, before.files.Keys).Some? && !force && !confirmOverwrite then (before, InitCancelled)
    else
      var final := FinalConfig(yes, answers);
      if !writable(ConfigPath(cwd)) then (before, InitFailed(ConfigPath(cwd)))
      else
        var written := before.(files := before.files[ConfigPath(cwd) := GenerateConfigFile(final)]);
        if InitUtilsPath(cwd) in written.files then (written, Initialized(final))
        else if !writable(InitUtilsPath(cwd)) then (written, InitFailed(InitUtilsPath(cwd)))
        else (written.(files := written.files[InitUtilsPath(cwd) := InitUtilsContent]), Initialized(final))
  }

  /** The `init` action. */
  method Init(cwd: string, yes: bool, force: bool, confirmOverwrite: bool, answers: Answers,
              writable: string -> bool, disk: Disk)
    returns (outcome: InitOutcome)
    modifies disk
    ensures (disk.State(), outcome) == InitSpec(cwd, yes, force, confirmOverwrite, answers, writable, old(disk.State()))
  {
    var hasPackageJson := disk.PathExists(PackageJsonPath(cwd));
    if !hasPackageJson {
      return NoPackageJson;
    }
    var configured := ConfigExists(cwd, disk.files.Keys);
    if configured && !force {
      if !confirmOverwrite {
        return InitCancelled;
      }
    }
    var finalConfig := FinalConfig(yes, answers);
    var configContent := GenerateConfigFile(finalConfig);
    var configPath := ConfigPath(cwd);
    if !writable(configPath) {
      return InitFailed(configPath);
    }
    disk.WriteFile(configPath, configContent);
    var utilsPath := InitUtilsPath(cwd);
    var hasUtils := disk.PathExists(utilsPath);
    if !hasUtils {
      if !writable(utilsPath) {
        return InitFailed(utilsPath);
      }
      disk.WriteFile(utilsPath, InitUtilsContent);
    }
    outcome := Initialized(finalConfig);
  }

  // ---------------------------------------------------------------------------------
  // Properties

  /** Without `package.json` nothing is written. */
  lemma NeedsPackageJson(cwd: string, yes: bool, force: bool, confirmOverwrite: bool, answers: Answers,
                         writable: string -> bool, before: DiskState)
    requires PackageJsonPath(cwd) !in before.files
    ensures InitSpec(cwd, yes, force, confirmOverwrite, answers, writable, before) == (before, NoPackageJson)
  {
  }

  /** With `--yes` the configuration written is exactly `defaultConfig`. */
  lemma YesWritesDefaults(answers: Answers)
    ensures FinalConfig(true, answers) == ToInput(DefaultConfig)
    ensures DefineConfig(FinalConfig(true, answers)) == DefaultConfig
  {
    DefineConfigComplete(DefaultConfig);
  }

  /**
   * The merge is shallow: the answers' `style` and `storybook` objects replace the defaults
   * whole, so `cssPath` and Storybook's `path` are lost, and `aliases` keeps the defaults.
   */
  lemma InteractiveMerge(answers: Answers)
    ensures var c := FinalConfig(false, answers);
      c.componentPath == Some(answers.componentPath)
      && c.style == Some(StyleInput(Some(answers.strategy), None))
      && c.aliases == Some(AliasesInput(Some(DefaultConfig.aliases.components), Some(DefaultConfig.aliases.lib)))
      && c.storybook == Some(StorybookInput(Some(answers.storybookEnabled), None, Some(answers.storybookEnabled)))
      && c.registry.None?
  {
  }

  /** The position of a storybook line from the end of the file. */
  lemma ConfigFileTail(c: ConfigInput)
    requires Serialisable(c)
    ensures var lines := ConfigFileLines(c);
      |lines| >= 6
      && lines[|lines| - 5] == "    enabled: " + ShowBool(c.storybook.value.enabled) + ","
      && lines[|lines| - 4] == "    path: '" + Show(c.storybook.value.path) + "',"
      && lines[|lines| - 3] == "    autoGenerate: " + ShowBool(c.storybook.value.autoGenerate) + ","
  {
  }

  /**
   * The file written from interactive answers has `path: 'undefined'` for Storybook, and
   * `autoGenerate` follows `enabled`.
   */
  lemma InteractiveStorybookLines(answers: Answers)
    ensures var lines := ConfigFileLines(FinalConfig(false, answers));
      |lines| >= 6
      && lines[|lines| - 4] == "    path: 'undefined',"
      && lines[|lines| - 5] == "    enabled: " + ShowBool(Some(answers.storybookEnabled)) + ","
      && lines[|lines| - 3] == "    autoGenerate: " + ShowBool(Some(answers.storybookEnabled)) + ","
  {
    InteractiveMerge(answers);
    ConfigFileTail(FinalConfig(false, answers));
  }

  /**
   * A `cssPath` line follows the strategy line exactly under `tailwind+css`, and it falls
   * back to `src/styles/components` when the path is absent or empty.
   */
  lemma CssPathLine(c: ConfigInput)
    requires Serialisable(c)
    ensures var lines := ConfigFileLines(c);
      lines[8] == "    strategy: '" + ShowStrategy(c.style.value.strategy) + "',"
      && (c.style.value.strategy == Some(TailwindCss) <==> |lines| == 25)
      && (c.style.value.strategy != Some(TailwindCss) <==> |lines| == 24)
      && (c.style.value.strategy == Some(TailwindCss) ==>
            lines[9] == "    cssPath: '" + CssPathOrDefault(c.style.value.cssPath) + "',")
      && (c.style.value.strategy != Some(TailwindCss) ==> lines[9] == "  },")
  {
  }

  /** The helper and the configuration file never share a path: they part right after `cwd/`. */
  lemma UtilsNotConfig(cwd: string)
    ensures InitUtilsPath(cwd) != ConfigPath(cwd)
  {
    assert InitUtilsPath(cwd)[|cwd| + 1] == 's';
    assert ConfigPath(cwd)[|cwd| + 1] == 'p';
  }

  /**
   * A completed `init` leaves a configuration file that discovery finds first, a helper
   * at `src/lib/utils.ts` (the one that was there, if any, otherwise the generated one), and
   * every other file as it was.
   */
  lemma InitCompleted(cwd: string, yes: bool, force: bool, confirmOverwrite: bool, answers: Answers,
                      writable: string -> bool, before: DiskState)
    requires InitSpec(cwd, yes, force, confirmOverwrite, answers, writable, before).1.Initialized?
    ensures var (after, outcome) := InitSpec(cwd, yes, force, confirmOverwrite, answers, writable, before);
      outcome.config == FinalConfig(yes, answers)
      && ConfigPath(cwd) in after.files
      && after.files[ConfigPath(cwd)] == GenerateConfigFile(FinalConfig(yes, answers))
      && ConfigFile(cwd, after.files.Keys) == Some(ConfigPath(cwd))
      && InitUtilsPath(cwd) in after.files
      && (InitUtilsPath(cwd) in before.files ==>
            after.files[InitUtilsPath(cwd)] == before.files[InitUtilsPath(cwd)])
      && (InitUtilsPath(cwd) !in before.files ==> after.files[InitUtilsPath(cwd)] == InitUtilsContent)
      && (forall k :: k in before.files && k != ConfigPath(cwd) && k != InitUtilsPath(cwd) ==>
            k in after.files && after.files[k] == before.files[k])
      && after.tracker == before.tracker
  {
    UtilsNotConfig(cwd);
    var final := FinalConfig(yes, answers);
    var written := before.(files := before.files[ConfigPath(cwd) := GenerateConfigFile(final)]);
    var after := InitSpec(cwd, yes, force, confirmOverwrite, answers, writable, before).0;
    if InitUtilsPath(cwd) in written.files {
      assert after == written;
    } else {
      assert after == written.(files := written.files[InitUtilsPath(cwd) := InitUtilsContent]);
    }
    assert Candidate(cwd, 0) == ConfigPath(cwd);
    assert Candidate(cwd, 0) in after.files.Keys;
  }

  /** Under the default lib alias, `init` creates the helper where `add` looks for it. */
  lemma InitUtilsWhereInstallerLooks(cwd: string)
    ensures InitUtilsPath(cwd) == Installer.UtilsPath(DefaultConfig, cwd)
  {
    DefaultLibPath(cwd);
  }
}
