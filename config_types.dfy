/**
 * The `pushui.config.ts` configuration: the validated record, the schema's defaults,
 * `defaultConfig`, and the partial input that `defineConfig` completes.
 */
module ConfigTypes {

  import opened Wrappers

  /** `'tailwind-only' | 'tailwind+css'` */
  datatype Strategy = TailwindOnly | TailwindCss

  datatype StyleConfig = StyleConfig(strategy: Strategy, cssPath: Option<string>)

  datatype Aliases = Aliases(components: string, lib: string)

  datatype StorybookConfig = StorybookConfig(enabled: bool, path: string, autoGenerate: bool)

  /** A validated configuration: only `style.cssPath` and `registry` may be absent. */
  datatype Config = Config(
    componentPath: string,
    style: StyleConfig,
    aliases: Aliases,
    storybook: StorybookConfig,
    registry: Option<string>)

  /** `defaultConfig` */
  const DefaultConfig: Config := Config(
    "src/components/ui",
    StyleConfig(TailwindOnly, None),
    Aliases("@/components", "@/lib"),
    StorybookConfig(false, "src/stories", false),
    None)

  // The defaults written into the schema, field by field.
  const SchemaComponentPath := "src/components/ui"
  const SchemaStrategy := TailwindOnly
  const SchemaComponentsAlias := "@/components"
  const SchemaLibAlias := "@/lib"
  const SchemaStorybookEnabled := false
  const SchemaStorybookPath := "src/stories"
  const SchemaAutoGenerate := false

  /** A configuration object before validation: any field, at any depth, may be missing. */
  datatype StyleInput = StyleInput(strategy: Option<Strategy>, cssPath: Option<string>)

  datatype AliasesInput = AliasesInput(components: Option<string>, lib: Option<string>)

  datatype StorybookInput = StorybookInput(enabled: Option<bool>, path: Option<string>, autoGenerate: Option<bool>)

  datatype ConfigInput = ConfigInput(
    componentPath: Option<string>,
    style: Option<StyleInput>,
    aliases: Option<AliasesInput>,
    storybook: Option<StorybookInput>,
    registry: Option<string>)

  const EmptyInput: ConfigInput := ConfigInput(None, None, None, None, None)

  function Or<T>(o: Option<T>, d: T): T {
    match o
    case None => d
    case Some(v) => v
  }

  function CompleteStyle(s: Option<StyleInput>): StyleConfig {
    match s
    case None => StyleConfig(SchemaStrategy, None)
    case Some(si) => StyleConfig(Or(si.strategy, SchemaStrategy), si.cssPath)
  }

  function CompleteAliases(a: Option<AliasesInput>): Aliases {
    match a
    case None => Aliases(SchemaComponentsAlias, SchemaLibAlias)
    case Some(ai) => Aliases(Or(ai.components, SchemaComponentsAlias), Or(ai.lib, SchemaLibAlias))
  }

  function CompleteStorybook(b: Option<StorybookInput>): StorybookConfig {
    match b
    case None => StorybookConfig(SchemaStorybookEnabled, SchemaStorybookPath, SchemaAutoGenerate)
    case Some(bi) => StorybookConfig(
      Or(bi.enabled, SchemaStorybookEnabled), Or(bi.path, SchemaStorybookPath), Or(bi.autoGenerate, SchemaAutoGenerate))
  }

  /**
   * `defineConfig` (the schema's `parse`): every field that is given is kept, and every
   * missing field, including a nested object missing entirely, takes `defaultConfig`'s value.
   */
  function DefineConfig(c: ConfigInput): (r: Config)
    ensures c.componentPath.Some? ==> r.componentPath == c.componentPath.value
    ensures c.componentPath.None? ==> r.componentPath == DefaultConfig.componentPath
    ensures c.style.None? ==> r.style == DefaultConfig.style
    ensures c.style.Some? ==>
      r.style.cssPath == c.style.value.cssPath
      && r.style.strategy == Or(c.style.value.strategy, DefaultConfig.style.strategy)
    ensures c.aliases.None? ==> r.aliases == DefaultConfig.aliases
    ensures c.aliases.Some? ==>
      r.aliases.components == Or(c.aliases.value.components, DefaultConfig.aliases.components)
      && r.aliases.lib == Or(c.aliases.value.lib, DefaultConfig.aliases.lib)
    ensures c.storybook.None? ==> r.storybook == DefaultConfig.storybook
    ensures c.storybook.Some? ==>
      r.storybook.enabled == Or(c.storybook.value.enabled, DefaultConfig.storybook.enabled)
      && r.storybook.path == Or(c.storybook.value.path, DefaultConfig.storybook.path)
      && r.storybook.autoGenerate == Or(c.storybook.value.autoGenerate, DefaultConfig.storybook.autoGenerate)
    ensures r.registry == c.registry
  {
    Config(Or(c.componentPath, SchemaComponentPath), CompleteStyle(c.style), CompleteAliases(c.aliases),
      CompleteStorybook(c.storybook), c.registry)
  }

  /** A validated configuration seen as a configuration object with every field present. */
  function ToInput(c: Config): ConfigInput {
    ConfigInput(
      Some(c.componentPath),
      Some(StyleInput(Some(c.style.strategy), c.style.cssPath)),
      Some(AliasesInput(Some(c.aliases.components), Some(c.aliases.lib))),
      Some(StorybookInput(Some(c.storybook.enabled), Some(c.storybook.path), Some(c.storybook.autoGenerate))),
      c.registry)
  }

  /** `defaultConfig` is exactly what the schema produces for an empty object. */
  lemma DefaultsAgree()
    ensures DefineConfig(EmptyInput) == DefaultConfig
    ensures DefaultConfig.style.strategy == TailwindOnly
    ensures DefaultConfig.style.cssPath.None? && DefaultConfig.registry.None?
  {
  }

  /** Validating a configuration that is already complete returns it unchanged. */
  lemma DefineConfigComplete(c: Config)
    ensures DefineConfig(ToInput(c)) == c
  {
  }
}
