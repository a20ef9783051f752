# pushui CLI core, modelled in Dafny

pushui is a command-line tool that copies UI component sources from a remote registry
into a project. This project models the parts of the CLI that decide what happens:

- the registry client: the default registry URL, the one-hour manifest cache with its
  stale fallback, component file URLs, and the depth-first dependency resolver;
- the installer: each component file goes through five checks in order, in the loop of
  `installComponent`:
  - normalise the file entry;
  - skip it because of the style strategy or Storybook setting;
  - pick the target name;
  - refuse to overwrite an existing file;
  - fetch, transform and write it, where an optional file may fail and a required file
    aborts.

  The installer also records installations in `.pushui/installed.json` and creates
  `utils.ts` when it is missing;
- the transformer: alias placeholder substitution, the removal of CSS-import marker lines,
  and the kebab-case and PascalCase conversions;
- configuration:
  - the lookup of `pushui.config.{ts,js,mjs}` and the fallback to defaults;
  - the schema defaults of `defineConfig`;
  - the component path and the lib path;
- `pushui add`:
  - the `--all` flag, the check for unknown names and the transitive install set;
  - the confirmation asked only when dependencies enlarge the set;
  - `utils` first, then every component in order, with a count of the components that
    wrote something, and the npm package lists;
- `pushui init`:
  - the `package.json` check;
  - the overwrite question;
  - the shallow merge of the answers over the defaults;
  - the generated `pushui.config.ts` text;
  - the creation of `src/lib/utils.ts` if it is absent.

Each module follows one source file:

| module | models |
|---|---|
| `RegistryTypes`, `ConfigTypes` | the schemas |
| `ConfigFiles` | `lib/config.ts` |
| `RegistryClient` | `lib/registry.ts` |
| `Transformer` | `lib/transformer.ts` |
| `Installer` | `lib/installer.ts` |
| `AddCommand` | `commands/add.ts` |
| `InitCommand` | `commands/init.ts` |

Support modules:

- `Wrappers`: `Option` and `Result`.
- `Collections`: a JavaScript `Set` as an insertion-ordered sequence without duplicates.
  It comes both as an `OrderedSet` class, mutated by the resolver, and as the functions
  `Insert`/`InsertAll`.
- `JsStrings`: the JavaScript string built-ins the core relies on.
- `Workspace`: the project directory as a `Disk` object holding file contents and the
  tracking file.

Operations that change state are methods on `Disk` and on `OrderedSet`: the installer's
file loop, `installUtils`, `trackInstallation`, the resolver, and the `add` and `init`
actions. Each method is proved equal to a specification function of the old state.
The properties are lemmas about those functions.

The outside world enters as parameters:

- the network is a function from URL to an optional response;
- manifest parsing and config loading are partial functions;
- which paths can be written is a predicate;
- the current time is a string;
- the cache is its age in milliseconds together with its content.

Three behaviours of the code that are easy to misread, and that the model follows:

- When a required file fails, `installComponent` rethrows before it reaches
  `trackInstallation`. So a failed component is not tracked, although the files written
  before the failure stay.
- A cache whose age equals the one-hour TTL still counts as fresh, because the code
  expires only `age > CACHE_TTL`.
- On the interactive `init` path, the merge replaces the whole `storybook` object. The
  generated file therefore prints `path: 'undefined'`: see `InteractiveStorybookLines`.

## Model

| member | source | states |
|---|---|---|
| RegistryClient.BaseUrl | packages/cli/src/lib/registry.ts:21 | a missing or empty registry URL selects the default GitHub raw URL; any other is used as given |
| RegistryClient.GetCachedRegistry | packages/cli/src/lib/registry.ts:58-76 | a cached manifest is returned exactly when the cache file exists, parses, and is either at most one hour old or expiry is ignored |
| RegistryClient.CacheTtlBoundary | packages/cli/src/lib/registry.ts:15 | a cache 3 600 000 ms old is still fresh and one a millisecond older is expired |
| RegistryClient.FetchManifest | packages/cli/src/lib/registry.ts:30-38 | the manifest fetch succeeds exactly when a response arrives with a 2xx status and its body parses as a registry, and then yields the parsed registry |
| RegistryClient.FetchRegistry | packages/cli/src/lib/registry.ts:20-53 | the network is asked only when there is no fresh cache, and then for `<base>/index.json`; a fresh cache is returned as is; otherwise a successful fetch is the result and is cached with age 0 when the cache is writable (else the cache is unchanged); a failed fetch falls back to the stale cache's manifest, unchanged, and fails with the fetch's error exactly when no cache exists |
| RegistryClient.FreshCacheWins | packages/cli/src/lib/registry.ts:24-27 | a fresh cache is returned without a request and left unchanged |
| RegistryClient.StaleCacheFallback | packages/cli/src/lib/registry.ts:44-50 | when the fetch fails, an expired cache is still returned |
| RegistryClient.CacheNotKeyedByUrl | packages/cli/src/lib/registry.ts:24-41 | within an hour of a fetch from one registry URL, a request for any other URL returns the first registry without a request, because the cache file ignores the URL |
| RegistryClient.FetchComponentFile | packages/cli/src/lib/registry.ts:93-108 | the file is fetched from `<base>/components/<name>/<file>`; the result is the body exactly when the response is 2xx |
| RegistryClient.GetComponent | packages/cli/src/lib/registry.ts:113-115 | the component is found exactly when its name is a manifest key, and it is that entry |
| RegistryClient.GetAvailableComponents | packages/cli/src/lib/registry.ts:120-122 | the names are the manifest's keys, each once |
| RegistryClient.ResolveComponentDependencies | packages/cli/src/lib/registry.ts:127-156 | the shared set afterwards holds `Resolve` of its old contents; the result is `[]` for a name already visited or unknown, and the whole set otherwise |
| RegistryClient.Resolve | packages/cli/src/lib/registry.ts:127-156 | the depth-first visit the resolver performs: the visited list only grows; `ResolveFacts`, `ResolveSound` and `ResolveClosed` state what it holds |
| RegistryClient.ResolveEach | packages/cli/src/lib/registry.ts:144-153 | resolving a dependency list in order leaves the set at `ResolveAll` of its old contents |
| RegistryClient.ResolveFacts | packages/cli/src/lib/registry.ts:132-153 | resolution keeps what was visited and adds no duplicate and no unknown name; a known, unvisited name is appended first; a visited or unknown name changes nothing |
| RegistryClient.ResolveAllFacts | packages/cli/src/lib/registry.ts:144-153 | resolving a list keeps what was visited, adds no duplicate and no unknown name, and includes every known name in the list |
| RegistryClient.ResolveSound | packages/cli/src/lib/registry.ts:127-156 | every name resolution adds is reachable from the requested one through registry and component dependencies |
| RegistryClient.ResolveAllSound | packages/cli/src/lib/registry.ts:144-153 | every name added while resolving a list is reachable from some entry of the list |
| RegistryClient.ResolveClosed | packages/cli/src/lib/registry.ts:127-156 | every name resolution adds is known, and its known dependencies are in the result |
| RegistryClient.PathInClosed | packages/cli/src/lib/registry.ts:143-153 | a dependency-closed set that holds the start of a dependency path holds its end |
| RegistryClient.ResolveFreshIsReachable | packages/cli/src/lib/registry.ts:127-156 | from an empty set, the result holds exactly the components reachable from the name, each once, with the name first; an unknown name gives `[]` |
| RegistryClient.CycleResolves | packages/cli/src/lib/registry.ts:132-134 | on a two-component dependency cycle resolution terminates and lists each component once |
| RegistryClient.CollectPackages | packages/cli/src/lib/registry.ts:161-180 | the npm (or dev) package list holds, each once, exactly the packages of the known components named |
| RegistryClient.CollectPackagesPrefix | packages/cli/src/lib/registry.ts:164-177 | the list for a prefix of the names is a prefix of the list for all of them, so packages keep the order in which they are first seen |
| RegistryClient.GetNpmDependencies | packages/cli/src/lib/registry.ts:161-180 | both package lists are the collected lists for the given component names |
| ConfigTypes.DefineConfig | packages/cli/src/types/config.ts:6-39 | every field present in the input is kept; every missing field, at any level, takes its schema default |
| ConfigTypes.DefaultsAgree | packages/cli/src/types/config.ts:46-60 | parsing an empty object gives `defaultConfig`, whose strategy is `tailwind-only` and which has no `cssPath` and no registry |
| ConfigTypes.DefineConfigComplete | packages/cli/src/types/config.ts:65-67 | `defineConfig` returns a complete configuration unchanged |
| ConfigFiles.PathResolve | packages/cli/src/lib/config.ts:62-64 | an absolute path is kept; a relative one is joined to the working directory |
| ConfigFiles.GetComponentPath | packages/cli/src/lib/config.ts:62-64 | the configured `componentPath` resolved against the working directory; `DefaultComponentPath` states its default |
| ConfigFiles.FirstExisting | packages/cli/src/lib/config.ts:12-20 | the result is the first candidate, in the order `.ts`, `.js`, `.mjs`, that exists; it is none exactly when no candidate exists |
| ConfigFiles.FindConfigFile | packages/cli/src/lib/config.ts:12-20 | the loop returns the first existing candidate, or none exactly when no candidate exists |
| ConfigFiles.ConfigExists | packages/cli/src/lib/config.ts:25-27 | a configuration exists exactly when one of the three candidate files exists |
| ConfigFiles.LoadConfig | packages/cli/src/lib/config.ts:32-57 | without a config file, or when loading or validation fails, the defaults are used; otherwise the loaded configuration is |
| ConfigFiles.LibPathRewritesFirstAlias | packages/cli/src/lib/config.ts:69-74 | only the first `@/` of the lib alias becomes `src/`, and an alias without one is resolved as it is |
| ConfigFiles.GetLibPath | packages/cli/src/lib/config.ts:69-74 | the utils alias with its first `@/` replaced by `src/`, resolved against the working directory; `LibPathRewritesFirstAlias` and `DefaultLibPath` state its meaning |
| ConfigFiles.DefaultLibPath | packages/cli/src/lib/config.ts:69-74 | with the default configuration the lib path is `<cwd>/src/lib` |
| ConfigFiles.DefaultComponentPath | packages/cli/src/lib/config.ts:62-64 | with the default configuration the component path is `<cwd>/src/components/ui` |
| JsStrings.IndexOf | packages/cli/src/lib/config.ts:72 | the index found is the first occurrence of the pattern; none exactly when the pattern does not occur |
| JsStrings.ReplaceFirstSpec | packages/cli/src/lib/config.ts:72 | a string without the pattern is unchanged; otherwise exactly its first occurrence is replaced |
| JsStrings.ReplaceAllIsSplitJoin | packages/cli/src/lib/transformer.ts:20-21 | a global replace equals splitting at the pattern, where no piece contains it, and joining with the replacement |
| JsStrings.ReplaceAllFree | packages/cli/src/lib/transformer.ts:20-21 | a global replace of a pattern that does not occur changes nothing |
| JsStrings.ToLowerCase | packages/cli/src/lib/transformer.ts:51 | lower-casing keeps the length and maps every character on its own, ASCII letters only |
| Transformer.LineEnd | packages/cli/src/lib/transformer.ts:28 | the end of the rest of a line is the first line terminator (`\n`, `\r`, U+2028, U+2029), or the end of text |
| Transformer.StripWithoutMarker | packages/cli/src/lib/transformer.ts:28 | text without the `// __IMPORT_CSS__` marker passes unchanged |
| Transformer.StripKeepsPrefix | packages/cli/src/lib/transformer.ts:28 | text before the first marker, including the start of the marker's line, is kept as it is |
| Transformer.StripMarkerLine | packages/cli/src/lib/transformer.ts:28 | a marker is removed with the rest of its line and with one following `\n`; any other line terminator is kept |
| Transformer.TransformKeepsCss | packages/cli/src/lib/transformer.ts:24-25 | under `tailwind+css` only the two alias replacements apply, so content without alias placeholders is unchanged |
| Transformer.TransformWithoutPlaceholders | packages/cli/src/lib/transformer.ts:16-32 | content without any placeholder is unchanged under either strategy |
| Transformer.TransformComponent | packages/cli/src/lib/transformer.ts:16-32 | the components-alias and lib-alias placeholders replaced everywhere, then the CSS-import marker lines removed unless the style strategy is `tailwind+css`; its properties are `TransformKeepsCss`, `TransformWithoutPlaceholders` and `TransformExampleLibAlias` |
| Transformer.StripCssImports | packages/cli/src/lib/transformer.ts:28 | removal of every line from the CSS-import marker to its line end; its properties are the `Strip…` lemmas above |
| Transformer.TransformExampleLibAlias | packages/cli/src/lib/transformer.ts:21 | with the defaults `__ALIAS_LIB__/cn` becomes `@/lib/cn` |
| Transformer.ComponentNameKept | packages/cli/src/lib/transformer.ts:9 | the `__COMPONENT_NAME__` placeholder is declared but never substituted |
| Transformer.HyphenateWithoutCaseChange | packages/cli/src/lib/transformer.ts:49 | text with no lower-case letter followed by an upper-case one gets no hyphen |
| Transformer.HyphenateAtBoundary | packages/cli/src/lib/transformer.ts:49 | at a lower-case letter followed by an upper-case one a single hyphen is inserted, and the text on either side is treated on its own |
| Transformer.CollapseSeparatorsClean | packages/cli/src/lib/transformer.ts:50 | after collapsing runs of whitespace and underscores into hyphens, neither is left |
| Transformer.CollapseWithout | packages/cli/src/lib/transformer.ts:50 | text with no whitespace or underscore is unchanged by the collapse |
| Transformer.KebabIsClean | packages/cli/src/lib/transformer.ts:47-52 | kebab-case output has no upper-case ASCII letter, no whitespace and no underscore |
| Transformer.KebabOfClean | packages/cli/src/lib/transformer.ts:47-52 | a name that is already kebab-clean is unchanged |
| Transformer.KebabIdempotent | packages/cli/src/lib/transformer.ts:47-52 | applying kebab-case twice gives the same result as once |
| Transformer.ToKebabCase | packages/cli/src/lib/transformer.ts:47-52 | the result is kebab-clean: it holds no upper-case letter, space or underscore; its meaning is stated by `HyphenateAtBoundary` (a hyphen at each lower-then-upper boundary), `CollapseWithout`, `KebabOfClean` (a clean name maps to itself), `KebabIdempotent` and `KebabPascalRoundTrip` |
| Transformer.SplitJoined | packages/cli/src/lib/transformer.ts:39 | splitting non-empty separator-free words joined by `-` gives back the words |
| Transformer.ToPascalCase | packages/cli/src/lib/transformer.ts:37-42 | split on each run of `-`, `_` or JavaScript whitespace (a leading or trailing run gives an empty word), upper-case the first character of each piece, lower-case the rest and join; `PascalOfJoined` and `KebabPascalRoundTrip` state its meaning |
| Transformer.PascalOfJoined | packages/cli/src/lib/transformer.ts:37-42 | PascalCase of hyphen-joined words is the concatenation of the capitalised words |
| Transformer.KebabPascalRoundTrip | packages/cli/src/lib/transformer.ts:37-52 | for a non-empty list of words, each of at least two characters, lower-case alphanumeric and starting and ending with a letter, kebab-case of the PascalCase of the joined words gives back the joined words |
| Transformer.CssImportOfKebab | packages/cli/src/lib/transformer.ts:66-68 | the CSS import of a name and of its kebab-case agree |
| Transformer.GenerateCssImport | packages/cli/src/lib/transformer.ts:66-68 | the import line names the kebab-cased component, so kebab-casing the name first changes nothing |
| Transformer.TransformCssForTailwindV4 | packages/cli/src/lib/transformer.ts:57-61 | the CSS passes through unchanged |
| Installer.Normalize | packages/cli/src/lib/installer.ts:32-34 | a bare string is a required component file; a descriptor keeps its path and type and is optional only when `optional` is `true` |
| Installer.SkippedFileUntouched | packages/cli/src/lib/installer.ts:37-42 | a style file under `tailwind-only` and a story file with Storybook off change nothing |
| Installer.BasenameSpec | packages/cli/src/lib/installer.ts:46 | the base name has no `/` and is a suffix of the path; a path without `/` is its own base name; otherwise it is exactly the text after the last `/` |
| Installer.ExtnameSpec | packages/cli/src/lib/installer.ts:46 | the extension is empty (no dot, or only a leading one) or the base name's tail from its last dot |
| Installer.ExtnameEndsPath | packages/cli/src/lib/installer.ts:46 | the extension is a suffix of the whole path |
| Installer.TargetFileNameSpec | packages/cli/src/lib/installer.ts:44-46 | a file name that starts with the component name is kept; otherwise the target is the kebab-cased component name plus the file's extension, and that stem is kebab-clean |
| Installer.TargetFileName | packages/cli/src/lib/installer.ts:44-46 | the target name of a component file; `TargetFileNameSpec` states its cases |
| Installer.StepShape | packages/cli/src/lib/installer.ts:44-65 | one file either changes nothing or writes exactly its target, which must be absent unless overwriting; nothing happens after an abort |
| Installer.FailureHandling | packages/cli/src/lib/installer.ts:66-71 | a failed fetch or write of an optional file is ignored, and of a required file aborts without a write |
| Installer.WrittenFile | packages/cli/src/lib/installer.ts:37-64 | a file is written exactly when it is not skipped, its target is absent or overwriting is on, the fetch succeeds and the target is writable; then the target holds the transformed content |
| Installer.InstallFile | packages/cli/src/lib/installer.ts:32-71 | the loop body on the disk does what `Step` says, and leaves the tracking file alone |
| Installer.StepsAborted | packages/cli/src/lib/installer.ts:67-69 | once a required file has failed, the remaining files are not processed |
| Installer.StepsAppend | packages/cli/src/lib/installer.ts:31 | the files are processed strictly in order: processing `a + b` is processing `a`, then `b` |
| Installer.Abandon | packages/cli/src/lib/installer.ts:66-69 | if processing aborted within the first `i` entries, the full run ends in that same state |
| Installer.OptionalFilesNeverFail | packages/cli/src/lib/installer.ts:66-71 | a component whose files are all optional never aborts |
| Installer.StepsFrame | packages/cli/src/lib/installer.ts:31-72 | every file reported as written exists, and no other file changes |
| Installer.NoClobber | packages/cli/src/lib/installer.ts:49-53 | without `--overwrite` no existing file changes, every written file was new, and none is reported twice |
| Installer.StepsSettle | packages/cli/src/lib/installer.ts:31-72 | after a run without abort every entry is settled: skipped, present on disk, or an optional file that cannot be fetched or written |
| Installer.SettledStepsIdle | packages/cli/src/lib/installer.ts:49-53 | without `--overwrite` a run over settled entries changes nothing |
| Installer.InstallSettles | packages/cli/src/lib/installer.ts:16-78 | after a successful installation every file of the component is settled |
| Installer.SettledInstallIdle | packages/cli/src/lib/installer.ts:16-78 | without `--overwrite`, installing a component whose files are all settled changes no file and reports no file written (or fails only on tracking) |
| Installer.RerunWritesNothing | packages/cli/src/lib/installer.ts:49-53 | without `--overwrite` processing the same files a second time writes nothing |
| Installer.ReinstallRecordsNoFiles | packages/cli/src/lib/installer.ts:16-78 | without `--overwrite` installing a component a second time returns no files, changes no file and records an empty file list |
| Installer.InstallKeepsFiles | packages/cli/src/lib/installer.ts:16-78 | installing never deletes a file, and without `--overwrite` never changes one |
| Installer.InstallComponent | packages/cli/src/lib/installer.ts:16-78 | the new disk state and the result are those of `InstallSpec`: the files in order, then tracking only if no required file failed |
| Installer.InstallSpec | packages/cli/src/lib/installer.ts:16-78 | the file loop, then tracking, with the error of an aborted loop reported before tracking; `InstallComponent` is proved equal to it and `InstallKeepsFiles`, `ReinstallRecordsNoFiles` and `InstallSettles` state its properties |
| Installer.VersionOf | packages/cli/src/lib/installer.ts:132 | the recorded version is the component's when present and non-empty, and `1.0.0` otherwise |
| Installer.Track | packages/cli/src/lib/installer.ts:120-137 | the record for the component is replaced by its name, version, time and files; every other record is kept; an absent or unreadable file starts from no records |
| Installer.TrackInstallation | packages/cli/src/lib/installer.ts:112-141 | the tracking file is rewritten with the `Track` result exactly when it is writable; component files are untouched |
| Installer.GetInstalledComponents | packages/cli/src/lib/installer.ts:146-159 | the stored records are returned, or none when the file is absent or unreadable |
| Installer.IsComponentInstalled | packages/cli/src/lib/installer.ts:164-167 | a component is installed exactly when the tracking file reads back and records it |
| Installer.InstallUtils | packages/cli/src/lib/installer.ts:83-107 | the disk state and the result are those of `InstallUtilsSpec` |
| Installer.InstallUtilsSpec | packages/cli/src/lib/installer.ts:83-107 | `utils.ts` under the lib path is left alone when present, written with the helper's text when absent and writable, and otherwise reported as a write failure; `InstallUtilsOnce` states its properties |
| Installer.InstallUtilsOnce | packages/cli/src/lib/installer.ts:83-107 | `utils.ts` is created exactly when it was absent and writable; no existing file and not the tracking file change; a second call returns `false` and changes nothing |
| Collections.OrderedSet.Add | packages/cli/src/lib/registry.ts:141 | adding to the set appends an absent element and ignores a present one |
| Collections.InsertAll | packages/cli/src/commands/add.ts:88 | adding a list to a set keeps the old order in front, adds exactly the listed elements, and creates no duplicate |
| AddCommand.Requested | packages/cli/src/commands/add.ts:40-71 | `--all` on a non-empty manifest requests every component in manifest order; explicit names are used as given |
| AddCommand.AllInstallsEverything | packages/cli/src/commands/add.ts:41-91 | with `--all`, no name is unknown and the install set is the whole manifest |
| AddCommand.UnknownNames | packages/cli/src/commands/add.ts:75 | the invalid names are exactly the requested names that are not in the manifest |
| AddCommand.NoneUnknown | packages/cli/src/commands/add.ts:75-76 | nothing is invalid exactly when every requested name is available |
| AddCommand.UnknownAborts | packages/cli/src/commands/add.ts:74-82 | a request naming an unknown component reports it and changes nothing on disk |
| AddCommand.ResolveRequested | packages/cli/src/commands/add.ts:84-91 | the loop computes the union of each name's closure, in insertion order |
| AddCommand.ClosureUnionMembers | packages/cli/src/commands/add.ts:84-91 | the install set holds exactly the members of the requested names' closures |
| AddCommand.ClosureUnionReachable | packages/cli/src/commands/add.ts:84-91 | the install set holds exactly the components reachable from some requested name |
| AddCommand.RequestedInstalled | packages/cli/src/commands/add.ts:84-91 | every requested manifest name is in the install set |
| AddCommand.ConfirmOnlyWhenGrowing | packages/cli/src/commands/add.ts:93-110 | the confirmation answer matters only without `--yes` and when dependencies enlarge the set; declining then cancels with nothing written |
| AddCommand.InstallAll | packages/cli/src/commands/add.ts:120-145 | the count rises by at most one per name |
| AddCommand.InstallNext | packages/cli/src/commands/add.ts:121-144 | an unknown name changes nothing; a known one leaves the disk its installation leaves, and the count rises by one exactly when that installation succeeds with at least one file written |
| AddCommand.ComponentSettledMonotone | packages/cli/src/commands/add.ts:120-145 | a settled component stays settled when files are added |
| AddCommand.InstallNextSettles | packages/cli/src/commands/add.ts:121-144 | a component whose installation succeeded is settled afterwards |
| AddCommand.SettledStaysSettled | packages/cli/src/commands/add.ts:120-145 | a settled component stays settled through the rest of the batch |
| AddCommand.InstallAllIdle | packages/cli/src/commands/add.ts:120-145 | without `--overwrite`, a batch over settled components changes no file and counts nothing |
| AddCommand.InstallEach | packages/cli/src/commands/add.ts:120-145 | installing each name in order leaves the disk and count given by `InstallAll`; unknown names and failing components are skipped |
| AddCommand.InstallAllKeepsFiles | packages/cli/src/commands/add.ts:120-145 | the batch never deletes a file, and without `--overwrite` never changes one |
| AddCommand.InstallAllAppend | packages/cli/src/commands/add.ts:121 | installing `a + b` is installing `a`, then `b` from where `a` left off |
| AddCommand.Add | packages/cli/src/commands/add.ts:38-148 | the action's disk effect and outcome are those of `AddSpec` |
| AddCommand.AddSpec | packages/cli/src/commands/add.ts:38-148 | the whole `add` action on values; `Add` is proved equal to it and `AddDone` and `AddRerunInstallsNothing` state its properties |
| AddCommand.AddDone | packages/cli/src/commands/add.ts:112-148 | after a completed run: `utils.ts` exists; no file is deleted, and without `--overwrite` none but `utils.ts` changes; the install set is duplicate-free and exactly what is reachable from the request; the count is at most its size; the package lists are those of the install set |
| AddCommand.AddRerunInstallsNothing | packages/cli/src/commands/add.ts:112-148 | re-running `add` without `--overwrite` over components already settled, as a successful install leaves them, reports `installedCount == 0` and changes no file beyond `utils.ts` |
| InitCommand.ShallowMerge | packages/cli/src/commands/init.ts:87 | each top-level field present among the answers replaces the default's whole value |
| InitCommand.FinalConfig | packages/cli/src/commands/init.ts:87 | the defaults with `--yes`, otherwise the answers merged over them; the result can be serialised; `YesWritesDefaults` and `InteractiveMerge` state its contents |
| InitCommand.YesWritesDefaults | packages/cli/src/commands/init.ts:42-87 | under `--yes` the configuration written is `defaultConfig` |
| InitCommand.InteractiveMerge | packages/cli/src/commands/init.ts:71-87 | the interactive configuration has the answered path and strategy, no `cssPath`, the default aliases, and `storybook` holding only `enabled` and `autoGenerate`, both the answer |
| InitCommand.ConfigFileTail | packages/cli/src/commands/init.ts:157-162 | the Storybook block prints `enabled`, `path` and `autoGenerate` from the configuration |
| InitCommand.InteractiveStorybookLines | packages/cli/src/commands/init.ts:76-79 | an interactive `init` writes `path: 'undefined'` and both Storybook switches as answered |
| InitCommand.CssPathLine | packages/cli/src/commands/init.ts:143-148 | the strategy line is always printed; a `cssPath` line, with `src/styles/components` when unset or empty, appears exactly under `tailwind+css` |
| InitCommand.GenerateConfigFile | packages/cli/src/commands/init.ts:135-165 | the text of `pushui.config.ts`; `ConfigFileTail`, `CssPathLine` and `InteractiveStorybookLines` state its lines |
| InitCommand.NeedsPackageJson | packages/cli/src/commands/init.ts:21-25 | without `package.json` nothing is written |
| InitCommand.Init | packages/cli/src/commands/init.ts:14-130 | the action's disk effect and outcome are those of `InitSpec` |
| InitCommand.InitSpec | packages/cli/src/commands/init.ts:14-130 | the `init` action on values; `Init` is proved equal to it and `NeedsPackageJson` and `InitCompleted` state its properties |
| InitCommand.InitCompleted | packages/cli/src/commands/init.ts:85-107 | after success `pushui.config.ts` holds the generated text and is the file the lookup finds; `src/lib/utils.ts` exists, an existing one is kept and a new one holds the generated helper; no other file and not the tracking file change |
| InitCommand.UtilsNotConfig | packages/cli/src/commands/init.ts:90-100 | the helper path `src/lib/utils.ts` and the configuration path `pushui.config.ts` under the same directory are never the same path |
| InitCommand.InitUtilsWhereInstallerLooks | packages/cli/src/commands/init.ts:100-101 | with the default lib alias, `init` creates `utils.ts` where `installUtils` looks for it |

## Left out

- Terminal output, spinners, colours and logging are left out: they do not change state.
- The interactive prompts are inputs. These are the multiselect, the confirmations and
  the three `init` questions.
- An aborted prompt is not modelled. It would merge `undefined` answers through the
  spread.
- `process.exit` is an outcome value.
- JSON parsing, zod validation and the dynamic `import()` of the config file are partial
  functions given as parameters.
- The JSON round trip of the cache file and of the tracking file is assumed lossless: the
  cache stores the registry value itself and the tracking file stores the tracking record,
  rather than their serialised text.
- A tracking file that parses but lacks `components` is not modelled.
- Object-prototype keys such as `__proto__` in manifests are not distinguished.
- The clock is a parameter:
  - the tracking timestamp is a given string;
  - the cache's age is given already computed.
- The home directory is not modelled: the cache file is a `CacheFile` value (its age and
  content) passed in and returned, rather than a path on the disk.
- `fs.ensureDir` is not modelled. It is assumed to succeed, and directories are not
  modelled.
- A failed cache write is ignored, as in the code.
- Concurrency is not modelled. The commands run one at a time.
- Node's `path.join` normalisation (`..`, duplicate slashes) and `path.resolve` on
  non-POSIX paths are not modelled:
  - a join is concatenation with `/`;
  - a path is absolute when it starts with `/`.
- Installer.ExtnameSpec: `path.extname` is modelled for POSIX base names only. Node's other
  edge cases (for example `..`) are not.
- JsStrings.ToLowerCase: only ASCII letters change case. The full Unicode case mapping
  of JavaScript is left out.
- Replacement strings are inserted literally. The `$` patterns of
  `String.prototype.replace` are not interpreted.
- Installer.StepsFrame: stated for a loop that starts with an empty written list. That is
  how `installComponent` starts it.
- Installer.NoClobber: stated for a loop that starts with an empty written list, as above.
- Installer.RerunWritesNothing: the second run uses the same network, writable predicate
  and clock as the first. An optional file whose first fetch failed only transiently is
  therefore not covered.
- Installer.ReinstallRecordsNoFiles: stated, like `RerunWritesNothing`, for a second
  installation with the same network, writable predicate and clock.
- Installer.IsComponentInstalled: the tracking record is a map, so keys inherited from the
  object prototype (`toString`, `constructor`) do not count as installed, and assigning
  `__proto__` is an ordinary insertion. `Installer.Track` and `Installer.TrackInstallation`
  model the assignment at `installer.ts:137` the same way.
- AddCommand.AddRerunInstallsNothing: stated for components whose files are all settled,
  as a successful installation leaves them. A component whose earlier installation
  aborted on a required file is not covered.
- AddCommand.AddDone: the no-change guarantee is not stated for the `utils.ts` path itself.
- InitCommand.InitCompleted: the kept-file guarantee leaves out the config and utils
  paths, which have clauses of their own.
- In `add`, a failing `installUtils` throws to the outer handler. The model reports it as
  a `UtilsFailed` outcome, with nothing installed after it.
- `commands/list.ts`, `lib/logger.ts` and `index.ts` are not part of this model.
- PascalCase and kebab-case are not proved on literal examples. General lemmas cover
  them: `PascalOfJoined` and `KebabPascalRoundTrip`.
- Storybook story generation (`autoGenerate`) is only stored in the configuration. The
  code performs nothing with it in this core.
