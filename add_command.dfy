/**
 * The batch pipeline of `pushui add` once the manifest is at hand: pick the requested
 * names, reject unknown ones, take the union of their dependency closures, confirm,
 * install the `utils.ts` helper, install every component of the set one after the other
 * (a failing one does not stop the others), and gather the npm packages to suggest.
 *
 * The interactive multi-select and the confirmation prompt are inputs: `selection` is
 * what the multi-select returns and `confirm` what the confirmation returns.
 */
module AddCommand {

  import opened Wrappers
  import opened Collections
  import opened RegistryTypes
  import opened ConfigTypes
  import opened RegistryClient
  import opened Workspace
  import opened Installer

  datatype AddOutcome =
    | NothingSelected
    | UnknownComponents(invalid: seq<string>)
    | Cancelled
    | UtilsFailed(error: InstallError)
    | Done(toInstall: seq<string>, installedCount: nat, dependencies: seq<string>, devDependencies: seq<string>)

  /** The request list: every manifest name under `--all`, the selection when the list is empty. */
  function Requested(registry: Registry, components: seq<string>, all: bool, selection: seq<string>): (names: seq<string>)
    ensures all && registry.keyOrder != [] ==> names == registry.keyOrder
    ensures !all && components != [] ==> names == components
  {
    var names := if all then GetAvailableComponents(registry) else components;
    if names == [] then selection else names
  }

  /** `components.filter((c) => !available.includes(c))` */
  function UnknownNames(names: seq<string>, available: seq<string>): (r: seq<string>)
    ensures forall x :: x in r <==> x in names && x !in available
    ensures |r| <= |names|
    decreases |names|
  {
    if names == [] then []
    else
      var init := names[..|names| - 1];
      var n := names[|names| - 1];
      assert names == init + [n];
      var rest := UnknownNames(init, available);
      if n in available then rest else rest + [n]
  }

  /** The install set: the union, in first-seen order, of each requested name's closure from a fresh set. */
  function ClosureUnion(registry: RegistryData, names: seq<string>): (r: seq<string>)
    ensures NoDup(r)
    decreases |names|
  {
    if names == [] then []
    else InsertAll(ClosureUnion(registry, names[..|names| - 1]), Resolve(registry, names[|names| - 1], []))
  }

  /**
   * The install loop from a project state and a count so far: each known name installed
   * in turn, counting those that wrote something.
   */
  function InstallAll(registry: RegistryData, names: seq<string>, config: Config, options: InstallOptions, env: Env,
                      acc: (DiskState, nat)): (r: (DiskState, nat))
    ensures r.1 <= acc.1 + |names|
    decreases |names|
  {
    if names == [] then acc
    else InstallNext(registry, names[|names| - 1], config, options, env,
                     InstallAll(registry, names[..|names| - 1], config, options, env, acc))
  }

  /** One turn of the install loop: an unknown name is skipped, a known one installed and counted if it wrote something. */
  function InstallNext(registry: RegistryData, name: string, config: Config, options: InstallOptions, env: Env,
                       acc: (DiskState, nat)): (r: (DiskState, nat))
    ensures r.1 <= acc.1 + 1
    ensures name !in registry.components ==> r == acc
    ensures name in registry.components ==>
      var res := InstallSpec(Job(name, config, options, env), registry.components[name], acc.0);
      r.0 == res.after && (r.1 == acc.1 + 1 <==> res.outcome.Ok? && res.outcome.value != [])
  {
    if name !in registry.components then acc
    else
      var res := InstallSpec(Job(name, config, options, env), registry.components[name], acc.0);
      (res.after, if res.outcome.Ok? && |res.outcome.value| > 0 then acc.1 + 1 else acc.1)
  }

  /** The effect and the outcome of the pipeline on a project. */
  function AddSpec(registry: Registry, components: seq<string>, all: bool, yes: bool, overwrite: bool,
                   selection: seq<string>, confirm: bool, config: Config, env: Env, before: DiskState)
    : (DiskState, AddOutcome)
  {
    var names := Requested(registry, components, all, selection);
    if names == [] then (before, NothingSelected)
    else
      var invalid := UnknownNames(names, GetAvailableComponents(registry));
      if invalid != [] then (before, UnknownComponents(invalid))
      else
        var toInstall := ClosureUnion(registry, names);
        if !yes && |toInstall| > |names| && !confirm then (before, Cancelled)
        else
          var (afterUtils, utils) := InstallUtilsSpec(config, env, before);
          if utils.Err? then (afterUtils, UtilsFailed(utils.error))
          else
            var (after, count) := InstallAll(registry, toInstall, config, InstallOptions(overwrite, config.registry), env, (afterUtils, 0));
            (after, Done(toInstall, count, CollectPackages(registry, toInstall, false), CollectPackages(registry, toInstall, true)))
  }

  /** The `add` action of `commands/add.ts`, from the component selection to the final report. */
  method Add(registry: Registry, components: seq<string>, all: bool, yes: bool, overwrite: bool,
             selection: seq<string>, confirm: bool, config: Config, env: Env, disk: Disk)
    returns (outcome: AddOutcome)
    modifies disk
    ensures (disk.State(), outcome) == AddSpec(registry, components, all, yes, overwrite, selection, confirm, config, env, old(disk.State()))
  {
    var availableComponents := GetAvailableComponents(registry);
    var names := components;
    if all {
      names := availableComponents;
    }
    if |names| == 0 {
      if |selection| == 0 {
        return NothingSelected;
      }
      names := selection;
    }
    var invalidComponents := UnknownNames(names, availableComponents);
    if |invalidComponents| > 0 {
      return UnknownComponents(invalidComponents);
    }

    var componentsToInstall := ResolveRequested(names, registry);

    if !yes && |componentsToInstall| > |names| {
      if !confirm {
        return Cancelled;
      }
    }

    var utils := InstallUtils(config, env, disk);
    if utils.Err? {
      return UtilsFailed(utils.error);
    }

    var installedCount := InstallEach(componentsToInstall, registry, config, InstallOptions(overwrite, config.registry), env, disk);
    var dependencies, devDependencies := GetNpmDependencies(componentsToInstall, registry);
    outcome := Done(componentsToInstall, installedCount, dependencies, devDependencies);
  }

  /** The resolution step of `add`: every requested name resolved with a fresh set, the results added to one set. */
  method ResolveRequested(names: seq<string>, registry: Registry) returns (toInstall: seq<string>)
    ensures toInstall == ClosureUnion(registry, names)
  {
    var allComponents := new OrderedSet<string>();
    for i := 0 to |names|
      invariant allComponents.Valid()
      invariant allComponents.items == ClosureUnion(registry, names[..i])
    {
      assert names[..i + 1][..i] == names[..i];
      var resolved := new OrderedSet<string>();
      var deps := ResolveComponentDependencies(names[i], registry, resolved);
      allComponents.AddAll(deps);
    }
    assert names[..|names|] == names;
    toInstall := allComponents.items;
  }

  /** The install loop of `add`: the components installed in order; a failure is reported and the loop goes on. */
  method InstallEach(toInstall: seq<string>, registry: RegistryData, config: Config, options: InstallOptions, env: Env,
                     disk: Disk)
    returns (installedCount: nat)
    modifies disk
    ensures (disk.State(), installedCount) == InstallAll(registry, toInstall, config, options, env, (old(disk.State()), 0))
  {
    installedCount := 0;
    for i := 0 to |toInstall|
      invariant (disk.State(), installedCount) == InstallAll(registry, toInstall[..i], config, options, env, (old(disk.State()), 0))
    {
      InstallAllNext(registry, toInstall, i, config, options, env, (old(disk.State()), 0));
      var name := toInstall[i];
      var component := GetComponent(registry, name);
      if component.None? {
        continue;
      }
      var files := InstallComponent(name, component.value, config, options, env, disk);
      if files.Ok? && |files.value| > 0 {
        installedCount := installedCount + 1;
      }
    }
    assert toInstall[..|toInstall|] == toInstall;
  }

  /** One more name in the install loop. */
  lemma InstallAllNext(registry: RegistryData, names: seq<string>, i: nat, config: Config, options: InstallOptions,
                       env: Env, acc: (DiskState, nat))
    requires i < |names|
    ensures InstallAll(registry, names[..i + 1], config, options, env, acc)
      == InstallNext(registry, names[i], config, options, env, InstallAll(registry, names[..i], config, options, env, acc))
  {
    assert names[..i + 1][..i] == names[..i];
  }

  // ---------------------------------------------------------------------------------
  // Properties

  /** A name reachable from a requested one is a manifest component. */
  lemma ReachableKnown(reg: RegistryData, from: string, to: string)
    requires Reachable(reg, from, to)
    ensures from in reg.components && to in reg.components
  {
    var p :| IsPath(reg, p) && p[0] == from && p[|p| - 1] == to;
    assert p[|p| - 1] in reg.components;
  }

  /**
   * The install set keeps the order in which components are first resolved: what the
   * first `i` names contribute stays, in the same order, at the front.
   */
  lemma {:induction false} ClosureUnionPrefix(reg: RegistryData, names: seq<string>, i: nat)
    requires i <= |names|
    ensures ClosureUnion(reg, names[..i]) <= ClosureUnion(reg, names)
    decreases |names|
  {
    if i < |names| {
      var init := names[..|names| - 1];
      assert names[..i] == init[..i];
      ClosureUnionPrefix(reg, init, i);
      assert ClosureUnion(reg, init) <= ClosureUnion(reg, names);
    } else {
      assert names[..i] == names;
    }
  }

  /** The install set holds exactly the members of the requested names' closures. */
  lemma {:induction false} ClosureUnionMembers(reg: RegistryData, names: seq<string>)
    ensures forall x :: x in ClosureUnion(reg, names) <==> exists k :: 0 <= k < |names| && x in Resolve(reg, names[k], [])
    decreases |names|
  {
    if names != [] {
      var init := names[..|names| - 1];
      assert ClosureUnion(reg, names) == InsertAll(ClosureUnion(reg, init), Resolve(reg, names[|names| - 1], []));
      ClosureUnionMembers(reg, init);
      forall x
        ensures ResolvedFrom(reg, names, x) <==> ResolvedFrom(reg, init, x) || x in Resolve(reg, names[|names| - 1], [])
      {
        InSomeResolveSnoc(reg, names, x);
      }
    }
  }

  /** `x` is in the closure of some entry of `names`. */
  predicate ResolvedFrom(reg: RegistryData, names: seq<string>, x: string) {
    exists k :: 0 <= k < |names| && x in Resolve(reg, names[k], [])
  }

  /** A name resolved from some entry of `names` comes from the first entries or the last one. */
  lemma InSomeResolveSnoc(reg: RegistryData, names: seq<string>, x: string)
    requires names != []
    ensures ResolvedFrom(reg, names, x)
      <==> ResolvedFrom(reg, names[..|names| - 1], x) || x in Resolve(reg, names[|names| - 1], [])
  {
    var init := names[..|names| - 1];
    if k :| 0 <= k < |names| && x in Resolve(reg, names[k], []) {
      if k < |init| {
        assert init[k] == names[k];
      }
    }
    if k :| 0 <= k < |init| && x in Resolve(reg, init[k], []) {
      assert names[k] == init[k];
    }
  }

  /** The install set holds exactly the components reachable from some requested name. */
  lemma ClosureUnionReachable(reg: RegistryData, names: seq<string>)
    ensures forall x :: x in ClosureUnion(reg, names) <==> exists k :: 0 <= k < |names| && Reachable(reg, names[k], x)
  {
    ClosureUnionMembers(reg, names);
    forall k | 0 <= k < |names| {
      ResolveFreshIsReachable(reg, names[k]);
    }
  }

  /** Every requested manifest name is itself in the install set. */
  lemma RequestedInstalled(reg: RegistryData, names: seq<string>, k: nat)
    requires k < |names| && names[k] in reg.components
    ensures names[k] in ClosureUnion(reg, names)
  {
    ReachableSelf(reg, names[k]);
    ClosureUnionReachable(reg, names);
  }

  /** Nothing is unknown exactly when every name is available. */
  lemma NoneUnknown(names: seq<string>, available: seq<string>)
    ensures UnknownNames(names, available) == [] <==> forall x :: x in names ==> x in available
  {
    var r := UnknownNames(names, available);
    if r != [] {
      assert r[0] in r;
    }
  }

  /** With `--all` on a non-empty manifest nothing is unknown and the install set is the whole manifest. */
  lemma AllInstallsEverything(registry: Registry, components: seq<string>, selection: seq<string>)
    requires registry.keyOrder != []
    ensures var names := Requested(registry, components, true, selection);
      UnknownNames(names, GetAvailableComponents(registry)) == []
      && forall n :: n in ClosureUnion(registry, names) <==> n in registry.components
  {
    var names := Requested(registry, components, true, selection);
    NoneUnknown(names, GetAvailableComponents(registry));
    ClosureUnionReachable(registry, names);
    forall n
      ensures n in ClosureUnion(registry, names) <==> n in registry.components
    {
      if n in registry.components {
        var k :| 0 <= k < |names| && names[k] == n;
        RequestedInstalled(registry, names, k);
      }
      if n in ClosureUnion(registry, names) {
        var k :| 0 <= k < |names| && Reachable(registry, names[k], n);
        ReachableKnown(registry, names[k], n);
      }
    }
  }

  /** An unknown requested name stops the command before anything is resolved or written. */
  lemma UnknownAborts(registry: Registry, components: seq<string>, all: bool, yes: bool, overwrite: bool,
                      selection: seq<string>, confirm: bool, config: Config, env: Env, before: DiskState, n: string)
    requires n in Requested(registry, components, all, selection) && n !in registry.components
    ensures var (after, outcome) := AddSpec(registry, components, all, yes, overwrite, selection, confirm, config, env, before);
      after == before && outcome.UnknownComponents? && n in outcome.invalid
  {
  }

  /**
   * The confirmation answer matters only without `--yes` and when dependencies make the
   * install set longer than the request list; declining it then changes nothing.
   */
  lemma ConfirmOnlyWhenGrowing(registry: Registry, components: seq<string>, all: bool, yes: bool, overwrite: bool,
                               selection: seq<string>, config: Config, env: Env, before: DiskState)
    ensures var names := Requested(registry, components, all, selection);
      yes || |ClosureUnion(registry, names)| <= |names| ==>
        AddSpec(registry, components, all, yes, overwrite, selection, true, config, env, before)
          == AddSpec(registry, components, all, yes, overwrite, selection, false, config, env, before)
    ensures var names := Requested(registry, components, all, selection);
      !yes && names != [] && UnknownNames(names, GetAvailableComponents(registry)) == []
        && |ClosureUnion(registry, names)| > |names| ==>
        AddSpec(registry, components, all, yes, overwrite, selection, false, config, env, before) == (before, Cancelled)
  {
  }

  /** The install loop removes no file, and without overwriting changes no existing file. */
  lemma {:induction false} InstallAllKeepsFiles(registry: RegistryData, names: seq<string>, config: Config,
                                                options: InstallOptions, env: Env, acc: (DiskState, nat))
    ensures acc.0.files.Keys <= InstallAll(registry, names, config, options, env, acc).0.files.Keys
    ensures !options.overwrite ==> forall k :: k in acc.0.files ==>
      InstallAll(registry, names, config, options, env, acc).0.files[k] == acc.0.files[k]
    decreases |names|
  {
    if names != [] {
      var init := names[..|names| - 1];
      var name := names[|names| - 1];
      InstallAllKeepsFiles(registry, init, config, options, env, acc);
      if name in registry.components {
        var mid := InstallAll(registry, init, config, options, env, acc).0;
        InstallKeepsFiles(Job(name, config, options, env), registry.components[name], mid);
      }
    }
  }

  /** Every file of a known component is settled in `files`; an unknown name is trivially settled. */
  predicate ComponentSettled(registry: RegistryData, name: string, config: Config, options: InstallOptions, env: Env,
                             files: map<string, string>)
  {
    name in registry.components ==>
      forall k :: 0 <= k < |registry.components[name].files| ==>
        Settled(Job(name, config, options, env), files, registry.components[name].files[k])
  }

  /** More files keep a component settled. */
  lemma ComponentSettledMonotone(registry: RegistryData, name: string, config: Config, options: InstallOptions, env: Env,
                                 a: map<string, string>, b: map<string, string>)
    requires a.Keys <= b.Keys && ComponentSettled(registry, name, config, options, env, a)
    ensures ComponentSettled(registry, name, config, options, env, b)
  {
    if name in registry.components {
      var c := registry.components[name];
      forall k | 0 <= k < |c.files|
        ensures Settled(Job(name, config, options, env), b, c.files[k])
      {
        SettledMonotone(Job(name, config, options, env), a, b, c.files[k]);
      }
    }
  }

  /** A component whose installation succeeded is settled afterwards. */
  lemma InstallNextSettles(registry: RegistryData, name: string, config: Config, options: InstallOptions, env: Env,
                           acc: (DiskState, nat))
    requires name in registry.components
    requires InstallSpec(Job(name, config, options, env), registry.components[name], acc.0).outcome.Ok?
    ensures ComponentSettled(registry, name, config, options, env, InstallNext(registry, name, config, options, env, acc).0.files)
  {
    InstallSettles(Job(name, config, options, env), registry.components[name], acc.0);
  }

  /** A settled component stays settled through the rest of the loop. */
  lemma SettledStaysSettled(registry: RegistryData, names: seq<string>, name: string, config: Config,
                            options: InstallOptions, env: Env, acc: (DiskState, nat))
    requires ComponentSettled(registry, name, config, options, env, acc.0.files)
    ensures ComponentSettled(registry, name, config, options, env, InstallAll(registry, names, config, options, env, acc).0.files)
  {
    InstallAllKeepsFiles(registry, names, config, options, env, acc);
    ComponentSettledMonotone(registry, name, config, options, env, acc.0.files,
                             InstallAll(registry, names, config, options, env, acc).0.files);
  }

  /**
   * Without overwriting, a loop over components that are all settled changes no file and
   * counts nothing: only a component that writes a file is counted.
   */
  lemma {:induction false} InstallAllIdle(registry: RegistryData, names: seq<string>, config: Config,
                                          options: InstallOptions, env: Env, acc: (DiskState, nat))
    requires !options.overwrite
    requires forall k :: 0 <= k < |names| ==> ComponentSettled(registry, names[k], config, options, env, acc.0.files)
    ensures InstallAll(registry, names, config, options, env, acc).1 == acc.1
    ensures InstallAll(registry, names, config, options, env, acc).0.files == acc.0.files
    decreases |names|
  {
    if names != [] {
      var init := names[..|names| - 1];
      var name := names[|names| - 1];
      assert forall k :: 0 <= k < |init| ==> init[k] == names[k];
      InstallAllIdle(registry, init, config, options, env, acc);
      var mid := InstallAll(registry, init, config, options, env, acc);
      if name in registry.components {
        assert ComponentSettled(registry, name, config, options, env, mid.0.files);
        SettledInstallIdle(Job(name, config, options, env), registry.components[name], mid.0);
      }
    }
  }

  /**
   * Re-running `add` without `--overwrite` over components that are already settled in the
   * project, as a successful install leaves them, reports no component installed and
   * changes no file beyond the helper.
   */
  lemma AddRerunInstallsNothing(registry: Registry, components: seq<string>, all: bool, yes: bool,
                                selection: seq<string>, confirm: bool, config: Config, env: Env, before: DiskState)
    requires AddSpec(registry, components, all, yes, false, selection, confirm, config, env, before).1.Done?
    requires forall x :: x in ClosureUnion(registry, Requested(registry, components, all, selection)) ==>
      ComponentSettled(registry, x, config, InstallOptions(false, config.registry), env, before.files)
    ensures AddSpec(registry, components, all, yes, false, selection, confirm, config, env, before).1.installedCount == 0
    ensures AddSpec(registry, components, all, yes, false, selection, confirm, config, env, before).0.files
      == InstallUtilsSpec(config, env, before).0.files
  {
    var toInstall := ClosureUnion(registry, Requested(registry, components, all, selection));
    var afterUtils := InstallUtilsSpec(config, env, before).0;
    var options := InstallOptions(false, config.registry);
    AddSpecDone(registry, components, all, yes, false, selection, confirm, config, env, before);
    InstallUtilsOnce(config, env, before);
    forall k | 0 <= k < |toInstall|
      ensures ComponentSettled(registry, toInstall[k], config, options, env, afterUtils.files)
    {
      ComponentSettledMonotone(registry, toInstall[k], config, options, env, before.files, afterUtils.files);
    }
    InstallAllIdle(registry, toInstall, config, options, env, (afterUtils, 0));
  }

  /**
   * The loop over a list is the loop over its first part followed by the loop over the
   * rest, whatever happened in the first part: a failing component does not stop the others.
   */
  lemma {:induction false} InstallAllAppend(registry: RegistryData, a: seq<string>, b: seq<string>, config: Config,
                                            options: InstallOptions, env: Env, acc: (DiskState, nat))
    ensures InstallAll(registry, a + b, config, options, env, acc)
      == InstallAll(registry, b, config, options, env, InstallAll(registry, a, config, options, env, acc))
    decreases |b|
  {
    if b == [] {
      assert a + b == a;
    } else {
      assert (a + b)[..|a + b| - 1] == a + b[..|b| - 1];
      assert (a + b)[|a + b| - 1] == b[|b| - 1];
      InstallAllAppend(registry, a, b[..|b| - 1], config, options, env, acc);
    }
  }

  /**
   * After a completed run: the helper exists, no file was removed, without `--overwrite`
   * no existing file changed, the install set is the closure of the request, and the
   * package lists cover the whole install set.
   */
  lemma AddDone(registry: Registry, components: seq<string>, all: bool, yes: bool, overwrite: bool,
                selection: seq<string>, confirm: bool, config: Config, env: Env, before: DiskState)
    requires AddSpec(registry, components, all, yes, overwrite, selection, confirm, config, env, before).1.Done?
    ensures var (after, outcome) := AddSpec(registry, components, all, yes, overwrite, selection, confirm, config, env, before);
      var names := Requested(registry, components, all, selection);
      UtilsPath(config, env.cwd) in after.files
      && before.files.Keys <= after.files.Keys
      && (!overwrite ==> forall k :: k in before.files && k != UtilsPath(config, env.cwd) ==> after.files[k] == before.files[k])
      && NoDup(outcome.toInstall)
      && (forall x :: x in outcome.toInstall <==> exists k :: 0 <= k < |names| && Reachable(registry, names[k], x))
      && outcome.installedCount <= |outcome.toInstall|
      && outcome.dependencies == CollectPackages(registry, outcome.toInstall, false)
      && outcome.devDependencies == CollectPackages(registry, outcome.toInstall, true)
  {
    var names := Requested(registry, components, all, selection);
    var toInstall := ClosureUnion(registry, names);
    var afterUtils := InstallUtilsSpec(config, env, before).0;
    var options := InstallOptions(overwrite, config.registry);
    AddSpecDone(registry, components, all, yes, overwrite, selection, confirm, config, env, before);
    ClosureUnionReachable(registry, names);
    InstallUtilsOnce(config, env, before);
    InstallAllKeepsFiles(registry, toInstall, config, options, env, (afterUtils, 0));
  }

  /** A completed run is the install loop over the closure, started after the helper was written. */
  lemma AddSpecDone(registry: Registry, components: seq<string>, all: bool, yes: bool, overwrite: bool,
                    selection: seq<string>, confirm: bool, config: Config, env: Env, before: DiskState)
    requires AddSpec(registry, components, all, yes, overwrite, selection, confirm, config, env, before).1.Done?
    ensures var toInstall := ClosureUnion(registry, Requested(registry, components, all, selection));
      var afterUtils := InstallUtilsSpec(config, env, before).0;
      var run := InstallAll(registry, toInstall, config, InstallOptions(overwrite, config.registry), env, (afterUtils, 0));
      InstallUtilsSpec(config, env, before).1.Ok?
      && AddSpec(registry, components, all, yes, overwrite, selection, confirm, config, env, before)
        == (run.0, Done(toInstall, run.1, CollectPackages(registry, toInstall, false), CollectPackages(registry, toInstall, true)))
  {
  }
}
