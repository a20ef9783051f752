/**
 * Installing one component into the project: each declared file is normalised, skipped
 * when the configuration does not want it or when its target already exists (unless
 * overwriting), otherwise fetched, transformed and written; a required file that fails
 * ends the installation, an optional one is passed over. A completed installation is
 * recorded in the tracking file, replacing any earlier record for the component.
 * Also: the create-if-absent step for the `utils.ts` helper, and the tracking lookups.
 *
 * `Env` carries what the installer takes from outside: the working directory, the
 * network, which paths can be written, and the current time as an ISO string.
 */
module Installer {

  import opened Wrappers
  import opened Collections
  import opened JsStrings
  import opened RegistryTypes
  import opened ConfigTypes
  import opened Transformer
  import opened ConfigFiles
  import opened RegistryClient
  import opened Workspace

  /** The tracking file, relative to the working directory. */
  const InstalledFile: string := ".pushui/installed.json"

  /** Version recorded for a component whose manifest entry has none. */
  const DefaultVersion: string := "1.0.0"

  datatype Env = Env(cwd: string, network: string -> Option<Response>, writable: string -> bool, now: string)

  datatype InstallOptions = InstallOptions(overwrite: bool, registryUrl: Option<string>)

  datatype InstallError = FetchFailed(file: string, reason: FetchError) | WriteFailed(path: string) | TrackingFailed

  function TrackerPath(cwd: string): string {
    PathJoin(cwd, InstalledFile)
  }

  // ---------------------------------------------------------------------------------
  // One file

  /** A file entry with its three attributes made explicit. */
  datatype FileSpec = FileSpec(path: string, fileType: FileType, optional: bool)

  /**
   * A bare name is a required component file; a descriptor keeps its path and type and is
   * optional only when its flag is present and true.
   */
  function Normalize(entry: FileEntry): (f: FileSpec)
    ensures entry.Bare? ==> f == FileSpec(entry.name, ComponentFile, false)
    ensures entry.Descriptor? ==> f.path == entry.path && f.fileType == entry.fileType
    ensures entry.Descriptor? ==> (f.optional <==> entry.optional == Some(true))
  {
    match entry
    case Bare(name) => FileSpec(name, ComponentFile, false)
    case Descriptor(path, fileType, optional) => FileSpec(path, fileType, optional == Some(true))
  }

  /** Style files are not wanted under `tailwind-only`, story files not without Storybook. */
  predicate Skipped(f: FileSpec, config: Config) {
    (f.fileType == StyleFile && config.style.strategy == TailwindOnly)
    || (f.fileType == StoryFile && !config.storybook.enabled)
  }

  /** The last index of `c` in `s`. */
  function LastIndexOf(s: string, c: char): (r: Option<nat>)
    ensures r.Some? ==> r.value < |s| && s[r.value] == c && c !in s[r.value + 1..]
    ensures r.None? <==> c !in s
  {
    if s == [] then None
    else if s[|s| - 1] == c then Some(|s| - 1)
    else
      var r := LastIndexOf(s[..|s| - 1], c);
      assert s == s[..|s| - 1] + [s[|s| - 1]];
      assert r.Some? ==> s[r.value + 1..] == s[..|s| - 1][r.value + 1..] + [s[|s| - 1]];
      r
  }

  /** The last segment of a `/`-separated path. */
  function Basename(p: string): string {
    match LastIndexOf(p, '/')
    case None => p
    case Some(i) => p[i + 1..]
  }

  /**
   * The last segment holds no `/`; a path without one is its own last segment, and a
   * path with one ends in its last segment, just after its last `/`.
   */
  lemma BasenameSpec(p: string)
    ensures '/' !in Basename(p)
    ensures '/' !in p ==> Basename(p) == p
    ensures '/' in p ==> exists i :: 0 <= i < |p| && p[i] == '/' && '/' !in p[i + 1..] && Basename(p) == p[i + 1..]
    ensures Basename(p) == p[|p| - |Basename(p)|..]
  {
    match LastIndexOf(p, '/')
    case None =>
    case Some(i) =>
      assert p[i] == '/' && Basename(p) == p[i + 1..];
  }

  /**
   * `path.extname`: from the last `.` of the last segment to its end, or empty when the
   * segment has no `.` or only a leading one.
   */
  function Extname(p: string): string {
    var b := Basename(p);
    match LastIndexOf(b, '.')
    case None => ""
    case Some(i) => if i == 0 then "" else b[i..]
  }

  /**
   * A non-empty extension starts with its only `.`, holds no `/`, and is a proper suffix
   * of the last segment; it is empty exactly when that segment has no `.` after its first
   * character.
   */
  lemma ExtnameSpec(p: string)
    ensures var e := Extname(p);
      e != [] ==> e[0] == '.' && '.' !in e[1..] && '/' !in e
    ensures var e := Extname(p); var b := Basename(p);
      e != [] ==> |e| < |b| && e == b[|b| - |e|..]
    ensures var b := Basename(p);
      Extname(p) == [] <==> '.' !in b || LastIndexOf(b, '.') == Some(0)
  {
    BasenameSpec(p);
    var b := Basename(p);
    match LastIndexOf(b, '.')
    case None =>
    case Some(i) =>
      if i != 0 {
        assert b[i..][1..] == b[i + 1..];
      }
  }

  /** The extension is the end of the path itself. */
  lemma ExtnameEndsPath(p: string)
    ensures Extname(p) == p[|p| - |Extname(p)|..]
  {
    var b := Basename(p);
    var e := Extname(p);
    BasenameSpec(p);
    ExtnameSpec(p);
    if e != [] {
      SuffixOfSuffix(p, b, e);
    }
  }

  lemma SuffixOfSuffix(p: string, b: string, e: string)
    requires |b| <= |p| && b == p[|p| - |b|..]
    requires |e| <= |b| && e == b[|b| - |e|..]
    ensures e == p[|p| - |e|..]
  {
    forall k | 0 <= k < |e|
      ensures e[k] == p[|p| - |e| + k]
    {
      assert e[k] == b[|b| - |e| + k];
    }
  }

  /**
   * The name a file is written under: the remote name when it starts with the component
   * name, otherwise the component name in kebab-case with the remote name's extension.
   */
  function TargetFileName(componentName: string, fileName: string): string {
    if StartsWith(fileName, componentName) then fileName
    else ToKebabCase(componentName) + Extname(fileName)
  }

  /**
   * The comparison is case-sensitive and by prefix; a renamed file is the kebab-case
   * component name, which has no space, underscore or upper-case letter, followed by the
   * extension.
   */
  lemma TargetFileNameSpec(componentName: string, fileName: string)
    ensures StartsWith(fileName, componentName) ==> TargetFileName(componentName, fileName) == fileName
    ensures !StartsWith(fileName, componentName) ==>
      var t := TargetFileName(componentName, fileName);
      t == ToKebabCase(componentName) + Extname(fileName) && IsKebabClean(t[..|t| - |Extname(fileName)|])
  {
    if !StartsWith(fileName, componentName) {
      var t := TargetFileName(componentName, fileName);
      assert t[..|t| - |Extname(fileName)|] == ToKebabCase(componentName);
      KebabIsClean(componentName);
    }
  }

  /** What one installation works with: the component's name, the configuration, the options and the outside world. */
  datatype Job = Job(componentName: string, config: Config, options: InstallOptions, env: Env)

  function ComponentDir(job: Job): string {
    GetComponentPath(job.config, job.env.cwd)
  }

  function TargetPath(job: Job, f: FileSpec): string {
    PathJoin(ComponentDir(job), TargetFileName(job.componentName, f.path))
  }

  /** The files of the project, the target paths written so far in order, and the error that ended the loop, if any. */
  datatype Progress = Progress(files: map<string, string>, written: seq<string>, error: Option<InstallError>)

  /** One iteration of the per-file loop; once an error has ended the loop, nothing more happens. */
  function Step(job: Job, p: Progress, entry: FileEntry): Progress {
    if p.error.Some? then p
    else
      var f := Normalize(entry);
      if Skipped(f, job.config) then p
      else
        var target := TargetPath(job, f);
        if target in p.files && !job.options.overwrite then p
        else
          match FetchComponentFile(job.componentName, f.path, job.options.registryUrl, job.env.network)
          case Err(e) => if f.optional then p else p.(error := Some(FetchFailed(f.path, e)))
          case Ok(content) =>
            if !job.env.writable(target) then
              if f.optional then p else p.(error := Some(WriteFailed(target)))
            else
              Progress(p.files[target := TransformComponent(content, job.config)], p.written + [target], None)
  }

  /** The per-file loop over `entries`, in declaration order. */
  function Steps(job: Job, p: Progress, entries: seq<FileEntry>): Progress
    decreases |entries|
  {
    if entries == [] then p else Step(job, Steps(job, p, entries[..|entries| - 1]), entries[|entries| - 1])
  }

  lemma {:induction false} StepsAborted(job: Job, p: Progress, entries: seq<FileEntry>)
    requires p.error.Some?
    ensures Steps(job, p, entries) == p
    decreases |entries|
  {
    if entries != [] {
      StepsAborted(job, p, entries[..|entries| - 1]);
    }
  }

  lemma {:induction false} StepsAppend(job: Job, p: Progress, a: seq<FileEntry>, b: seq<FileEntry>)
    ensures Steps(job, p, a + b) == Steps(job, Steps(job, p, a), b)
    decreases |b|
  {
    if b == [] {
      assert a + b == a;
    } else {
      assert (a + b)[..|a + b| - 1] == a + b[..|b| - 1];
      StepsAppend(job, p, a, b[..|b| - 1]);
    }
  }

  // ---------------------------------------------------------------------------------
  // Tracking

  /** `getInstalledComponents`: a missing or unreadable tracking file reads as empty. */
  function LoadInstalled(t: TrackerFile): InstalledRegistry {
    match t
    case Stored(installed) => installed
    case _ => EmptyInstalled
  }

  /** `component.version || '1.0.0'` */
  function VersionOf(component: Component): (v: string)
    ensures component.version.Some? && component.version.value != "" ==> v == component.version.value
    ensures component.version.None? || component.version.value == "" ==> v == DefaultVersion
  {
    if component.version.Some? && component.version.value != "" then component.version.value else DefaultVersion
  }

  /**
   * The record `trackInstallation` stores: the component's entry is replaced, whatever it
   * was, and every other entry is kept as it was.
   */
  function Track(t: TrackerFile, name: string, component: Component, files: seq<string>, now: string)
    : (r: InstalledRegistry)
    ensures name in r.components
    ensures r.components[name] == InstalledComponent(name, VersionOf(component), now, files)
    ensures forall k :: k != name ==> (k in r.components <==> k in LoadInstalled(t).components)
    ensures forall k :: k != name && k in r.components ==> r.components[k] == LoadInstalled(t).components[k]
  {
    var installed := LoadInstalled(t);
    InstalledRegistry(installed.components[name := InstalledComponent(name, VersionOf(component), now, files)])
  }

  /** `trackInstallation` */
  method TrackInstallation(componentName: string, component: Component, files: seq<string>, env: Env, disk: Disk)
    returns (ok: bool)
    modifies disk
    ensures ok <==> env.writable(TrackerPath(env.cwd))
    ensures disk.files == old(disk.files)
    ensures ok ==> disk.tracker == Stored(Track(old(disk.tracker), componentName, component, files, env.now))
    ensures !ok ==> disk.tracker == old(disk.tracker)
  {
    var stored := disk.ReadTracker();
    var installed := LoadInstalled(stored);
    var record := InstalledComponent(componentName, VersionOf(component), env.now, files);
    installed := InstalledRegistry(installed.components[componentName := record]);
    if !env.writable(TrackerPath(env.cwd)) {
      return false;
    }
    disk.WriteTracker(installed);
    ok := true;
  }

  /** `getInstalledComponents` */
  method GetInstalledComponents(disk: Disk) returns (r: InstalledRegistry)
    ensures disk.tracker.Stored? ==> r == disk.tracker.installed
    ensures !disk.tracker.Stored? ==> r == EmptyInstalled
  {
    var stored := disk.ReadTracker();
    r := LoadInstalled(stored);
  }

  /** `isComponentInstalled` */
  method IsComponentInstalled(componentName: string, disk: Disk) returns (b: bool)
    ensures b <==> disk.tracker.Stored? && componentName in disk.tracker.installed.components
  {
    var installed := GetInstalledComponents(disk);
    b := componentName in installed.components;
  }

  // ---------------------------------------------------------------------------------
  // One component

  datatype InstallResult = InstallResult(after: DiskState, outcome: Result<seq<string>, InstallError>)

  /**
   * What `installComponent` does to the project and returns: the per-file loop, then, if
   * no required file failed, the tracking record listing the files written.
   */
  function InstallSpec(job: Job, component: Component, before: DiskState): InstallResult {
    var run := Steps(job, Progress(before.files, [], None), component.files);
    if run.error.Some? then InstallResult(DiskState(run.files, before.tracker), Err(run.error.value))
    else if !job.env.writable(TrackerPath(job.env.cwd)) then
      InstallResult(DiskState(run.files, before.tracker), Err(TrackingFailed))
    else
      InstallResult(DiskState(run.files, Stored(Track(before.tracker, job.componentName, component, run.written, job.env.now))),
                    Ok(run.written))
  }

  /** `installComponent` */
  method InstallComponent(componentName: string, component: Component, config: Config, options: InstallOptions,
                          env: Env, disk: Disk)
    returns (r: Result<seq<string>, InstallError>)
    modifies disk
    ensures disk.State() == InstallSpec(Job(componentName, config, options, env), component, old(disk.State())).after
    ensures r == InstallSpec(Job(componentName, config, options, env), component, old(disk.State())).outcome
  {
    var job := Job(componentName, config, options, env);
    ghost var start := Progress(disk.files, [], None);
    var installedFiles: seq<string> := [];
    var entries := component.files;
    for i := 0 to |entries|
      invariant Steps(job, start, entries[..i]) == Progress(disk.files, installedFiles, None)
      invariant disk.tracker == old(disk.tracker)
    {
      assert entries[..i + 1][..i] == entries[..i];
      var failure;
      installedFiles, failure := InstallFile(job, entries[i], installedFiles, disk);
      if failure.Some? {
        Abandon(job, start, entries, i + 1);
        return Err(failure.value);
      }
    }
    assert entries[..|entries|] == entries;
    var tracked := TrackInstallation(componentName, component, installedFiles, env, disk);
    if !tracked {
      return Err(TrackingFailed);
    }
    r := Ok(installedFiles);
  }

  /**
   * The body of the per-file loop: skip, or fetch, transform and write; the failure of a
   * required file is returned for the caller to rethrow.
   */
  method InstallFile(job: Job, entry: FileEntry, installedFiles: seq<string>, disk: Disk)
    returns (written: seq<string>, failure: Option<InstallError>)
    modifies disk
    ensures Progress(disk.files, written, failure) == Step(job, Progress(old(disk.files), installedFiles, None), entry)
    ensures disk.tracker == old(disk.tracker)
  {
    var config := job.config;
    written, failure := installedFiles, None;
    var f := Normalize(entry);
    if f.fileType == StyleFile && config.style.strategy == TailwindOnly {
      return;
    }
    if f.fileType == StoryFile && !config.storybook.enabled {
      return;
    }
    var targetFileName := TargetFileName(job.componentName, f.path);
    var targetPath := PathJoin(GetComponentPath(config, job.env.cwd), targetFileName);
    var present := disk.PathExists(targetPath);
    if present && !job.options.overwrite {
      return;
    }
    var content := FetchComponentFile(job.componentName, f.path, job.options.registryUrl, job.env.network);
    if content.Err? {
      if !f.optional {
        failure := Some(FetchFailed(f.path, content.error));
      }
      return;
    }
    var transformed := TransformComponent(content.value, config);
    if !job.env.writable(targetPath) {
      if !f.optional {
        failure := Some(WriteFailed(targetPath));
      }
      return;
    }
    disk.WriteFile(targetPath, transformed);
    written := installedFiles + [targetPath];
  }

  /** Once a required file has failed, the remaining entries change nothing. */
  lemma Abandon(job: Job, start: Progress, entries: seq<FileEntry>, i: nat)
    requires i <= |entries| && Steps(job, start, entries[..i]).error.Some?
    ensures Steps(job, start, entries) == Steps(job, start, entries[..i])
  {
    assert entries == entries[..i] + entries[i..];
    StepsAppend(job, start, entries[..i], entries[i..]);
    StepsAborted(job, Steps(job, start, entries[..i]), entries[i..]);
  }

  // ---------------------------------------------------------------------------------
  // Properties of the per-file loop

  /**
   * One step either leaves the files and the written list alone, or writes one target it
   * may write (absent, or overwriting allowed) and appends it to the list.
   */
  lemma StepShape(job: Job, p: Progress, entry: FileEntry)
    ensures p.error.Some? ==> Step(job, p, entry) == p
    ensures Step(job, p, entry).error.None? ==> p.error.None?
    ensures var q := Step(job, p, entry); var t := TargetPath(job, Normalize(entry));
      (q.files == p.files && q.written == p.written)
      || (q.error.None? && q.written == p.written + [t] && (t !in p.files || job.options.overwrite)
          && q.files == p.files[t := q.files[t]])
  {
    if p.error.None? {
      var f := Normalize(entry);
      var t := TargetPath(job, f);
      if !Skipped(f, job.config) && !(t in p.files && !job.options.overwrite) {
        var fetched := FetchComponentFile(job.componentName, f.path, job.options.registryUrl, job.env.network);
        if fetched.Ok? && job.env.writable(t) {
          var content := TransformComponent(fetched.value, job.config);
          assert Step(job, p, entry) == Progress(p.files[t := content], p.written + [t], None);
        }
      }
    }
  }

  /** Files the configuration does not want are passed over: no request, no write. */
  lemma SkippedFileUntouched(job: Job, p: Progress, entry: FileEntry)
    requires Skipped(Normalize(entry), job.config)
    ensures Step(job, p, entry) == p
  {
  }

  /** A failing optional file is passed over; a failing required file ends the loop. */
  lemma FailureHandling(job: Job, p: Progress, entry: FileEntry)
    requires p.error.None? && !Skipped(Normalize(entry), job.config)
    requires var f := Normalize(entry);
      !(TargetPath(job, f) in p.files && !job.options.overwrite)
      && (FetchComponentFile(job.componentName, f.path, job.options.registryUrl, job.env.network).Err?
          || !job.env.writable(TargetPath(job, f)))
    ensures Normalize(entry).optional ==> Step(job, p, entry) == p
    ensures !Normalize(entry).optional ==>
      Step(job, p, entry).error.Some? && Step(job, p, entry).files == p.files && Step(job, p, entry).written == p.written
  {
  }

  /** A file is written, transformed, exactly when it is wanted, may be written, and can be fetched and stored. */
  lemma WrittenFile(job: Job, p: Progress, entry: FileEntry)
    requires p.error.None?
    ensures var f := Normalize(entry); var t := TargetPath(job, f);
      var fetched := FetchComponentFile(job.componentName, f.path, job.options.registryUrl, job.env.network);
      (Step(job, p, entry).written != p.written <==>
         !Skipped(f, job.config) && (t !in p.files || job.options.overwrite) && fetched.Ok? && job.env.writable(t))
      && (Step(job, p, entry).written != p.written ==> Step(job, p, entry).files[t] == TransformComponent(fetched.value, job.config))
  {
  }

  /** Every file is optional: the loop never ends in an error. */
  lemma {:induction false} OptionalFilesNeverFail(job: Job, p: Progress, entries: seq<FileEntry>)
    requires p.error.None?
    requires forall k :: 0 <= k < |entries| ==> Normalize(entries[k]).optional
    ensures Steps(job, p, entries).error.None?
    decreases |entries|
  {
    if entries != [] {
      OptionalFilesNeverFail(job, p, entries[..|entries| - 1]);
    }
  }

  /**
   * Nothing else changes: starting from an empty list, every path the loop writes is
   * reported, and every path it does not report keeps its state.
   */
  lemma {:induction false} StepsFrame(job: Job, p: Progress, entries: seq<FileEntry>)
    requires p.written == []
    ensures var q := Steps(job, p, entries);
      (forall k :: k in q.written ==> k in q.files)
      && (forall k :: k !in q.written ==> (k in q.files <==> k in p.files) && (k in p.files ==> q.files[k] == p.files[k]))
    decreases |entries|
  {
    if entries != [] {
      var p1 := Steps(job, p, entries[..|entries| - 1]);
      StepsFrame(job, p, entries[..|entries| - 1]);
      StepShape(job, p1, entries[|entries| - 1]);
    }
  }

  /**
   * Without overwriting, an existing file is never touched, including one written earlier
   * in the same loop, so no path is written twice.
   */
  lemma {:induction false} NoClobber(job: Job, p: Progress, entries: seq<FileEntry>)
    requires !job.options.overwrite && p.written == []
    ensures var q := Steps(job, p, entries);
      (forall k :: k in p.files ==> k in q.files && q.files[k] == p.files[k])
      && (forall k :: k in q.written ==> k !in p.files)
      && NoDup(q.written)
    decreases |entries|
  {
    if entries != [] {
      var p1 := Steps(job, p, entries[..|entries| - 1]);
      NoClobber(job, p, entries[..|entries| - 1]);
      StepsFrame(job, p, entries[..|entries| - 1]);
      var last := entries[|entries| - 1];
      StepShape(job, p1, last);
      var q := Step(job, p1, last);
      if q.written != p1.written {
        var t := TargetPath(job, Normalize(last));
        assert t !in p1.written;
        assert q.written == Insert(p1.written, t);
      }
    }
  }

  /**
   * A file is settled when running its step again changes nothing: it is not wanted, its
   * target exists, or it is optional and fails.
   */
  predicate Settled(job: Job, files: map<string, string>, entry: FileEntry) {
    var f := Normalize(entry);
    Skipped(f, job.config)
    || TargetPath(job, f) in files
    || (f.optional
        && (FetchComponentFile(job.componentName, f.path, job.options.registryUrl, job.env.network).Err?
            || !job.env.writable(TargetPath(job, f))))
  }

  /** A step that ends without error settles its entry and removes no file. */
  lemma StepSettles(job: Job, p: Progress, entry: FileEntry)
    requires Step(job, p, entry).error.None?
    ensures Settled(job, Step(job, p, entry).files, entry)
    ensures p.files.Keys <= Step(job, p, entry).files.Keys
  {
  }

  /** Without overwriting, a settled entry's step changes nothing. */
  lemma SettledStepIdle(job: Job, p: Progress, entry: FileEntry)
    requires !job.options.overwrite && p.error.None? && Settled(job, p.files, entry)
    ensures Step(job, p, entry) == p
  {
  }

  /** Settledness depends only on which targets exist, and more files keep it. */
  lemma SettledMonotone(job: Job, a: map<string, string>, b: map<string, string>, entry: FileEntry)
    requires a.Keys <= b.Keys && Settled(job, a, entry)
    ensures Settled(job, b, entry)
  {
  }

  /** After a loop that ends without error, every entry is settled in the resulting files. */
  lemma {:induction false} StepsSettle(job: Job, p: Progress, entries: seq<FileEntry>)
    requires Steps(job, p, entries).error.None?
    ensures forall k :: 0 <= k < |entries| ==> Settled(job, Steps(job, p, entries).files, entries[k])
    decreases |entries|
  {
    if entries != [] {
      var init := entries[..|entries| - 1];
      var last := entries[|entries| - 1];
      var p1 := Steps(job, p, init);
      var q := Step(job, p1, last);
      assert Steps(job, p, entries) == q;
      StepShape(job, p1, last);
      StepsSettle(job, p, init);
      StepSettles(job, p1, last);
      forall k | 0 <= k < |entries|
        ensures Settled(job, q.files, entries[k])
      {
        if k < |init| {
          assert entries[k] == init[k];
          SettledMonotone(job, p1.files, q.files, init[k]);
        } else {
          assert entries[k] == last;
        }
      }
    }
  }

  /** Without overwriting, settled entries change nothing. */
  lemma {:induction false} SettledStepsIdle(job: Job, p: Progress, entries: seq<FileEntry>)
    requires !job.options.overwrite && p.error.None?
    requires forall k :: 0 <= k < |entries| ==> Settled(job, p.files, entries[k])
    ensures Steps(job, p, entries) == p
    decreases |entries|
  {
    if entries != [] {
      SettledStepsIdle(job, p, entries[..|entries| - 1]);
      SettledStepIdle(job, p, entries[|entries| - 1]);
    }
  }

  /**
   * Re-running the loop, without overwriting, on the files a completed run left writes
   * nothing and changes nothing.
   */
  lemma RerunWritesNothing(job: Job, files: map<string, string>, entries: seq<FileEntry>)
    requires !job.options.overwrite
    requires Steps(job, Progress(files, [], None), entries).error.None?
    ensures var again := Progress(Steps(job, Progress(files, [], None), entries).files, [], None);
      Steps(job, again, entries) == again
  {
    var first := Steps(job, Progress(files, [], None), entries);
    StepsSettle(job, Progress(files, [], None), entries);
    SettledStepsIdle(job, Progress(first.files, [], None), entries);
  }

  /**
   * Installing a component a second time without overwriting leaves the files as they
   * are and records the component with an empty file list.
   */
  lemma ReinstallRecordsNoFiles(job: Job, component: Component, before: DiskState)
    requires !job.options.overwrite
    requires InstallSpec(job, component, before).outcome.Ok?
    ensures var mid := InstallSpec(job, component, before).after;
      var again := InstallSpec(job, component, mid);
      again.outcome == Ok([]) && again.after.files == mid.files
      && again.after.tracker == Stored(Track(mid.tracker, job.componentName, component, [], job.env.now))
  {
    RerunWritesNothing(job, before.files, component.files);
  }

  /** A successful installation leaves every one of the component's files settled. */
  lemma InstallSettles(job: Job, component: Component, before: DiskState)
    requires InstallSpec(job, component, before).outcome.Ok?
    ensures forall k :: 0 <= k < |component.files| ==>
      Settled(job, InstallSpec(job, component, before).after.files, component.files[k])
  {
    StepsSettle(job, Progress(before.files, [], None), component.files);
  }

  /**
   * Without overwriting, installing a component whose files are all settled changes no
   * file and reports no file written.
   */
  lemma SettledInstallIdle(job: Job, component: Component, before: DiskState)
    requires !job.options.overwrite
    requires forall k :: 0 <= k < |component.files| ==> Settled(job, before.files, component.files[k])
    ensures InstallSpec(job, component, before).after.files == before.files
    ensures InstallSpec(job, component, before).outcome in {Ok([]), Err(TrackingFailed)}
  {
    SettledStepsIdle(job, Progress(before.files, [], None), component.files);
  }

  /** An installation removes no file, and without overwriting it changes no existing file. */
  lemma InstallKeepsFiles(job: Job, component: Component, before: DiskState)
    ensures before.files.Keys <= InstallSpec(job, component, before).after.files.Keys
    ensures !job.options.overwrite ==>
      forall k :: k in before.files ==> InstallSpec(job, component, before).after.files[k] == before.files[k]
  {
    StepsFrame(job, Progress(before.files, [], None), component.files);
    if !job.options.overwrite {
      NoClobber(job, Progress(before.files, [], None), component.files);
    }
  }

  // ---------------------------------------------------------------------------------
  // The utils helper

  /**
   * The helper module written to `<lib>/utils.ts`. `pushui init` writes its own copy,
   * `InitCommand.InitUtilsContent`, which differs by one comment line; the two are kept apart
   * as the two generators are.
   */
  const InstallerUtilsContent: string :=
    "import { type ClassValue, clsx } from 'clsx';\n"
    + "import { twMerge } from 'tailwind-merge';\n"
    + "\n"
    + "/**\n"
    + " * Merge Tailwind CSS classes with clsx\n"
    + " */\n"
    + "export function cn(...inputs: ClassValue[]) {\n"
    + "  return twMerge(clsx(inputs));\n"
    + "}\n"

  function UtilsPath(config: Config, cwd: string): string {
    PathJoin(GetLibPath(config, cwd), "utils.ts")
  }

  /** What `installUtils` does: nothing when the file exists, otherwise it creates it. */
  function InstallUtilsSpec(config: Config, env: Env, before: DiskState): (DiskState, Result<bool, InstallError>) {
    var path := UtilsPath(config, env.cwd);
    if path in before.files then (before, Ok(false))
    else if !env.writable(path) then (before, Err(WriteFailed(path)))
    else (before.(files := before.files[path := InstallerUtilsContent]), Ok(true))
  }

  /** `installUtils` */
  method InstallUtils(config: Config, env: Env, disk: Disk) returns (r: Result<bool, InstallError>)
    modifies disk
    ensures (disk.State(), r) == InstallUtilsSpec(config, env, old(disk.State()))
  {
    var libPath := GetLibPath(config, env.cwd);
    var utilsPath := PathJoin(libPath, "utils.ts");
    var present := disk.PathExists(utilsPath);
    if present {
      return Ok(false);
    }
    if !env.writable(utilsPath) {
      return Err(WriteFailed(utilsPath));
    }
    disk.WriteFile(utilsPath, InstallerUtilsContent);
    r := Ok(true);
  }

  /**
   * The file is created only when absent and an existing one is never changed; after a
   * call that succeeds the file exists, so a second call reports `false` and changes nothing.
   */
  lemma InstallUtilsOnce(config: Config, env: Env, before: DiskState)
    ensures var (mid, r) := InstallUtilsSpec(config, env, before);
      (r == Ok(true) <==> UtilsPath(config, env.cwd) !in before.files && env.writable(UtilsPath(config, env.cwd)))
      && (forall k :: k in before.files ==> k in mid.files && mid.files[k] == before.files[k])
      && mid.tracker == before.tracker
      && (r.Ok? ==> InstallUtilsSpec(config, env, mid) == (mid, Ok(false)))
  {
  }
}
