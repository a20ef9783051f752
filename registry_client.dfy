/**
 * The registry client: the manifest cache and its fallback policy, component file URLs,
 * lookups in the manifest, the depth-first dependency resolver over a shared ordered set,
 * and the collection of npm packages over a list of components.
 *
 * The network is a function from a URL to a response (or `None` when the request fails);
 * JSON decoding plus the manifest schema is a function from a body to a manifest (or
 * `None`); the cache file is a value that records its age and whether it reads back.
 */
module RegistryClient {

  import opened Wrappers
  import opened Collections
  import opened RegistryTypes

  const DefaultRegistryUrl: string := "https://raw.githubusercontent.com/chathura-mpa/pushui/main/registry"

  /** One hour, in milliseconds. */
  const CacheTtlMs: int := 60 * 60 * 1000

  /** `registryUrl || DEFAULT_REGISTRY_URL`: an absent or empty URL falls back to the default. */
  function BaseUrl(registryUrl: Option<string>): (r: string)
    ensures registryUrl.Some? && registryUrl.value != "" ==> r == registryUrl.value
    ensures registryUrl.None? || registryUrl.value == "" ==> r == DefaultRegistryUrl
  {
    if registryUrl.Some? && registryUrl.value != "" then registryUrl.value else DefaultRegistryUrl
  }

  // ---------------------------------------------------------------------------------
  // The manifest cache

  /**
   * The single cache file in the user's home directory: absent, or present with an age
   * (now minus its modification time) and a content that either reads back as a valid
   * manifest or does not.
   */
  datatype CacheFile = NoCache | CacheFile(ageMs: int, content: Option<Registry>)

  /** `getCachedRegistry(ignoreExpiry)` */
  function GetCachedRegistry(cache: CacheFile, ignoreExpiry: bool): (r: Option<Registry>)
    ensures r.Some? <==> cache.CacheFile? && cache.content.Some? && (ignoreExpiry || cache.ageMs <= CacheTtlMs)
    ensures r.Some? ==> r == cache.content
  {
    match cache
    case NoCache => None
    case CacheFile(age, content) => if !ignoreExpiry && age > CacheTtlMs then None else content
  }

  datatype Response = Response(status: int, body: string)

  /** `response.ok` */
  predicate IsOk(resp: Response) {
    200 <= resp.status <= 299
  }

  datatype FetchError = RequestFailed | HttpStatus(status: int) | InvalidManifest

  /** The `try` block of `fetchRegistry` up to the schema check: request, status check, decoding. */
  function FetchManifest(url: string, network: string -> Option<Response>, parse: string -> Option<Registry>)
    : (r: Result<Registry, FetchError>)
    ensures r.Ok? <==> network(url).Some? && IsOk(network(url).value) && parse(network(url).value.body).Some?
    ensures r.Ok? ==> r.value == parse(network(url).value.body).value
  {
    match network(url)
    case None => Err(RequestFailed)
    case Some(resp) =>
      if !IsOk(resp) then Err(HttpStatus(resp.status))
      else
        match parse(resp.body)
        case None => Err(InvalidManifest)
        case Some(reg) => Ok(reg)
  }

  /** What one `fetchRegistry` call returns, the URL it requested (if any) and the cache it leaves. */
  datatype FetchOutcome = FetchOutcome(result: Result<Registry, FetchError>, requested: Option<string>, cacheAfter: CacheFile)

  /** The manifest URL under a registry base. */
  function IndexUrl(registryUrl: Option<string>): string {
    BaseUrl(registryUrl) + "/index.json"
  }

  /**
   * `fetchRegistry`: a fresh cache answers without a request; otherwise the manifest is
   * fetched and, when the cache can be written, stored with age zero (write errors are
   * ignored); when the fetch fails, any readable cache answers whatever its age.
   */
  function FetchRegistry(registryUrl: Option<string>, cache: CacheFile, network: string -> Option<Response>,
                         parse: string -> Option<Registry>, cacheWritable: bool): (o: FetchOutcome)
    ensures o.requested.None? <==> GetCachedRegistry(cache, false).Some?
    ensures o.requested.Some? ==> o.requested.value == IndexUrl(registryUrl)
    ensures o.result.Err? <==> GetCachedRegistry(cache, true).None? && FetchManifest(IndexUrl(registryUrl), network, parse).Err?
    ensures o.result.Err? ==> o.result == FetchManifest(IndexUrl(registryUrl), network, parse)
    ensures o.cacheAfter != cache ==> cacheWritable && o.result.Ok? && o.cacheAfter == CacheFile(0, Some(o.result.value))
    ensures GetCachedRegistry(cache, false).Some? ==> o.result == Ok(GetCachedRegistry(cache, false).value)
    ensures GetCachedRegistry(cache, false).None? && FetchManifest(IndexUrl(registryUrl), network, parse).Ok? ==>
      o.result == FetchManifest(IndexUrl(registryUrl), network, parse)
      && o.cacheAfter == (if cacheWritable then CacheFile(0, Some(o.result.value)) else cache)
    ensures (GetCachedRegistry(cache, false).None? && GetCachedRegistry(cache, true).Some?
             && FetchManifest(IndexUrl(registryUrl), network, parse).Err?) ==>
      o.result == Ok(GetCachedRegistry(cache, true).value) && o.cacheAfter == cache
  {
    match GetCachedRegistry(cache, false)
    case Some(reg) => FetchOutcome(Ok(reg), None, cache)
    case None =>
      var url := IndexUrl(registryUrl);
      match FetchManifest(url, network, parse)
      case Ok(reg) => FetchOutcome(Ok(reg), Some(url), if cacheWritable then CacheFile(0, Some(reg)) else cache)
      case Err(e) =>
        match GetCachedRegistry(cache, true)
        case Some(stale) => FetchOutcome(Ok(stale), Some(url), cache)
        case None => FetchOutcome(Err(e), Some(url), cache)
  }

  /** A cache no older than the time-to-live answers, with no request and no change to the cache. */
  lemma FreshCacheWins(registryUrl: Option<string>, reg: Registry, ageMs: int, network: string -> Option<Response>,
                       parse: string -> Option<Registry>, cacheWritable: bool)
    requires ageMs <= CacheTtlMs
    ensures FetchRegistry(registryUrl, CacheFile(ageMs, Some(reg)), network, parse, cacheWritable)
      == FetchOutcome(Ok(reg), None, CacheFile(ageMs, Some(reg)))
  {
  }

  /** The expiry boundary: a cache exactly one hour old is still fresh, one millisecond more is not. */
  lemma CacheTtlBoundary(content: Option<Registry>)
    ensures GetCachedRegistry(CacheFile(3600000, content), false) == content
    ensures GetCachedRegistry(CacheFile(3600001, content), false) == None
  {
  }

  /** A failed fetch falls back to a readable cache of any age. */
  lemma StaleCacheFallback(registryUrl: Option<string>, reg: Registry, ageMs: int, network: string -> Option<Response>,
                           parse: string -> Option<Registry>, cacheWritable: bool)
    requires FetchManifest(IndexUrl(registryUrl), network, parse).Err?
    ensures FetchRegistry(registryUrl, CacheFile(ageMs, Some(reg)), network, parse, cacheWritable).result == Ok(reg)
  {
  }

  /**
   * The cache is not keyed by the registry URL: a manifest stored while fetching from one
   * registry answers, for up to an hour, for every registry, with no request.
   */
  lemma CacheNotKeyedByUrl(urlA: Option<string>, urlB: Option<string>, cache: CacheFile,
                           networkA: string -> Option<Response>, networkB: string -> Option<Response>,
                           parse: string -> Option<Registry>, elapsedMs: int)
    requires GetCachedRegistry(cache, false).None?
    requires FetchManifest(IndexUrl(urlA), networkA, parse).Ok?
    requires 0 <= elapsedMs <= CacheTtlMs
    ensures var first := FetchRegistry(urlA, cache, networkA, parse, true);
      var later := CacheFile(first.cacheAfter.ageMs + elapsedMs, first.cacheAfter.content);
      FetchRegistry(urlB, later, networkB, parse, true) == FetchOutcome(first.result, None, later)
  {
  }

  /** `${baseUrl}/components/${componentName}/${fileName}` */
  function ComponentFileUrl(registryUrl: Option<string>, componentName: string, fileName: string): string {
    BaseUrl(registryUrl) + "/components/" + componentName + "/" + fileName
  }

  /** `fetchComponentFile`: the body of a successful response, an error otherwise. */
  function FetchComponentFile(componentName: string, fileName: string, registryUrl: Option<string>,
                              network: string -> Option<Response>): (r: Result<string, FetchError>)
    ensures var resp := network(ComponentFileUrl(registryUrl, componentName, fileName));
      (r.Ok? <==> resp.Some? && IsOk(resp.value)) && (r.Ok? ==> r.value == resp.value.body)
  {
    match network(ComponentFileUrl(registryUrl, componentName, fileName))
    case None => Err(RequestFailed)
    case Some(resp) => if IsOk(resp) then Ok(resp.body) else Err(HttpStatus(resp.status))
  }

  // ---------------------------------------------------------------------------------
  // Lookups

  /** `getComponent` */
  function GetComponent(registry: RegistryData, name: string): (r: Option<Component>)
    ensures r.Some? <==> name in registry.components
    ensures r.Some? ==> r.value == registry.components[name]
  {
    if name in registry.components then Some(registry.components[name]) else None
  }

  /** `getAvailableComponents`: every component name once, in manifest order. */
  function GetAvailableComponents(registry: Registry): (names: seq<string>)
    ensures NoDup(names)
    ensures forall n :: n in names <==> n in registry.components
  {
    registry.keyOrder
  }

  // ---------------------------------------------------------------------------------
  // Dependency resolution

  /** Both kinds of edge out of a component: registry dependencies, then component dependencies. */
  function Deps(reg: RegistryData, name: string): seq<string>
    requires name in reg.components
  {
    RegistryDeps(reg.components[name]) + ComponentDeps(reg.components[name])
  }

  /** How many component names are not yet in `visited`: the resolver's termination measure. */
  function Unvisited(reg: RegistryData, visited: seq<string>): nat {
    |reg.components.Keys - Elems(visited)|
  }

  lemma AddShrinks(reg: RegistryData, visited: seq<string>, name: string)
    requires name !in visited && name in reg.components
    ensures Unvisited(reg, visited + [name]) < Unvisited(reg, visited)
  {
    var k := reg.components.Keys - Elems(visited);
    assert Elems(visited + [name]) == Elems(visited) + {name};
    assert reg.components.Keys - Elems(visited + [name]) == k - {name};
    assert (k - {name}) + {name} == k;
  }

  lemma PrefixShrinks(reg: RegistryData, a: seq<string>, b: seq<string>)
    requires a <= b
    ensures Unvisited(reg, b) <= Unvisited(reg, a)
  {
    assert forall x :: x in a ==> x in b;
    DiffShrinks(reg.components.Keys, Elems(a), Elems(b));
  }

  /**
   * The shared set after `resolveComponentDependencies(name, registry, visited)`: a known,
   * unvisited name is added first, then its registry dependencies are resolved, then its
   * component dependencies.
   */
  function Resolve(reg: RegistryData, name: string, visited: seq<string>): (r: seq<string>)
    ensures visited <= r
    decreases Unvisited(reg, visited), 0
  {
    if name in visited || name !in reg.components then visited
    else
      var c := reg.components[name];
      var v1 := visited + [name];
      AddShrinks(reg, visited, name);
      var v2 := ResolveAll(reg, RegistryDeps(c), v1);
      PrefixShrinks(reg, v1, v2);
      ResolveAll(reg, ComponentDeps(c), v2)
  }

  /** The shared set after resolving each of `deps` in turn. */
  function ResolveAll(reg: RegistryData, deps: seq<string>, visited: seq<string>): (r: seq<string>)
    ensures visited <= r
    decreases Unvisited(reg, visited), |deps| + 1
  {
    if deps == [] then visited
    else
      var v1 := ResolveAll(reg, deps[..|deps| - 1], visited);
      PrefixShrinks(reg, visited, v1);
      Resolve(reg, deps[|deps| - 1], v1)
  }

  /**
   * Resolution only adds to the set: a known name ends up in it, a name already there or
   * not in the manifest changes nothing, what is added are known components and each
   * appears once, and a newly added name comes before its dependencies.
   */
  lemma {:induction false} ResolveFacts(reg: RegistryData, name: string, visited: seq<string>)
    ensures forall x :: x in visited ==> x in Resolve(reg, name, visited)
    ensures NoDup(visited) ==> NoDup(Resolve(reg, name, visited))
    ensures forall x :: x in Resolve(reg, name, visited) ==> x in visited || x in reg.components
    ensures name in reg.components ==> name in Resolve(reg, name, visited)
    ensures name in visited || name !in reg.components ==> Resolve(reg, name, visited) == visited
    ensures name !in visited && name in reg.components ==>
      |Resolve(reg, name, visited)| > |visited| && Resolve(reg, name, visited)[|visited|] == name
    decreases Unvisited(reg, visited), 0
  {
    if name !in visited && name in reg.components {
      var c := reg.components[name];
      var v1 := visited + [name];
      AddShrinks(reg, visited, name);
      var v2 := ResolveAll(reg, RegistryDeps(c), v1);
      PrefixShrinks(reg, v1, v2);
      ResolveAllFacts(reg, RegistryDeps(c), v1);
      ResolveAllFacts(reg, ComponentDeps(c), v2);
      var r := Resolve(reg, name, visited);
      assert r == ResolveAll(reg, ComponentDeps(c), v2);
      assert r[|visited|] == v2[|visited|] == v1[|visited|] == name;
    }
  }

  lemma {:induction false} ResolveAllFacts(reg: RegistryData, deps: seq<string>, visited: seq<string>)
    ensures forall x :: x in visited ==> x in ResolveAll(reg, deps, visited)
    ensures NoDup(visited) ==> NoDup(ResolveAll(reg, deps, visited))
    ensures forall x :: x in ResolveAll(reg, deps, visited) ==> x in visited || x in reg.components
    ensures forall d :: d in deps && d in reg.components ==> d in ResolveAll(reg, deps, visited)
    decreases Unvisited(reg, visited), |deps| + 1
  {
    if deps != [] {
      var init := deps[..|deps| - 1];
      var v1 := ResolveAll(reg, init, visited);
      PrefixShrinks(reg, visited, v1);
      ResolveAllFacts(reg, init, visited);
      ResolveFacts(reg, deps[|deps| - 1], v1);
      assert forall d :: d in deps ==> d in init || d == deps[|deps| - 1];
    }
  }

  /**
   * `resolveComponentDependencies`: updates the shared set as `Resolve` says and returns
   * all of it, or nothing when the name was already there or is not in the manifest.
   */
  method ResolveComponentDependencies(componentName: string, registry: RegistryData, resolved: OrderedSet<string>)
    returns (r: seq<string>)
    requires resolved.Valid()
    modifies resolved
    ensures resolved.Valid()
    ensures resolved.items == Resolve(registry, componentName, old(resolved.items))
    ensures r == if componentName in old(resolved.items) || componentName !in registry.components then []
                 else resolved.items
    decreases Unvisited(registry, resolved.items), 0
  {
    var has := resolved.Has(componentName);
    if has {
      return [];
    }
    var component := GetComponent(registry, componentName);
    if component.None? {
      return [];
    }
    AddShrinks(registry, resolved.items, componentName);
    resolved.Add(componentName);
    ghost var added := resolved.items;
    ResolveEach(RegistryDeps(component.value), registry, resolved);
    PrefixShrinks(registry, added, resolved.items);
    ResolveEach(ComponentDeps(component.value), registry, resolved);
    r := resolved.items;
  }

  /** One of the two `for (const dep of ...)` loops of `resolveComponentDependencies`. */
  method ResolveEach(deps: seq<string>, registry: RegistryData, resolved: OrderedSet<string>)
    requires resolved.Valid()
    modifies resolved
    ensures resolved.Valid()
    ensures resolved.items == ResolveAll(registry, deps, old(resolved.items))
    decreases Unvisited(registry, resolved.items), |deps| + 1
  {
    ghost var start := resolved.items;
    var i := 0;
    while i < |deps|
      invariant 0 <= i <= |deps|
      invariant resolved.Valid()
      invariant resolved.items == ResolveAll(registry, deps[..i], start)
    {
      PrefixShrinks(registry, start, resolved.items);
      var _ := ResolveComponentDependencies(deps[i], registry, resolved);
      ResolveAllNext(registry, deps, i, start);
      i := i + 1;
    }
    assert deps[..i] == deps;
  }

  /** One more dependency in the fold. */
  lemma ResolveAllNext(reg: RegistryData, deps: seq<string>, i: nat, visited: seq<string>)
    requires i < |deps|
    ensures ResolveAll(reg, deps[..i + 1], visited) == Resolve(reg, deps[i], ResolveAll(reg, deps[..i], visited))
  {
    assert deps[..i + 1][..i] == deps[..i];
  }

  /** A chain of known components, each one an edge away from the one before. */
  ghost predicate IsPath(reg: RegistryData, p: seq<string>) {
    |p| >= 1
    && (forall i | 0 <= i < |p| :: p[i] in reg.components)
    && (forall i | 0 <= i < |p| - 1 :: p[i] in reg.components && p[i + 1] in Deps(reg, p[i]))
  }

  /** `to` is a known component reachable from the known component `from`. */
  ghost predicate Reachable(reg: RegistryData, from: string, to: string) {
    exists p :: IsPath(reg, p) && p[0] == from && p[|p| - 1] == to
  }

  lemma ReachableSelf(reg: RegistryData, n: string)
    requires n in reg.components
    ensures Reachable(reg, n, n)
  {
    assert IsPath(reg, [n]);
  }

  lemma ReachableStep(reg: RegistryData, n: string, d: string, m: string)
    requires n in reg.components && d in Deps(reg, n) && Reachable(reg, d, m)
    ensures Reachable(reg, n, m)
  {
    var p :| IsPath(reg, p) && p[0] == d && p[|p| - 1] == m;
    var q := [n] + p;
    assert q[1..] == p;
    assert IsPath(reg, q);
  }

  /** Every name `Resolve` adds is reachable from the name it starts from. */
  lemma {:induction false} ResolveSound(reg: RegistryData, name: string, visited: seq<string>)
    ensures forall x :: x in Resolve(reg, name, visited) && x !in visited ==> Reachable(reg, name, x)
    decreases Unvisited(reg, visited), 0
  {
    if name !in visited && name in reg.components {
      var c := reg.components[name];
      var v1 := visited + [name];
      AddShrinks(reg, visited, name);
      var v2 := ResolveAll(reg, RegistryDeps(c), v1);
      PrefixShrinks(reg, v1, v2);
      ResolveAllSound(reg, RegistryDeps(c), v1);
      ResolveAllSound(reg, ComponentDeps(c), v2);
      var r := Resolve(reg, name, visited);
      forall x | x in r && x !in visited
        ensures Reachable(reg, name, x)
      {
        if x == name {
          ReachableSelf(reg, name);
        } else if x in v2 {
          var k :| 0 <= k < |RegistryDeps(c)| && Reachable(reg, RegistryDeps(c)[k], x);
          assert RegistryDeps(c)[k] in Deps(reg, name);
          ReachableStep(reg, name, RegistryDeps(c)[k], x);
        } else {
          var k :| 0 <= k < |ComponentDeps(c)| && Reachable(reg, ComponentDeps(c)[k], x);
          assert ComponentDeps(c)[k] in Deps(reg, name);
          ReachableStep(reg, name, ComponentDeps(c)[k], x);
        }
      }
    }
  }

  lemma {:induction false} ResolveAllSound(reg: RegistryData, deps: seq<string>, visited: seq<string>)
    ensures forall x :: x in ResolveAll(reg, deps, visited) && x !in visited ==>
      exists k :: 0 <= k < |deps| && Reachable(reg, deps[k], x)
    decreases Unvisited(reg, visited), |deps| + 1
  {
    if deps != [] {
      var init := deps[..|deps| - 1];
      var v1 := ResolveAll(reg, init, visited);
      PrefixShrinks(reg, visited, v1);
      ResolveAllSound(reg, init, visited);
      ResolveSound(reg, deps[|deps| - 1], v1);
      forall x | x in ResolveAll(reg, deps, visited) && x !in visited
        ensures exists k :: 0 <= k < |deps| && Reachable(reg, deps[k], x)
      {
        if x in v1 {
          var k :| 0 <= k < |init| && Reachable(reg, init[k], x);
          assert deps[k] == init[k];
        } else {
          assert Reachable(reg, deps[|deps| - 1], x);
        }
      }
    }
  }

  /** Outside `visited`, every name of `r` is known and every known dependency of it is in `r`. */
  ghost predicate ClosedOutside(reg: RegistryData, r: seq<string>, visited: seq<string>) {
    forall x | x in r && x !in visited ::
      x in reg.components && forall d | d in Deps(reg, x) && d in reg.components :: d in r
  }

  lemma {:induction false} ResolveClosed(reg: RegistryData, name: string, visited: seq<string>)
    ensures ClosedOutside(reg, Resolve(reg, name, visited), visited)
    decreases Unvisited(reg, visited), 0
  {
    if name !in visited && name in reg.components {
      var c := reg.components[name];
      var v1 := visited + [name];
      AddShrinks(reg, visited, name);
      var v2 := ResolveAll(reg, RegistryDeps(c), v1);
      PrefixShrinks(reg, v1, v2);
      ResolveAllClosed(reg, RegistryDeps(c), v1);
      ResolveAllClosed(reg, ComponentDeps(c), v2);
      ResolveAllFacts(reg, RegistryDeps(c), v1);
      ResolveAllFacts(reg, ComponentDeps(c), v2);
      var r := Resolve(reg, name, visited);
      forall x | x in r && x !in visited
        ensures x in reg.components && forall d | d in Deps(reg, x) && d in reg.components :: d in r
      {
        if x != name && x in v2 {
          assert forall d | d in Deps(reg, x) && d in reg.components :: d in v2;
        }
      }
    }
  }

  lemma {:induction false} ResolveAllClosed(reg: RegistryData, deps: seq<string>, visited: seq<string>)
    ensures ClosedOutside(reg, ResolveAll(reg, deps, visited), visited)
    decreases Unvisited(reg, visited), |deps| + 1
  {
    if deps != [] {
      var init := deps[..|deps| - 1];
      var v1 := ResolveAll(reg, init, visited);
      PrefixShrinks(reg, visited, v1);
      ResolveAllClosed(reg, init, visited);
      ResolveClosed(reg, deps[|deps| - 1], v1);
      ResolveFacts(reg, deps[|deps| - 1], v1);
      var r := ResolveAll(reg, deps, visited);
      forall x | x in r && x !in visited
        ensures x in reg.components && forall d | d in Deps(reg, x) && d in reg.components :: d in r
      {
        if x in v1 {
          assert forall d | d in Deps(reg, x) && d in reg.components :: d in v1;
        }
      }
    }
  }

  lemma {:induction false} PathInClosed(reg: RegistryData, p: seq<string>, r: seq<string>)
    requires IsPath(reg, p) && p[0] in r && ClosedOutside(reg, r, [])
    ensures p[|p| - 1] in r
    decreases |p|
  {
    if |p| > 1 {
      assert p[1] in Deps(reg, p[0]);
      assert IsPath(reg, p[1..]);
      PathInClosed(reg, p[1..], r);
    }
  }

  /**
   * With a fresh set, resolution yields exactly the known components reachable from the
   * requested one along either kind of edge, each once, the requested one first.
   */
  lemma ResolveFreshIsReachable(reg: RegistryData, name: string)
    ensures forall m :: m in Resolve(reg, name, []) <==> Reachable(reg, name, m)
    ensures NoDup(Resolve(reg, name, []))
    ensures name in reg.components ==> Resolve(reg, name, [])[0] == name
    ensures name !in reg.components ==> Resolve(reg, name, []) == []
  {
    var r := Resolve(reg, name, []);
    ResolveFacts(reg, name, []);
    ResolveSound(reg, name, []);
    ResolveClosed(reg, name, []);
    forall m | Reachable(reg, name, m)
      ensures m in r
    {
      var p :| IsPath(reg, p) && p[0] == name && p[|p| - 1] == m;
      PathInClosed(reg, p, r);
    }
  }

  // A two-component cycle: A lists B as a registry dependency, B lists A as a component dependency.

  const CycleA: Component := Component("A", None, None, UiComponent, [], None, None, Some(["B"]))
  const CycleB: Component := Component("B", None, None, UiComponent, [], Some(Dependencies(None, Some(["A"]))), None, None)
  const CycleRegistry: Registry := RegistryData(None, map["A" := CycleA, "B" := CycleB], ["A", "B"], None)

  lemma CycleResolves()
    ensures Resolve(CycleRegistry, "A", []) == ["A", "B"]
    ensures Resolve(CycleRegistry, "B", []) == ["B", "A"]
  {
    var reg := CycleRegistry;
    assert reg.components["A"] == CycleA && reg.components["B"] == CycleB;
    assert RegistryDeps(CycleA) == ["B"] && ComponentDeps(CycleA) == [];
    assert RegistryDeps(CycleB) == [] && ComponentDeps(CycleB) == ["A"];
    var ab, ba := ["A", "B"], ["B", "A"];
    // From A: A, then its registry dependency B, whose component dependency A is already there.
    assert Resolve(reg, "A", ab) == ab;
    assert ResolveAll(reg, ["A"], ab) == ab;
    assert ResolveAll(reg, [], ["A"]) == ["A"];
    assert ["A"] + ["B"] == ab;
    assert ResolveAll(reg, [], ab) == ab;
    assert Resolve(reg, "B", ["A"]) == ab;
    assert ResolveAll(reg, ["B"], ["A"]) == ab;
    assert [] + ["A"] == ["A"];
    // From B: B, then its component dependency A, whose registry dependency B is already there.
    assert Resolve(reg, "B", ba) == ba;
    assert ResolveAll(reg, ["B"], ba) == ba;
    assert ResolveAll(reg, [], ba) == ba;
    assert ResolveAll(reg, [], ["B"]) == ["B"];
    assert ["B"] + ["A"] == ba;
    assert Resolve(reg, "A", ["B"]) == ba;
    assert ResolveAll(reg, ["A"], ["B"]) == ba;
    assert [] + ["B"] == ["B"];
  }

  // ---------------------------------------------------------------------------------
  // npm packages

  /** `dependencies.npm` or `devDependencies` of a component, absent read as empty. */
  function PackageList(c: Component, dev: bool): seq<string> {
    if dev then DevDeps(c) else NpmDeps(c)
  }

  /**
   * The packages `getNpmDependencies` gathers over `names`: unknown names are skipped and
   * each package appears once, in the order first seen.
   */
  function CollectPackages(reg: Registry, names: seq<string>, dev: bool): (r: seq<string>)
    ensures NoDup(r)
    ensures forall x :: x in r <==>
      exists k :: 0 <= k < |names| && names[k] in reg.components && x in PackageList(reg.components[names[k]], dev)
    decreases |names|
  {
    if names == [] then []
    else
      var init := names[..|names| - 1];
      var acc := CollectPackages(reg, init, dev);
      var name := names[|names| - 1];
      assert forall k :: 0 <= k < |init| ==> names[k] == init[k];
      if name in reg.components then InsertAll(acc, PackageList(reg.components[name], dev)) else acc
  }

  /**
   * Packages keep the order in which they are first seen: what the first `i` names
   * contribute stays, in the same order, at the front of the whole list.
   */
  lemma {:induction false} CollectPackagesPrefix(reg: Registry, names: seq<string>, i: nat, dev: bool)
    requires i <= |names|
    ensures CollectPackages(reg, names[..i], dev) <= CollectPackages(reg, names, dev)
    decreases |names|
  {
    if i < |names| {
      var init := names[..|names| - 1];
      assert names[..i] == init[..i];
      CollectPackagesPrefix(reg, init, i, dev);
      assert CollectPackages(reg, init, dev) <= CollectPackages(reg, names, dev);
    } else {
      assert names[..i] == names;
    }
  }

  /** `getNpmDependencies`: both lists gathered in one pass over the names. */
  method GetNpmDependencies(componentNames: seq<string>, registry: Registry)
    returns (dependencies: seq<string>, devDependencies: seq<string>)
    ensures dependencies == CollectPackages(registry, componentNames, false)
    ensures devDependencies == CollectPackages(registry, componentNames, true)
  {
    var deps := new OrderedSet<string>();
    var devDeps := new OrderedSet<string>();
    for i := 0 to |componentNames|
      invariant deps != devDeps
      invariant deps.Valid() && devDeps.Valid()
      invariant deps.items == CollectPackages(registry, componentNames[..i], false)
      invariant devDeps.items == CollectPackages(registry, componentNames[..i], true)
    {
      assert componentNames[..i + 1][..i] == componentNames[..i];
      var component := GetComponent(registry, componentNames[i]);
      if component.None? {
        continue;
      }
      deps.AddAll(NpmDeps(component.value));
      devDeps.AddAll(DevDeps(component.value));
    }
    assert componentNames[..|componentNames|] == componentNames;
    dependencies := deps.items;
    devDependencies := devDeps.items;
  }
}
