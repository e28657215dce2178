// The extends chain: loading a file, then the file it extends, and so on,
// with cycle detection, and merging the results.
module ConfigExtends {
  import opened Wrappers
  import opened Text
  import opened ConfigTypes
  import opened ConfigMerge

  /** The files that can be read and parsed, by path. Every other path fails. */
  type Files = map<string, Config>

  /** resolveExtendsPath: the extends entry, and the file it is written in. It
      fails only when the home directory is unknown. */
  type Resolver = (string, string) -> Option<string>

  datatype LoadError = Circular(path: string) | Unreadable(path: string) | BadExtends(path: string)

  lemma FewerUnvisited(files: Files, path: string, visiting: seq<string>)
    requires path in files && path !in visiting
    ensures |files.Keys - (set p | p in visiting + [path])| < |files.Keys - (set p | p in visiting)|
  {
    var before, after := files.Keys - (set p | p in visiting), files.Keys - (set p | p in visiting + [path]);
    assert after == before - {path} && path in before;
  }

  /** loadWithInheritance. It ends because a path is never visited twice. */
  function Load(files: Files, resolve: Resolver, path: string, visiting: seq<string>): Result<Config, LoadError>
    decreases |files.Keys - (set p | p in visiting)|
  {
    if path in visiting then Err(Circular(path))
    else if path !in files then Err(Unreadable(path))
    else
      var child := files[path];
      if child.extendsPath == "" then Ok(child)
      else
        match resolve(child.extendsPath, path)
        case None => Err(BadExtends(path))
        case Some(parentPath) =>
          FewerUnvisited(files, path, visiting);
          match Load(files, resolve, parentPath, visiting + [path])
          case Err(e) => Err(e)
          case Ok(parent) => Ok(Merged(parent, child))
  }

  // ---------------------------------------------------------------------
  // The chain of files, as a relation
  // ---------------------------------------------------------------------

  /** path loads, extends something, and that resolves to next. */
  ghost predicate Extends(files: Files, resolve: Resolver, path: string, next: string) {
    path in files && files[path].extendsPath != "" && resolve(files[path].extendsPath, path) == Some(next)
  }

  ghost predicate Chain(files: Files, resolve: Resolver, chain: seq<string>) {
    chain != [] && forall i | 0 <= i < |chain| - 1 :: Extends(files, resolve, chain[i], chain[i + 1])
  }

  /** What stops a chain: its last file extends nothing, or cannot be loaded,
      or names a parent that does not resolve, or was met before. */
  ghost predicate Stops(files: Files, resolve: Resolver, chain: seq<string>, error: Option<LoadError>)
    requires chain != []
  {
    var last := chain[|chain| - 1];
    match error
    case None => NoDuplicates(chain) && last in files && files[last].extendsPath == ""
    case Some(Circular(p)) => p == last && NoDuplicates(chain[..|chain| - 1]) && last in chain[..|chain| - 1]
    case Some(Unreadable(p)) => p == last && NoDuplicates(chain) && last !in files
    case Some(BadExtends(p)) =>
      p == last && NoDuplicates(chain) && last in files && files[last].extendsPath != ""
      && resolve(files[last].extendsPath, last).None?
  }

  /** The configs of a chain, merged from the root ancestor down to the child. */
  ghost function MergedChain(files: Files, chain: seq<string>): Config
    requires chain != [] && forall p | p in chain :: p in files
  {
    if |chain| == 1 then files[chain[0]] else Merged(MergedChain(files, chain[1..]), files[chain[0]])
  }

  ghost function OutcomeOf(files: Files, chain: seq<string>, error: Option<LoadError>): Result<Config, LoadError>
    requires chain != [] && (error.None? ==> forall p | p in chain :: p in files)
  {
    if error.Some? then Err(error.value) else Ok(MergedChain(files, chain))
  }

  /** Completeness: along a chain that stops, Load does what stops it. */
  lemma {:induction false} LoadFollowsChain(files: Files, resolve: Resolver, visited: seq<string>,
                                            chain: seq<string>, error: Option<LoadError>)
    requires chain != [] && Chain(files, resolve, visited + chain)
    requires Stops(files, resolve, visited + chain, error)
    ensures error.None? ==> forall p | p in chain :: p in files
    ensures Load(files, resolve, chain[0], visited) == OutcomeOf(files, chain, error)
    decreases |chain|
  {
    var whole := visited + chain;
    var path := chain[0];
    assert whole[|visited|] == path;
    if |chain| == 1 {
      assert whole[..|whole| - 1] == visited;
      assert forall i | 0 <= i < |visited| :: whole[i] == visited[i];
    } else {
      var rest := chain[1..];
      assert visited + [path] + rest == whole;
      assert Extends(files, resolve, path, rest[0]) by { assert whole[|visited| + 1] == rest[0]; }
      assert path !in visited by {
        assert whole[..|whole| - 1][..|visited|] == visited;
        assert whole[..|whole| - 1][|visited|] == path;
      }
      LoadFollowsChain(files, resolve, visited + [path], rest, error);
    }
  }

  lemma ExtendChain(files: Files, resolve: Resolver, chain: seq<string>, next: string)
    requires Chain(files, resolve, chain) && Extends(files, resolve, chain[|chain| - 1], next)
    ensures Chain(files, resolve, chain + [next])
  {
    var longer := chain + [next];
    forall i | 0 <= i < |longer| - 1 ensures Extends(files, resolve, longer[i], longer[i + 1]) {
      if i < |chain| - 1 { assert Extends(files, resolve, chain[i], chain[i + 1]); }
    }
  }

  lemma ExtendDistinct(visited: seq<string>, path: string)
    requires NoDuplicates(visited) && path !in visited
    ensures NoDuplicates(visited + [path])
  {}

  /** A path that cannot be followed further stops the chain. */
  lemma ChainStops(files: Files, resolve: Resolver, path: string, visited: seq<string>)
    returns (error: Option<LoadError>)
    requires NoDuplicates(visited)
    requires path !in visited ==> forall next :: !Extends(files, resolve, path, next)
    ensures Stops(files, resolve, visited + [path], error)
  {
    var whole := visited + [path];
    assert whole[..|whole| - 1] == visited && whole[|whole| - 1] == path;
    if path in visited {
      return Some(Circular(path));
    }
    ExtendDistinct(visited, path);
    if path !in files {
      error := Some(Unreadable(path));
    } else if files[path].extendsPath == "" {
      error := None;
    } else {
      var next := resolve(files[path].extendsPath, path);
      assert next.Some? ==> Extends(files, resolve, path, next.value);
      error := Some(BadExtends(path));
    }
  }

  /** Soundness: every call of Load follows some chain that stops. */
  lemma {:induction false} LoadHasChain(files: Files, resolve: Resolver, path: string, visited: seq<string>)
    returns (chain: seq<string>, error: Option<LoadError>)
    requires Chain(files, resolve, visited + [path]) && NoDuplicates(visited)
    ensures chain != [] && chain[0] == path
    ensures Chain(files, resolve, visited + chain) && Stops(files, resolve, visited + chain, error)
    decreases |files.Keys - (set p | p in visited)|
  {
    if next :| path !in visited && Extends(files, resolve, path, next) {
      FewerUnvisited(files, path, visited);
      ExtendChain(files, resolve, visited + [path], next);
      ExtendDistinct(visited, path);
      chain, error := LoadHasChain(files, resolve, next, visited + [path]);
      assert visited + ([path] + chain) == visited + [path] + chain;
      chain := [path] + chain;
    } else {
      chain := [path];
      error := ChainStops(files, resolve, path, visited);
    }
  }

  /** Loading succeeds exactly when the chain from the file reaches a file that
      extends nothing, with no path met twice; the result is then the chain
      merged from its root down. Otherwise the error is the first thing that
      stopped the chain. */
  lemma LoadIff(files: Files, resolve: Resolver, path: string, result: Result<Config, LoadError>)
    ensures Load(files, resolve, path, []) == result <==>
            exists chain, error ::
              && Chain(files, resolve, chain) && chain[0] == path && Stops(files, resolve, chain, error)
              && (error.None? ==> forall p | p in chain :: p in files)
              && result == OutcomeOf(files, chain, error)
  {
    assert [] + [path] == [path];
    var chain, error := LoadHasChain(files, resolve, path, []);
    assert [] + chain == chain;
    LoadFollowsChain(files, resolve, [], chain, error);
    forall chain', error' | Chain(files, resolve, chain') && chain'[0] == path && Stops(files, resolve, chain', error')
                            && (error'.None? ==> forall p | p in chain' :: p in files)
      ensures Load(files, resolve, path, []) == OutcomeOf(files, chain', error')
    {
      assert [] + chain' == chain';
      LoadFollowsChain(files, resolve, [], chain', error');
    }
  }

  // ---------------------------------------------------------------------
  // What a loaded chain says
  // ---------------------------------------------------------------------

  /** value is what the nearest file of the chain that sets this setting says, or
      else what the root says. */
  ghost predicate FromNearest<T(!new)>(files: Files, chain: seq<string>, get: Config -> T, isSet: T -> bool, value: T)
    requires forall p | p in chain :: p in files
  {
    exists i :: 0 <= i < |chain| && value == get(files[chain[i]])
                && (forall j | 0 <= j < i :: !isSet(get(files[chain[j]])))
                && (isSet(value) || i == |chain| - 1)
  }

  /** Merging takes this setting from the file that extends, if it is set there. */
  ghost predicate Inherits<T(!new)>(get: Config -> T, isSet: T -> bool) {
    forall base, over :: get(Merged(base, over)) == if isSet(get(over)) then get(over) else get(base)
  }

  lemma NearestIsFirst<T(!new)>(files: Files, chain: seq<string>, get: Config -> T, isSet: T -> bool)
    requires chain != [] && forall p | p in chain :: p in files
    requires |chain| == 1 || isSet(get(files[chain[0]]))
    ensures FromNearest(files, chain, get, isSet, get(files[chain[0]]))
  {
    assert 0 < |chain|;
  }

  lemma NearestIsInRest<T(!new)>(files: Files, chain: seq<string>, get: Config -> T, isSet: T -> bool, value: T)
    requires |chain| > 1 && forall p | p in chain :: p in files
    requires !isSet(get(files[chain[0]])) && FromNearest(files, chain[1..], get, isSet, value)
    ensures FromNearest(files, chain, get, isSet, value)
  {
    var rest := chain[1..];
    var i :| 0 <= i < |rest| && value == get(files[rest[i]])
             && (forall j | 0 <= j < i :: !isSet(get(files[rest[j]]))) && (isSet(value) || i == |rest| - 1);
    assert chain[i + 1] == rest[i];
    forall j | 0 <= j < i + 1 ensures !isSet(get(files[chain[j]])) {
      if j > 0 { assert chain[j] == rest[j - 1]; }
    }
  }

  lemma {:induction false} SettingsComeFromNearest<T(!new)>(files: Files, chain: seq<string>, get: Config -> T,
                                                            isSet: T -> bool)
    requires chain != [] && (forall p | p in chain :: p in files) && Inherits(get, isSet)
    ensures FromNearest(files, chain, get, isSet, get(MergedChain(files, chain)))
  {
    if |chain| == 1 {
      NearestIsFirst(files, chain, get, isSet);
    } else {
      var parent, child := MergedChain(files, chain[1..]), files[chain[0]];
      assert get(Merged(parent, child)) == if isSet(get(child)) then get(child) else get(parent);
      if isSet(get(child)) {
        NearestIsFirst(files, chain, get, isSet);
      } else {
        SettingsComeFromNearest(files, chain[1..], get, isSet);
        NearestIsInRest(files, chain, get, isSet, get(parent));
      }
    }
  }

  ghost predicate StringFrom(files: Files, chain: seq<string>, get: Config -> string, value: string)
    requires forall p | p in chain :: p in files
  {
    FromNearest(files, chain, get, (s: string) => s != "", value)
  }

  /** The strings at the top level of a file. */
  ghost predicate StringsFromNearest(files: Files, chain: seq<string>, c: Config)
    requires forall p | p in chain :: p in files
  {
    && StringFrom(files, chain, (f: Config) => f.context, c.context)
    && StringFrom(files, chain, (f: Config) => f.namespace, c.namespace)
    && StringFrom(files, chain, (f: Config) => f.logFilePath, c.logFilePath)
    && StringFrom(files, chain, (f: Config) => f.logLevel, c.logLevel)
    && StringFrom(files, chain, (f: Config) => f.listen, c.listen)
    && StringFrom(files, chain, (f: Config) => f.apiKey, c.apiKey)
    && StringFrom(files, chain, (f: Config) => f.keyID, c.keyID)
    && StringFrom(files, chain, (f: Config) => f.host, c.host)
  }

  ghost predicate NetworkFromNearest(files: Files, chain: seq<string>, c: Config)
    requires forall p | p in chain :: p in files
  {
    && StringFrom(files, chain, (f: Config) => f.network.latency, c.network.latency)
    && StringFrom(files, chain, (f: Config) => f.network.jitter, c.network.jitter)
    && StringFrom(files, chain, (f: Config) => f.network.bandwidth, c.network.bandwidth)
  }

  ghost predicate SupervisorFromNearest(files: Files, chain: seq<string>, c: Config)
    requires forall p | p in chain :: p in files
  {
    && FromNearest(files, chain, (f: Config) => f.supervisor.maxRestarts, (x: int) => x != 0, c.supervisor.maxRestarts)
    && FromNearest(files, chain, (f: Config) => f.supervisor.healthCheckThreshold, (x: int) => x != 0,
                   c.supervisor.healthCheckThreshold)
    && StringFrom(files, chain, (f: Config) => f.supervisor.healthCheckInterval, c.supervisor.healthCheckInterval)
    && StringFrom(files, chain, (f: Config) => f.supervisor.readyTimeout, c.supervisor.readyTimeout)
    && StringFrom(files, chain, (f: Config) => f.supervisor.backoffInitial, c.supervisor.backoffInitial)
    && StringFrom(files, chain, (f: Config) => f.supervisor.backoffMax, c.supervisor.backoffMax)
    && StringFrom(files, chain, (f: Config) => f.supervisor.maxConnectionAge, c.supervisor.maxConnectionAge)
    && StringFrom(files, chain, (f: Config) => f.supervisor.connectionMode, c.supervisor.connectionMode)
  }

  /** These come whole from the nearest file that says whether they are enabled. */
  ghost predicate SwitchesFromNearest(files: Files, chain: seq<string>, c: Config)
    requires forall p | p in chain :: p in files
  {
    && FromNearest(files, chain, (f: Config) => f.chaos, (x: ChaosConfig) => x.enabled != None, c.chaos)
    && FromNearest(files, chain, (f: Config) => f.socks, (x: ProxyServerConfig) => x.enabled != None, c.socks)
    && FromNearest(files, chain, (f: Config) => f.httpProxy, (x: ProxyServerConfig) => x.enabled != None, c.httpProxy)
  }

  lemma StringComes(files: Files, chain: seq<string>, get: Config -> string)
    requires chain != [] && (forall p | p in chain :: p in files)
    requires forall base, over :: get(Merged(base, over)) == if get(over) != "" then get(over) else get(base)
    ensures StringFrom(files, chain, get, get(MergedChain(files, chain)))
  {
    SettingsComeFromNearest(files, chain, get, (s: string) => s != "");
  }

  lemma StringsCome(files: Files, chain: seq<string>)
    requires chain != [] && (forall p | p in chain :: p in files)
    ensures StringsFromNearest(files, chain, MergedChain(files, chain))
    ensures NetworkFromNearest(files, chain, MergedChain(files, chain))
  {
    StringComes(files, chain, (f: Config) => f.context);
    StringComes(files, chain, (f: Config) => f.namespace);
    StringComes(files, chain, (f: Config) => f.logFilePath);
    StringComes(files, chain, (f: Config) => f.logLevel);
    StringComes(files, chain, (f: Config) => f.listen);
    StringComes(files, chain, (f: Config) => f.apiKey);
    StringComes(files, chain, (f: Config) => f.keyID);
    StringComes(files, chain, (f: Config) => f.host);
    StringComes(files, chain, (f: Config) => f.network.latency);
    StringComes(files, chain, (f: Config) => f.network.jitter);
    StringComes(files, chain, (f: Config) => f.network.bandwidth);
  }

  lemma SupervisorComes(files: Files, chain: seq<string>)
    requires chain != [] && (forall p | p in chain :: p in files)
    ensures SupervisorFromNearest(files, chain, MergedChain(files, chain))
  {
    SettingsComeFromNearest(files, chain, (f: Config) => f.supervisor.maxRestarts, (x: int) => x != 0);
    SettingsComeFromNearest(files, chain, (f: Config) => f.supervisor.healthCheckThreshold, (x: int) => x != 0);
    StringComes(files, chain, (f: Config) => f.supervisor.healthCheckInterval);
    StringComes(files, chain, (f: Config) => f.supervisor.readyTimeout);
    StringComes(files, chain, (f: Config) => f.supervisor.backoffInitial);
    StringComes(files, chain, (f: Config) => f.supervisor.backoffMax);
    StringComes(files, chain, (f: Config) => f.supervisor.maxConnectionAge);
    StringComes(files, chain, (f: Config) => f.supervisor.connectionMode);
  }

  lemma SwitchesCome(files: Files, chain: seq<string>)
    requires chain != [] && (forall p | p in chain :: p in files)
    ensures SwitchesFromNearest(files, chain, MergedChain(files, chain))
  {
    SettingsComeFromNearest(files, chain, (f: Config) => f.chaos, (x: ChaosConfig) => x.enabled != None);
    SettingsComeFromNearest(files, chain, (f: Config) => f.socks, (x: ProxyServerConfig) => x.enabled != None);
    SettingsComeFromNearest(files, chain, (f: Config) => f.httpProxy, (x: ProxyServerConfig) => x.enabled != None);
  }

  /** The definition of a service in the nearest file that has it. */
  ghost function NearestService(files: Files, chain: seq<string>, name: string): Option<ServiceConfig>
    requires forall p | p in chain :: p in files
  {
    if chain == [] then None
    else
      var here := Last(ServiceKey, files[chain[0]].services, name);
      if here.Some? then here else NearestService(files, chain[1..], name)
  }

  /** A service of the loaded config is the nearest file's definition of it,
      and no service of the chain is lost. */
  lemma {:induction false} ServicesComeFromNearest(files: Files, chain: seq<string>, name: string)
    requires chain != [] && forall p | p in chain :: p in files
    ensures Last(ServiceKey, MergedChain(files, chain).services, name) == NearestService(files, chain, name)
  {
    if |chain| == 1 {
      assert chain[1..] == [];
    } else {
      ServicesComeFromNearest(files, chain[1..], name);
      MergeLookup(ServiceKey, MergedChain(files, chain[1..]).services, files[chain[0]].services, name);
    }
  }

  /** The nearest file with a service of this name has this one, as its last. */
  ghost predicate NearestDefines(files: Files, chain: seq<string>, svc: ServiceConfig)
    requires forall p | p in chain :: p in files
  {
    exists i: nat :: i < |chain| && DefinesFirst(files, chain, svc, i)
  }

  ghost predicate DefinesFirst(files: Files, chain: seq<string>, svc: ServiceConfig, i: nat)
    requires i < |chain| && forall p | p in chain :: p in files
  {
    && LastOfItsName(files[chain[i]].services, svc)
    && forall j | 0 <= j < i :: !HasService(files[chain[j]].services, svc.name)
  }

  lemma FirstIsFurther(files: Files, chain: seq<string>, svc: ServiceConfig, i: nat)
    requires i + 1 < |chain| && forall p | p in chain :: p in files
    requires !HasService(files[chain[0]].services, svc.name)
    ensures DefinesFirst(files, chain, svc, i + 1) <==> DefinesFirst(files, chain[1..], svc, i)
  {
    var rest := chain[1..];
    if DefinesFirst(files, rest, svc, i) {
      forall j | 0 <= j < i + 1 ensures !HasService(files[chain[j]].services, svc.name) {
        if j > 0 { assert chain[j] == rest[j - 1]; }
      }
    }
    if DefinesFirst(files, chain, svc, i + 1) {
      assert forall j | 0 <= j < i :: rest[j] == chain[j + 1];
    }
  }

  lemma HasServiceIff(services: seq<ServiceConfig>, name: string)
    ensures HasService(services, name) <==> Last(ServiceKey, services, name).Some?
  {
    if HasService(services, name) {
      var i :| 0 <= i < |services| && services[i].name == name;
      assert ServiceKey(services[i]) == Some(name);
    }
  }

  lemma NearestIsHere(files: Files, chain: seq<string>, svc: ServiceConfig)
    requires chain != [] && forall p | p in chain :: p in files
    requires HasService(files[chain[0]].services, svc.name)
    ensures NearestDefines(files, chain, svc) <==> LastOfItsName(files[chain[0]].services, svc)
  {
    if LastOfItsName(files[chain[0]].services, svc) { assert DefinesFirst(files, chain, svc, 0); }
  }

  lemma NearestIsBeyond(files: Files, chain: seq<string>, svc: ServiceConfig)
    requires chain != [] && forall p | p in chain :: p in files
    requires !HasService(files[chain[0]].services, svc.name)
    ensures NearestDefines(files, chain, svc) <==> NearestDefines(files, chain[1..], svc)
  {
    if i: nat :| i < |chain[1..]| && DefinesFirst(files, chain[1..], svc, i) {
      FirstIsFurther(files, chain, svc, i);
    }
    if i: nat :| i < |chain| && DefinesFirst(files, chain, svc, i) {
      assert i > 0;
      FirstIsFurther(files, chain, svc, i - 1);
    }
  }

  lemma {:induction false} NearestServiceDefines(files: Files, chain: seq<string>, svc: ServiceConfig)
    requires forall p | p in chain :: p in files
    ensures NearestService(files, chain, svc.name) == Some(svc) <==> NearestDefines(files, chain, svc)
  {
    if chain != [] {
      var here := files[chain[0]].services;
      LastService(here, svc);
      HasServiceIff(here, svc.name);
      if HasService(here, svc.name) {
        NearestIsHere(files, chain, svc);
      } else {
        NearestServiceDefines(files, chain[1..], svc);
        NearestIsBeyond(files, chain, svc);
      }
    }
  }

  lemma ServiceComesFromNearest(files: Files, chain: seq<string>, svc: ServiceConfig)
    requires chain != [] && forall p | p in chain :: p in files
    ensures LastOfItsName(MergedChain(files, chain).services, svc) <==> NearestDefines(files, chain, svc)
  {
    ServicesComeFromNearest(files, chain, svc.name);
    NearestServiceDefines(files, chain, svc);
    LastService(MergedChain(files, chain).services, svc);
  }

  /** Together: a successful load has a chain of distinct files from the one
      named to one that extends nothing, and every setting and every service
      of the result is read from the nearest file of that chain. */
  lemma LoadedFromChain(files: Files, resolve: Resolver, path: string, loaded: Config) returns (chain: seq<string>)
    requires Load(files, resolve, path, []) == Ok(loaded)
    ensures Chain(files, resolve, chain) && chain[0] == path && Stops(files, resolve, chain, None)
    ensures forall p | p in chain :: p in files
    ensures StringsFromNearest(files, chain, loaded) && NetworkFromNearest(files, chain, loaded)
    ensures SupervisorFromNearest(files, chain, loaded) && SwitchesFromNearest(files, chain, loaded)
    ensures forall svc :: LastOfItsName(loaded.services, svc) <==> NearestDefines(files, chain, svc)
    ensures loaded.extendsPath == "" && loaded.filePath == files[path].filePath && loaded.format == files[path].format
  {
    assert [] + [path] == [path];
    var error;
    chain, error := LoadHasChain(files, resolve, path, []);
    assert [] + chain == chain;
    LoadFollowsChain(files, resolve, [], chain, error);
    StringsCome(files, chain);
    SupervisorComes(files, chain);
    SwitchesCome(files, chain);
    forall svc ensures LastOfItsName(loaded.services, svc) <==> NearestDefines(files, chain, svc) {
      ServiceComesFromNearest(files, chain, svc);
    }
  }
}
