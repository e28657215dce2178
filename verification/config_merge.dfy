// Merging a config over the config it extends. Lists are merged by name; an
// item without a key (an unnamed hook) never matches another one.
module ConfigMerge {
  import opened Wrappers
  import opened ConfigTypes

  // ---------------------------------------------------------------------
  // Lists
  // ---------------------------------------------------------------------

  type Key<!T> = T -> Option<string>

  function ServiceKey(s: ServiceConfig): Option<string> { Some(s.name) }

  function HookKey(h: HookConfig): Option<string> { if h.name == "" then None else Some(h.name) }

  /** The last item with this key. */
  function Last<T>(key: Key<T>, xs: seq<T>, name: string): (r: Option<T>)
    ensures r.Some? ==> key(r.value) == Some(name) && r.value in xs
    ensures r.Some? <==> exists i :: 0 <= i < |xs| && key(xs[i]) == Some(name)
  {
    if xs == [] then None
    else if key(xs[|xs| - 1]) == Some(name) then Some(xs[|xs| - 1])
    else
      var r := Last(key, xs[..|xs| - 1], name);
      assert r.Some? ==> r.value in xs[..|xs| - 1];
      r
  }

  predicate Has<T>(key: Key<T>, xs: seq<T>, x: T) {
    key(x).Some? && Last(key, xs, key(x).value).Some?
  }

  function ReplaceOne<T>(key: Key<T>, x: T, over: seq<T>): T {
    if Has(key, over, x) then Last(key, over, key(x).value).value else x
  }

  /** Every item of base, in its place, with over's definition of it if any. */
  function Replaced<T>(key: Key<T>, base: seq<T>, over: seq<T>): (r: seq<T>)
    ensures |r| == |base|
    ensures forall i | 0 <= i < |base| :: r[i] == ReplaceOne(key, base[i], over)
  {
    if base == [] then []
    else Replaced(key, base[..|base| - 1], over) + [ReplaceOne(key, base[|base| - 1], over)]
  }

  /** The items of over that base does not have, in over's order. */
  function Additions<T>(key: Key<T>, over: seq<T>, base: seq<T>): seq<T> {
    if over == [] then []
    else
      var x := over[|over| - 1];
      Additions(key, over[..|over| - 1], base) + if Has(key, base, x) then [] else [x]
  }

  function MergedLists<T>(key: Key<T>, base: seq<T>, over: seq<T>): seq<T> {
    Replaced(key, base, over) + Additions(key, over, base)
  }

  lemma {:induction false} LastAppend<T>(key: Key<T>, a: seq<T>, b: seq<T>, name: string)
    ensures Last(key, a + b, name) == if Last(key, b, name).Some? then Last(key, b, name) else Last(key, a, name)
  {
    if b == [] {
      assert a + b == a;
    } else {
      assert (a + b)[..|a + b| - 1] == a + b[..|b| - 1];
      LastAppend(key, a, b[..|b| - 1], name);
    }
  }

  lemma {:induction false} LastReplaced<T>(key: Key<T>, base: seq<T>, over: seq<T>, name: string)
    ensures Last(key, Replaced(key, base, over), name) ==
            if Last(key, base, name).None? then None
            else if Last(key, over, name).Some? then Last(key, over, name)
            else Last(key, base, name)
  {
    if base != [] {
      var r := Replaced(key, base, over);
      LastReplaced(key, base[..|base| - 1], over, name);
      assert r[..|r| - 1] == Replaced(key, base[..|base| - 1], over);
    }
  }

  lemma {:induction false} LastAdditions<T>(key: Key<T>, over: seq<T>, base: seq<T>, name: string)
    ensures Last(key, Additions(key, over, base), name) ==
            if Last(key, base, name).Some? then None else Last(key, over, name)
  {
    if over != [] {
      LastAdditions(key, over[..|over| - 1], base, name);
      var x := over[|over| - 1];
      var init := Additions(key, over[..|over| - 1], base);
      assert init + [] == init;
      LastAppend(key, init, [x], name);
      assert [x][..0] == [];
    }
  }

  /** Looking a name up in a merged list: the overriding list decides if it has
      the name at all. */
  lemma MergeLookup<T>(key: Key<T>, base: seq<T>, over: seq<T>, name: string)
    ensures Last(key, MergedLists(key, base, over), name) ==
            if Last(key, over, name).Some? then Last(key, over, name) else Last(key, base, name)
  {
    LastAppend(key, Replaced(key, base, over), Additions(key, over, base), name);
    LastReplaced(key, base, over, name);
    LastAdditions(key, over, base, name);
  }

  lemma MergeHas<T>(key: Key<T>, a: seq<T>, b: seq<T>, x: T)
    ensures Has(key, MergedLists(key, a, b), x) <==> Has(key, a, x) || Has(key, b, x)
  {
    if key(x).Some? { MergeLookup(key, a, b, key(x).value); }
  }

  lemma {:induction false} AdditionsAppend<T>(key: Key<T>, a: seq<T>, b: seq<T>, base: seq<T>)
    ensures Additions(key, a + b, base) == Additions(key, a, base) + Additions(key, b, base)
  {
    if b == [] {
      assert a + b == a;
    } else {
      assert (a + b)[..|a + b| - 1] == a + b[..|b| - 1];
      AdditionsAppend(key, a, b[..|b| - 1], base);
    }
  }

  lemma ReplacedAppend<T>(key: Key<T>, a: seq<T>, b: seq<T>, over: seq<T>)
    ensures Replaced(key, a + b, over) == Replaced(key, a, over) + Replaced(key, b, over)
  {}

  lemma ReplaceTwice<T>(key: Key<T>, a: seq<T>, b: seq<T>, c: seq<T>)
    ensures Replaced(key, Replaced(key, a, b), c) == Replaced(key, a, MergedLists(key, b, c))
  {
    forall i | 0 <= i < |a|
      ensures ReplaceOne(key, ReplaceOne(key, a[i], b), c) == ReplaceOne(key, a[i], MergedLists(key, b, c))
    {
      if key(a[i]).Some? { MergeLookup(key, b, c, key(a[i]).value); }
    }
  }

  lemma {:induction false} AdditionsCommute<T>(key: Key<T>, a: seq<T>, b: seq<T>, c: seq<T>)
    ensures Replaced(key, Additions(key, b, a), c) == Additions(key, Replaced(key, b, c), a)
  {
    if b != [] {
      var b', x := b[..|b| - 1], b[|b| - 1];
      AdditionsCommute(key, a, b', c);
      ReplacedAppend(key, Additions(key, b', a), if Has(key, a, x) then [] else [x], c);
      assert Replaced(key, b, c)[..|b| - 1] == Replaced(key, b', c);
      assert Has(key, a, ReplaceOne(key, x, c)) == Has(key, a, x);
    }
  }

  lemma {:induction false} AdditionsTwice<T>(key: Key<T>, a: seq<T>, b: seq<T>, c: seq<T>)
    ensures Additions(key, c, MergedLists(key, a, b)) == Additions(key, Additions(key, c, b), a)
  {
    if c != [] {
      var x := c[|c| - 1];
      AdditionsTwice(key, a, b, c[..|c| - 1]);
      MergeHas(key, a, b, x);
      AdditionsAppend(key, Additions(key, c[..|c| - 1], b), if Has(key, b, x) then [] else [x], a);
      assert [x][..0] == [];
    }
  }

  /** Merging three lists does not depend on which two are merged first. This
      holds of all lists, with or without repeated names. */
  lemma MergeListsAssociative<T>(key: Key<T>, a: seq<T>, b: seq<T>, c: seq<T>)
    ensures MergedLists(key, MergedLists(key, a, b), c) == MergedLists(key, a, MergedLists(key, b, c))
  {
    ReplacedAppend(key, Replaced(key, a, b), Additions(key, b, a), c);
    ReplaceTwice(key, a, b, c);
    AdditionsCommute(key, a, b, c);
    AdditionsAppend(key, Replaced(key, b, c), Additions(key, c, b), a);
    AdditionsTwice(key, a, b, c);
    ThreeParts(Replaced(key, a, MergedLists(key, b, c)), Additions(key, Replaced(key, b, c), a),
               Additions(key, Additions(key, c, b), a));
  }

  lemma ThreeParts<T>(x: seq<T>, y: seq<T>, z: seq<T>)
    ensures (x + y) + z == x + (y + z)
  {}

  ghost predicate Unique<T>(key: Key<T>, xs: seq<T>) {
    forall i, j | 0 <= i < j < |xs| && key(xs[i]).Some? :: key(xs[i]) != key(xs[j])
  }

  lemma {:induction false} AdditionsAreNew<T>(key: Key<T>, over: seq<T>, base: seq<T>)
    ensures forall x | x in Additions(key, over, base) :: !Has(key, base, x) && x in over
    ensures Unique(key, over) ==> Unique(key, Additions(key, over, base))
  {
    if over != [] {
      AdditionsAreNew(key, over[..|over| - 1], base);
      var init := Additions(key, over[..|over| - 1], base);
      var x := over[|over| - 1];
      forall y | y in init ensures y in over[..|over| - 1] && y in over {}
      if Unique(key, over) {
        assert forall y | y in over[..|over| - 1] && key(y).Some? :: key(y) != key(x);
      }
    }
  }

  /** Unique names stay unique, and the names of the base come first, in the
      base's order. */
  lemma MergeKeepsUnique<T>(key: Key<T>, base: seq<T>, over: seq<T>)
    requires Unique(key, base) && Unique(key, over)
    ensures Unique(key, MergedLists(key, base, over))
    ensures forall i | 0 <= i < |base| :: key(MergedLists(key, base, over)[i]) == key(base[i])
  {
    AdditionsAreNew(key, over, base);
    var r, a := Replaced(key, base, over), Additions(key, over, base);
    forall i, j | 0 <= i < |r| && 0 <= j < |a| && key(r[i]).Some?
      ensures key(r[i]) != key(a[j])
    {
      assert a[j] in a;
      assert key(base[i]) == key(r[i]);
    }
  }

  // ---------------------------------------------------------------------
  // The two loops
  // ---------------------------------------------------------------------

  ghost predicate Indexes<T(!new)>(key: Key<T>, m: map<string, T>, xs: seq<T>) {
    forall n :: (n in m <==> Last(key, xs, n).Some?) && (n in m ==> Last(key, xs, n) == Some(m[n]))
  }

  /** The overrides by name; of equal names the last. */
  method IndexByName<T(!new)>(key: Key<T>, xs: seq<T>) returns (m: map<string, T>)
    ensures Indexes(key, m, xs)
  {
    m := map[];
    for i := 0 to |xs|
      invariant Indexes(key, m, xs[..i])
    {
      assert xs[..i + 1][..i] == xs[..i];
      var name := key(xs[i]);
      if name.Some? { m := m[name.value := xs[i]]; }
    }
    assert xs[..|xs|] == xs;
  }

  /** The base in its order, each replaced by its override if it has one, and
      the names seen. */
  method ReplaceBase<T(!new)>(key: Key<T>, base: seq<T>, ghost over: seq<T>, overrideByName: map<string, T>)
    returns (result: seq<T>, seen: set<string>)
    requires Indexes(key, overrideByName, over)
    ensures result == Replaced(key, base, over)
    ensures forall n :: n in seen <==> Last(key, base, n).Some?
  {
    result, seen := [], {};
    for i := 0 to |base|
      invariant result == Replaced(key, base[..i], over)
      invariant forall n :: n in seen <==> Last(key, base[..i], n).Some?
    {
      assert base[..i + 1][..i] == base[..i];
      var name := key(base[i]);
      if name.Some? && name.value in overrideByName {
        result := result + [overrideByName[name.value]];
      } else {
        result := result + [base[i]];
      }
      if name.Some? { seen := seen + {name.value}; }
    }
    assert base[..|base|] == base;
  }

  /** The overrides that are not in the base, in their order; one without a
      name always. */
  method CollectNew<T(!new)>(key: Key<T>, over: seq<T>, ghost base: seq<T>, seen: set<string>) returns (more: seq<T>)
    requires forall n :: n in seen <==> Last(key, base, n).Some?
    ensures more == Additions(key, over, base)
  {
    more := [];
    for i := 0 to |over|
      invariant more == Additions(key, over[..i], base)
    {
      assert over[..i + 1][..i] == over[..i];
      var name := key(over[i]);
      if name.None? || name.value !in seen { more := more + [over[i]]; }
    }
    assert over[..|over|] == over;
  }

  method MergeServices(base: seq<ServiceConfig>, over: seq<ServiceConfig>) returns (result: seq<ServiceConfig>)
    ensures result == MergedLists(ServiceKey, base, over)
  {
    var overrideByName := IndexByName(ServiceKey, over);
    var kept, seen := ReplaceBase(ServiceKey, base, over, overrideByName);
    var more := CollectNew(ServiceKey, over, base, seen);
    return kept + more;
  }

  /** A hook without a name replaces nothing and is never replaced. */
  method MergeHooks(base: seq<HookConfig>, over: seq<HookConfig>) returns (result: seq<HookConfig>)
    ensures result == MergedLists(HookKey, base, over)
  {
    var overrideByName := IndexByName(HookKey, over);
    var kept, seen := ReplaceBase(HookKey, base, over, overrideByName);
    var more := CollectNew(HookKey, over, base, seen);
    return kept + more;
  }

  // ---------------------------------------------------------------------
  // Merged services and hooks, by name and place
  // ---------------------------------------------------------------------

  lemma LastOfMore(init: seq<ServiceConfig>, last: ServiceConfig, svc: ServiceConfig)
    ensures LastOfItsName(init + [last], svc) <==> last == svc || (last.name != svc.name && LastOfItsName(init, svc))
  {
    var more := init + [last];
    assert more[|init|] == last && forall i | 0 <= i < |init| :: more[i] == init[i];
    if last != svc && LastOfItsName(more, svc) {
      var i :| 0 <= i < |more| && more[i] == svc && forall j | i < j < |more| :: more[j].name != svc.name;
      assert init[i] == svc && forall j | i < j < |init| :: init[j].name != svc.name;
    }
    if last.name != svc.name && LastOfItsName(init, svc) {
      var i :| 0 <= i < |init| && init[i] == svc && forall j | i < j < |init| :: init[j].name != svc.name;
      assert more[i] == svc;
    }
  }

  lemma {:induction false} LastService(services: seq<ServiceConfig>, svc: ServiceConfig)
    ensures Last(ServiceKey, services, svc.name) == Some(svc) <==> LastOfItsName(services, svc)
  {
    if services != [] {
      var init, last := services[..|services| - 1], services[|services| - 1];
      LastService(init, svc);
      assert services == init + [last];
      LastOfMore(init, last, svc);
    }
  }

  ghost predicate HasService(services: seq<ServiceConfig>, name: string) {
    exists i :: 0 <= i < |services| && services[i].name == name
  }

  /** A service of the base keeps its place, and is what the last override of its
      name says if there is one; then come the overrides of other names. */
  lemma ServicesInPlace(base: seq<ServiceConfig>, over: seq<ServiceConfig>)
    ensures var r := MergedLists(ServiceKey, base, over);
            && |r| >= |base|
            && (forall i | 0 <= i < |base| ::
                  if HasService(over, base[i].name) then LastOfItsName(over, r[i]) && r[i].name == base[i].name
                  else r[i] == base[i])
            && (forall x :: x in r[|base|..] <==> x in over && !HasService(base, x.name))
  {
    var r := MergedLists(ServiceKey, base, over);
    forall i | 0 <= i < |base|
      ensures if HasService(over, base[i].name) then LastOfItsName(over, r[i]) && r[i].name == base[i].name
              else r[i] == base[i]
    {
      assert r[i] == ReplaceOne(ServiceKey, base[i], over);
      if HasService(over, base[i].name) {
        var k :| 0 <= k < |over| && over[k].name == base[i].name;
        assert ServiceKey(over[k]) == Some(base[i].name);
        LastService(over, r[i]);
      }
    }
    assert r[|base|..] == Additions(ServiceKey, over, base);
    forall x ensures x in r[|base|..] <==> x in over && !HasService(base, x.name) {
      AdditionsIff(ServiceKey, over, base, x);
    }
  }

  lemma {:induction false} AdditionsIff<T>(key: Key<T>, over: seq<T>, base: seq<T>, x: T)
    ensures x in Additions(key, over, base) <==> x in over && !Has(key, base, x)
  {
    if over != [] {
      AdditionsIff(key, over[..|over| - 1], base, x);
      assert over == over[..|over| - 1] + [over[|over| - 1]];
    }
  }

  ghost predicate HasHook(hooks: seq<HookConfig>, name: string) {
    exists i :: 0 <= i < |hooks| && hooks[i].name == name
  }

  /** The same of hooks, but one without a name stays as it is in the base, and
      is never left out of the overrides. */
  lemma HooksInPlace(base: seq<HookConfig>, over: seq<HookConfig>)
    ensures var r := MergedLists(HookKey, base, over);
            && |r| >= |base|
            && (forall i | 0 <= i < |base| ::
                  if base[i].name != "" && HasHook(over, base[i].name) then r[i] in over && r[i].name == base[i].name
                  else r[i] == base[i])
            && (forall x :: x in r[|base|..] <==> x in over && (x.name == "" || !HasHook(base, x.name)))
  {
    var r := MergedLists(HookKey, base, over);
    forall i | 0 <= i < |base|
      ensures if base[i].name != "" && HasHook(over, base[i].name) then r[i] in over && r[i].name == base[i].name
              else r[i] == base[i]
    {
      assert r[i] == ReplaceOne(HookKey, base[i], over);
      if base[i].name != "" && HasHook(over, base[i].name) {
        var k :| 0 <= k < |over| && over[k].name == base[i].name;
        assert HookKey(over[k]) == Some(base[i].name);
      }
    }
    assert r[|base|..] == Additions(HookKey, over, base);
    forall x ensures x in r[|base|..] <==> x in over && (x.name == "" || !HasHook(base, x.name)) {
      AdditionsIff(HookKey, over, base, x);
    }
  }

  // ---------------------------------------------------------------------
  // Whole configs
  // ---------------------------------------------------------------------

  /** The first of two settings that is set. */
  function Or(over: string, base: string): string { if over != "" then over else base }

  function OrInt(over: int, base: int): int { if over != 0 then over else base }

  function MergedSupervisor(base: SupervisorConfig, over: SupervisorConfig): SupervisorConfig {
    SupervisorConfig(
      OrInt(over.maxRestarts, base.maxRestarts), Or(over.healthCheckInterval, base.healthCheckInterval),
      OrInt(over.healthCheckThreshold, base.healthCheckThreshold), Or(over.readyTimeout, base.readyTimeout),
      Or(over.backoffInitial, base.backoffInitial), Or(over.backoffMax, base.backoffMax),
      Or(over.maxConnectionAge, base.maxConnectionAge), Or(over.connectionMode, base.connectionMode))
  }

  function ResolveNetwork(base: NetworkConfig, over: NetworkConfig): NetworkConfig {
    NetworkConfig(Or(over.latency, base.latency), Or(over.jitter, base.jitter), Or(over.bandwidth, base.bandwidth))
  }

  /** Chaos and proxy settings are taken as a whole from the override as soon
      as it says whether they are enabled. */
  function Merged(base: Config, over: Config): Config {
    Config(
      "", Or(over.context, base.context), Or(over.namespace, base.namespace), Or(over.logFilePath, base.logFilePath),
      Or(over.logLevel, base.logLevel), Or(over.listen, base.listen), Or(over.apiKey, base.apiKey),
      Or(over.keyID, base.keyID), Or(over.host, base.host),
      MergedLists(ServiceKey, base.services, over.services), MergedLists(HookKey, base.hooks, over.hooks),
      MergedSupervisor(base.supervisor, over.supervisor), ResolveNetwork(base.network, over.network),
      if over.chaos.enabled.None? then base.chaos else over.chaos,
      if over.socks.enabled.None? then base.socks else over.socks,
      if over.httpProxy.enabled.None? then base.httpProxy else over.httpProxy,
      over.filePath, over.format)
  }

  method MergeSupervisor(base: SupervisorConfig, over: SupervisorConfig) returns (result: SupervisorConfig)
    ensures result == MergedSupervisor(base, over) && PrefersEachOf(over, base, result)
  {
    result := base;
    if over.maxRestarts != 0 { result := result.(maxRestarts := over.maxRestarts); }
    if over.healthCheckInterval != "" { result := result.(healthCheckInterval := over.healthCheckInterval); }
    if over.healthCheckThreshold != 0 { result := result.(healthCheckThreshold := over.healthCheckThreshold); }
    if over.readyTimeout != "" { result := result.(readyTimeout := over.readyTimeout); }
    if over.backoffInitial != "" { result := result.(backoffInitial := over.backoffInitial); }
    if over.backoffMax != "" { result := result.(backoffMax := over.backoffMax); }
    if over.maxConnectionAge != "" { result := result.(maxConnectionAge := over.maxConnectionAge); }
    if over.connectionMode != "" { result := result.(connectionMode := over.connectionMode); }
  }

  /** The override's value if it is set, else the base's. */
  ghost predicate Prefers(over: string, base: string, r: string) {
    (over != "" ==> r == over) && (over == "" ==> r == base)
  }

  ghost predicate PrefersEach(over: Config, base: Config, r: Config) {
    && Prefers(over.context, base.context, r.context) && Prefers(over.namespace, base.namespace, r.namespace)
    && Prefers(over.logFilePath, base.logFilePath, r.logFilePath) && Prefers(over.logLevel, base.logLevel, r.logLevel)
    && Prefers(over.listen, base.listen, r.listen) && Prefers(over.apiKey, base.apiKey, r.apiKey)
    && Prefers(over.keyID, base.keyID, r.keyID) && Prefers(over.host, base.host, r.host)
    && Prefers(over.network.latency, base.network.latency, r.network.latency)
    && Prefers(over.network.jitter, base.network.jitter, r.network.jitter)
    && Prefers(over.network.bandwidth, base.network.bandwidth, r.network.bandwidth)
    && r.chaos == (if over.chaos.enabled == None then base.chaos else over.chaos)
    && r.socks == (if over.socks.enabled == None then base.socks else over.socks)
    && r.httpProxy == (if over.httpProxy.enabled == None then base.httpProxy else over.httpProxy)
    && r.extendsPath == "" && r.filePath == over.filePath && r.format == over.format
  }

  ghost predicate PrefersEachOf(over: SupervisorConfig, base: SupervisorConfig, r: SupervisorConfig) {
    && r.maxRestarts == (if over.maxRestarts == 0 then base.maxRestarts else over.maxRestarts)
    && r.healthCheckThreshold
       == (if over.healthCheckThreshold == 0 then base.healthCheckThreshold else over.healthCheckThreshold)
    && Prefers(over.healthCheckInterval, base.healthCheckInterval, r.healthCheckInterval)
    && Prefers(over.readyTimeout, base.readyTimeout, r.readyTimeout)
    && Prefers(over.backoffInitial, base.backoffInitial, r.backoffInitial)
    && Prefers(over.backoffMax, base.backoffMax, r.backoffMax)
    && Prefers(over.maxConnectionAge, base.maxConnectionAge, r.maxConnectionAge)
    && Prefers(over.connectionMode, base.connectionMode, r.connectionMode)
  }

  lemma MergedPrefers(base: Config, over: Config)
    ensures PrefersEach(over, base, Merged(base, over))
    ensures PrefersEachOf(over.supervisor, base.supervisor, Merged(base, over).supervisor)
  {}

  method MergeConfigs(base: Config, over: Config) returns (result: Config)
    ensures result == Merged(base, over)
    ensures PrefersEach(over, base, result) && PrefersEachOf(over.supervisor, base.supervisor, result.supervisor)
  {
    result := InheritStrings(base, over);
    var supervisor := MergeSupervisor(base.supervisor, over.supervisor);
    var chaos, socks, httpProxy := over.chaos, over.socks, over.httpProxy;
    if over.chaos.enabled.None? { chaos := base.chaos; }
    if over.socks.enabled.None? { socks := base.socks; }
    if over.httpProxy.enabled.None? { httpProxy := base.httpProxy; }
    var services := MergeServices(base.services, over.services);
    var hooks := MergeHooks(base.hooks, over.hooks);
    result := result.(supervisor := supervisor, network := ResolveNetwork(base.network, over.network),
                      chaos := chaos, socks := socks, httpProxy := httpProxy,
                      services := services, hooks := hooks, extendsPath := "");
    MergedPrefers(base, over);
  }

  /** The first half of mergeConfigs: the plain string settings. */
  method InheritStrings(base: Config, over: Config) returns (result: Config)
    ensures result == over.(
        context := Or(over.context, base.context), namespace := Or(over.namespace, base.namespace),
        logFilePath := Or(over.logFilePath, base.logFilePath), logLevel := Or(over.logLevel, base.logLevel),
        listen := Or(over.listen, base.listen), apiKey := Or(over.apiKey, base.apiKey),
        keyID := Or(over.keyID, base.keyID), host := Or(over.host, base.host))
  {
    var context, namespace, listen, apiKey := over.context, over.namespace, over.listen, over.apiKey;
    var keyID, host, logFilePath, logLevel := over.keyID, over.host, over.logFilePath, over.logLevel;
    if context == "" { context := base.context; }
    if namespace == "" { namespace := base.namespace; }
    if listen == "" { listen := base.listen; }
    if apiKey == "" { apiKey := base.apiKey; }
    if keyID == "" { keyID := base.keyID; }
    if host == "" { host := base.host; }
    if logFilePath == "" { logFilePath := base.logFilePath; }
    if logLevel == "" { logLevel := base.logLevel; }
    result := over.(context := context, namespace := namespace, listen := listen, apiKey := apiKey,
                    keyID := keyID, host := host, logFilePath := logFilePath, logLevel := logLevel);
  }

  /** The order in which a chain of three configs is merged does not matter. */
  lemma MergeAssociative(a: Config, b: Config, c: Config)
    ensures Merged(Merged(a, b), c) == Merged(a, Merged(b, c))
  {
    MergeListsAssociative(ServiceKey, a.services, b.services, c.services);
    MergeListsAssociative(HookKey, a.hooks, b.hooks, c.hooks);
  }
}
