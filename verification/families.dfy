// A quiescent ledger seen as a set of top-level services, each owning its
// forwards, and what removing whole services does to it.
module Families {
  import opened Wrappers
  import opened Text
  import opened ConfigTypes
  import opened Address
  import opened Ledger
  import opened Removal

  /** What a user calls a service: a forward that is nobody's child, or a
      multi-port parent. */
  ghost function TopLevel(st: State): set<string> {
    (set n | n in st.forwards && Parent(st.forwards[n]) == "") + st.children.Keys
  }

  ghost function OwnerOf(st: State, n: string): string
    requires n in st.forwards
  {
    if Parent(st.forwards[n]) == "" then n else Parent(st.forwards[n])
  }

  /** Every list names live forwards of that parent, once, and none of them is
      a parent itself. */
  ghost predicate Live(st: State) {
    forall p | p in st.children ::
      NoDuplicates(st.children[p]) &&
      forall c | c in st.children[p] :: c in st.forwards && Parent(st.forwards[c]) == p && c !in st.children
  }

  /** No command and no resolution is under way. */
  ghost predicate Quiescent(st: State) {
    Orderly(st) && Live(st) && st.pending == multiset{} && st.queue == []
  }

  // ---------------------------------------------------------------------
  // The ledger without some services
  // ---------------------------------------------------------------------

  ghost function Without(st: State, services: set<string>): State {
    var forwards := map n | n in st.forwards && OwnerOf(st, n) !in services :: st.forwards[n];
    st.(forwards := forwards, order := Only(st.order, forwards.Keys), children := st.children - services)
  }

  lemma {:induction false} OnlyKeepsDistinct(order: seq<string>, keys: set<string>)
    requires NoDuplicates(order)
    ensures NoDuplicates(Only(order, keys))
  {
    if order != [] {
      OnlyKeepsDistinct(order[1..], keys);
      OnlyMembers(order[1..], keys);
      assert order == [order[0]] + order[1..];
      if order[0] in keys {
        NoDuplicatesCons(order[0], order[1..]);
        NoDuplicatesCons(order[0], Only(order[1..], keys));
      } else {
        assert [] + Only(order[1..], keys) == Only(order[1..], keys);
      }
    }
  }

  lemma WithoutKeepsAgreement(st: State, services: set<string>)
    requires Agreement(st)
    ensures Agreement(Without(st, services))
  {
    OnlyKeepsDistinct(st.order, Without(st, services).forwards.Keys);
    OnlyMembers(st.order, Without(st, services).forwards.Keys);
  }

  lemma WithoutKeepsConsistent(st: State, services: set<string>)
    requires Consistent(st)
    ensures Consistent(Without(st, services))
  {
    WithoutKeepsAgreement(st, services);
  }

  lemma WithoutKeepsTogether(st: State, services: set<string>)
    requires Together(st) && st.queue == []
    ensures Together(Without(st, services))
  {
    var r := Without(st, services);
    forall n | n in r.forwards && Parent(r.forwards[n]) != "" ensures Tracked(r, n, Parent(r.forwards[n])) {
      assert Tracked(st, n, Parent(st.forwards[n]));
    }
  }

  lemma WithoutKeepsLive(st: State, services: set<string>)
    requires Live(st) && "" !in st.children
    ensures Live(Without(st, services))
  {
    var r := Without(st, services);
    forall p, c | p in r.children && c in r.children[p]
      ensures c in r.forwards && Parent(r.forwards[c]) == p && c !in r.children
    {
      assert p in st.children && c in st.children[p];
      assert OwnerOf(st, c) == p;
    }
  }

  lemma NoSlashNoChild(st: State, n: string)
    requires NoOrphans(st) && ListsHaveSlashes(st.children) && st.queue == [] && n in st.forwards && '/' !in n
    ensures Parent(st.forwards[n]) == ""
  {
    assert Parent(st.forwards[n]) != "" ==> Tracked(st, n, Parent(st.forwards[n]));
  }

  lemma WithoutKeepsAlive(st: State, services: set<string>)
    requires NoOrphans(st) && Alive(st) && st.queue == []
    ensures Alive(Without(st, services))
  {
    var r := Without(st, services);
    forall p | p in r.children && '/' !in p ensures Shows(r, p) {
      assert Shows(st, p);
      if p in st.forwards { NoSlashNoChild(st, p); }
    }
  }

  /** A quiescent ledger stays quiescent when whole services leave. */
  lemma WithoutKeepsQuiescent(st: State, services: set<string>)
    requires Quiescent(st)
    ensures Quiescent(Without(st, services))
  {
    WithoutKeepsConsistent(st, services);
    WithoutKeepsTogether(st, services);
    WithoutKeepsAlive(st, services);
    WithoutKeepsLive(st, services);
  }

  /** It leaves all other services and takes those. */
  lemma WithoutTopLevel(st: State, services: set<string>)
    ensures TopLevel(Without(st, services)) == TopLevel(st) - services
  {}

  lemma WithoutNothing(st: State)
    requires Agreement(st)
    ensures Without(st, {}) == st
  {
    assert Without(st, {}).forwards == st.forwards;
    OnlyAll(st.order, st.forwards.Keys);
    assert st.children - {} == st.children;
  }

  /** Services leave independently of each other, in any order. */
  lemma WithoutTwice(st: State, a: set<string>, b: set<string>)
    ensures Without(Without(st, a), b) == Without(st, a + b)
  {
    var r, all := Without(Without(st, a), b), Without(st, a + b);
    assert r.forwards == all.forwards;
    OnlyOnly(st.order, Without(st, a).forwards.Keys, all.forwards.Keys);
    DropTwice(st.children, a, b);
  }

  lemma OwnersAreTopLevel(st: State, n: string)
    requires NoOrphans(st) && st.queue == [] && n in st.forwards
    ensures OwnerOf(st, n) in TopLevel(st)
  {
    if Parent(st.forwards[n]) != "" { assert Tracked(st, n, Parent(st.forwards[n])); }
  }

  /** Only names of services matter. */
  lemma WithoutTheSame(st: State, a: set<string>, b: set<string>)
    requires NoOrphans(st) && st.queue == [] && a * TopLevel(st) == b * TopLevel(st)
    ensures Without(st, a) == Without(st, b)
  {
    forall n | n in st.forwards ensures OwnerOf(st, n) in a <==> OwnerOf(st, n) in b {
      OwnersAreTopLevel(st, n);
      assert OwnerOf(st, n) in a <==> OwnerOf(st, n) in a * TopLevel(st);
    }
    assert Without(st, a).forwards == Without(st, b).forwards;
    forall p | p in st.children ensures p in a <==> p in b {
      assert p in a <==> p in a * TopLevel(st);
    }
    assert st.children - a == st.children - b;
  }

  // ---------------------------------------------------------------------
  // Removing a service
  // ---------------------------------------------------------------------

  /** Not somebody's child. */
  ghost predicate NotAChild(st: State, name: string) {
    name in st.forwards ==> Parent(st.forwards[name]) == ""
  }

  lemma ParentsAreNoChildren(st: State, p: string)
    requires Live(st) && NoOrphans(st) && st.queue == [] && p in st.children
    ensures NotAChild(st, p)
  {
    assert p in st.forwards && Parent(st.forwards[p]) != "" ==> Tracked(st, p, Parent(st.forwards[p]));
  }

  lemma TargetsAreOwned(st: State, name: string)
    requires Orderly(st) && Live(st) && st.queue == [] && name != "" && NotAChild(st, name)
    ensures forall n | n in st.forwards :: n in Targets(st, name) <==> OwnerOf(st, n) == name
  {
    forall n | n in st.forwards ensures n in Targets(st, name) <==> OwnerOf(st, n) == name {
      if Parent(st.forwards[n]) != "" {
        assert Tracked(st, n, Parent(st.forwards[n]));
      }
    }
  }

  lemma ListedAreThere(st: State, p: string)
    requires Live(st) && p in st.children
    ensures AllThereOnce(st.forwards - {p}, st.children[p])
  {}

  /** Removing a name that is nobody's child takes out that service, and
      succeeds exactly when there was one. */
  lemma RemoveTakesTheService(st: State, name: string)
    requires Quiescent(st) && name != "" && NotAChild(st, name)
    ensures DoRemove(st, name) == Removed(Without(st, {name}), name in TopLevel(st))
  {
    RemoveLeaves(st, name);
    RemoveSucceedsIff(st, name);
    if name in st.children { ListedAreThere(st, name); }
  }

  lemma RemoveLeaves(st: State, name: string)
    requires Quiescent(st) && name != "" && NotAChild(st, name)
    ensures DoRemove(st, name).after == Without(st, {name})
  {
    RemoveIsExact(st, name);
    OwnedLeave(st, name);
  }

  lemma OwnedLeave(st: State, name: string)
    requires Quiescent(st) && name != "" && NotAChild(st, name)
    ensures st.forwards - Targets(st, name) == Without(st, {name}).forwards
  {
    TargetsAreOwned(st, name);
  }

  /** Removing a child by its own name, which the manager allows, leaves its
      parent with a list that names a missing forward, so that removing the
      parent later reports an error. */
  lemma RemovingAChildSpoilsItsParent(st: State, p: string, c: string)
    requires Quiescent(st) && p in st.children && c in st.children[p]
    ensures var r := DoRemove(st, c);
            r.ok && p in r.after.children && !Live(r.after) && !DoRemove(r.after, p).ok
  {
    assert c !in st.children;
    RemoveIsExact(st, c);
    RemoveSucceedsIff(st, c);
    RemoveSucceedsIff(DoRemove(st, c).after, p);
    assert c !in DoRemove(st, c).after.forwards;
  }

  /** A resolution leaves sound lists exactly when it names no child twice and
      none like a forward or a multi-port service that is there. */
  lemma LiveAfterResolutionIff(st: State, svc: ServiceConfig, ports: seq<ResolvedPort>)
    requires Orderly(st) && Live(st) && st.queue == [] && svc in st.pending && svc.name in st.children
    ensures Live(Resolved(st, svc, ports)) <==>
            NoDuplicates(ChildNames(svc, ports))
            && forall n | n in ChildNames(svc, ports) :: n !in st.forwards && n !in st.children
  {
    var r, names := Resolved(st, svc, ports), ChildNames(svc, ports);
    RegisteredFrame(st, svc, ports);
    EmptyListNoChild(st, svc.name);
    if Live(r) {
      assert r.children[svc.name] == names;
      forall n | n in names ensures n !in st.forwards && n !in st.children { assert Parent(r.forwards[n]) == svc.name; }
    }
    if NoDuplicates(names) && forall n | n in names :: n !in st.forwards && n !in st.children {
      ListsStaySound(st, svc.name, names, r);
    }
  }

  lemma ListsStaySound(st: State, parent: string, names: seq<string>, r: State)
    requires Live(st) && parent in st.children && r.children == st.children[parent := names]
    requires forall n | n in st.forwards :: n in r.forwards && r.forwards[n] == st.forwards[n]
    requires NoDuplicates(names)
    requires forall n | n in names :: n in r.forwards && Parent(r.forwards[n]) == parent && n !in st.children
    ensures Live(r)
  {
    forall p, c | p in r.children && c in r.children[p]
      ensures c in r.forwards && Parent(r.forwards[c]) == p && c !in r.children
    {
      assert p != parent ==> c in st.children[p];
    }
  }

  /** So it is exactly then that the last resolution to land leaves the books
      quiescent; a failed one, which is what finding no port is, always does. */
  lemma QuiescentAfterResolutionIff(st: State, svc: ServiceConfig, ports: seq<ResolvedPort>)
    requires Orderly(st) && Live(st) && st.queue == [] && st.pending == multiset{svc} && svc.name in st.children
    requires ports != []
    ensures Quiescent(Resolved(st, svc, ports)) <==>
            NoDuplicates(ChildNames(svc, ports))
            && forall n | n in ChildNames(svc, ports) :: n !in st.forwards && n !in st.children
    ensures Quiescent(Unresolved(st, svc))
  {
    assert multiset{svc} - multiset{svc} == multiset{};
    LiveAfterResolutionIff(st, svc, ports);
    RegisteredFrame(st, svc, ports);
    NextKeepsOrderly(st, ResolveOk(svc, ports));
    NextKeepsOrderly(st, ResolveFail(svc));
    LiveAfterFailure(st, svc);
  }

  lemma LiveAfterFailure(st: State, svc: ServiceConfig)
    requires Live(st)
    ensures Live(Unresolved(st, svc))
  {
    var r := Unresolved(st, svc);
    forall p, c | p in r.children && c in r.children[p]
      ensures c in r.forwards && Parent(r.forwards[c]) == p && c !in r.children
    {
      assert c in st.children[p];
    }
  }

  /** A port reported twice: the removal fails, and yet the parent is gone. */
  lemma RepeatedPortSpoilsItsParent(st: State, svc: ServiceConfig, ports: seq<ResolvedPort>, i: nat, j: nat)
    requires Consistent(st) && st.queue == [] && svc in st.pending && svc.name in st.children
    requires i < j < |ports| && ChildName(svc, ports[i]) == ChildName(svc, ports[j])
    ensures var r := DoRemove(Resolved(st, svc, ports), svc.name);
            !r.ok && svc.name !in r.after.children
  {
    var r := Resolved(st, svc, ports);
    RegisteredFrame(st, svc, ports);
    ResolveOkKeepsConsistent(st, svc, ports);
    RemoveSucceedsIff(r, svc.name);
    RemoveIsExact(r, svc.name);
    assert ChildNames(svc, ports)[i] == ChildNames(svc, ports)[j];
  }

  /** A child's name taken by somebody else: the forward stays that service's,
      is listed all the same, and goes with the parent it never had. */
  lemma TakenNameIsRemovedToo(st: State, svc: ServiceConfig, ports: seq<ResolvedPort>, n: string)
    requires Consistent(st) && st.queue == [] && svc in st.pending && svc.name in st.children
    requires n in ChildNames(svc, ports) && n in st.forwards && Parent(st.forwards[n]) != svc.name
    ensures var r := Resolved(st, svc, ports);
            && n in r.forwards && r.forwards[n] == st.forwards[n] && !Live(r)
            && n !in DoRemove(r, svc.name).after.forwards
            && (NoDuplicates(ChildNames(svc, ports)) && svc.name !in ChildNames(svc, ports) ==>
                  DoRemove(r, svc.name).ok)
  {
    var r := Resolved(st, svc, ports);
    RegisteredFrame(st, svc, ports);
    ResolveOkKeepsConsistent(st, svc, ports);
    RemoveSucceedsIff(r, svc.name);
    RemoveIsExact(r, svc.name);
    assert r.children[svc.name] == ChildNames(svc, ports);
    assert n in Targets(r, svc.name);
  }

  /** A run that gets there: a service "web/http" is added, then a multi-port
      "web" that turns out to have a port "http". */
  lemma TakenNameExample(single: ServiceConfig, multi: ServiceConfig, port: ResolvedPort)
    returns (states: seq<State>, events: seq<Event>)
    requires ValidService(single) && !single.IsMultiPort() && single.parentName == ""
    requires ValidService(multi) && multi.IsMultiPort() && multi.parentName == ""
    requires single.name == ChildName(multi, port)
    ensures Run(states, events)
    ensures var st := states[|events|];
            && single.name in st.forwards && st.forwards[single.name].svc == single
            && DoRemove(st, multi.name).ok && single.name !in DoRemove(st, multi.name).after.forwards
  {
    var s1 := Next(EMPTY, Add(single));
    var s2 := Next(s1, Add(multi));
    BothAdded(single, multi, s1, s2);
    ThreeSteps(s1, s2, Add(single), Add(multi), ResolveOk(multi, [port]));
    states := [EMPTY, s1, s2, Resolved(s2, multi, [port])];
    events := [Add(single), Add(multi), ResolveOk(multi, [port])];
    assert ChildNames(multi, [port]) == [single.name];
    TakenNameIsRemovedToo(s2, multi, [port], single.name);
  }

  lemma ThreeSteps(s1: State, s2: State, a: Event, b: Event, c: Event)
    requires Enabled(EMPTY, a) && s1 == Next(EMPTY, a) && Enabled(s1, b) && s2 == Next(s1, b) && Enabled(s2, c)
    ensures Run([EMPTY, s1, s2, Next(s2, c)], [a, b, c])
  {}

  lemma BothAdded(single: ServiceConfig, multi: ServiceConfig, s1: State, s2: State)
    requires ValidService(single) && !single.IsMultiPort() && single.parentName == ""
    requires ValidService(multi) && multi.IsMultiPort() && multi.parentName == "" && multi.name != single.name
    requires s1 == Next(EMPTY, Add(single)) && s2 == Next(s1, Add(multi))
    ensures Consistent(s2) && s2.queue == [] && multi in s2.pending && s2.children == map[multi.name := []]
    ensures single.name in s2.forwards && s2.forwards[single.name].svc == single
  {
    assert Consistent(EMPTY);
    NextKeepsConsistent(EMPTY, Add(single));
    NextKeepsConsistent(s1, Add(multi));
    assert Refusal(EMPTY, single).None? && Refusal(s1, multi).None?;
  }

  /** Taking a service down and putting it back as configured now, with nothing
      in between: when the removal reports an error the re-add is skipped. */
  function Replaced(st: State, svc: ServiceConfig): State {
    var down := DoRemove(st, svc.name);
    if down.ok && Refusal(down.after, svc).None? then Reserve(down.after, svc) else down.after
  }

  /** A multi-port service survives that exactly when its list is sound and its
      configuration valid. A spoiled list loses it. */
  lemma ReplacedStaysIff(st: State, svc: ServiceConfig)
    requires Agreement(st) && st.queue == [] && svc.name in st.children && svc.IsMultiPort()
    ensures svc.name in TopLevel(Replaced(st, svc)) <==>
            AllThereOnce(st.forwards - {svc.name}, st.children[svc.name]) && ValidService(svc)
  {
    RemoveIsExact(st, svc.name);
    RemoveSucceedsIff(st, svc.name);
    var after := DoRemove(st, svc.name).after;
    assert svc.name !in after.forwards && svc.name !in after.children;
  }

  /** With a resolution landing in between it can be lost all the same: when the
      service is named like a child of another one whose ports arrive while it is
      down. */
  lemma LandingTakesItsName(st: State, inner: ServiceConfig, outer: ServiceConfig, port: ResolvedPort)
    requires Consistent(st) && st.queue == []
    requires inner.name in st.children && inner.IsMultiPort() && ValidService(inner) && Removable(st, inner.name)
    requires outer in st.pending && outer.name in st.children && inner.name == ChildName(outer, port)
    ensures var down := DoRemove(st, inner.name);
            && down.ok && Refusal(down.after, inner).None?
            && Refusal(Resolved(down.after, outer, [port]), inner) == Some(Exists)
            && inner.name !in TopLevel(Resolved(down.after, outer, [port]))
  {
    var down := DoRemove(st, inner.name).after;
    RemoveIsExact(st, inner.name);
    RemoveSucceedsIff(st, inner.name);
    RemovalKeepsConsistent(st, down);
    RegisteredFrame(down, outer, [port]);
    assert ChildNames(outer, [port])[0] == inner.name;
    assert |outer.name| < |inner.name|;
  }

  lemma RemovalKeepsConsistent(st: State, down: State)
    requires Consistent(st) && down.forwards.Keys <= st.forwards.Keys && down.pending == st.pending
    requires forall n | n in down.forwards :: down.forwards[n] == st.forwards[n]
    requires down.order == Only(st.order, down.forwards.Keys)
    requires down.children.Keys <= st.children.Keys && down.nextId == st.nextId
    ensures Consistent(down)
  {
    OnlyKeepsDistinct(st.order, down.forwards.Keys);
    OnlyMembers(st.order, down.forwards.Keys);
  }

  // ---------------------------------------------------------------------
  // Releasing what one configuration contributed
  // ---------------------------------------------------------------------

  ghost function OwnersFrom(st: State, source: string): set<string> {
    set n | n in st.forwards && st.forwards[n].sourceConfig == source :: OwnerOf(st, n)
  }

  /** No multi-port parent has an entry of its own: every resolution succeeded. */
  ghost predicate AllResolved(st: State) {
    forall p | p in st.children :: p !in st.forwards
  }

  /** With every parent resolved, the forwards that stay are exactly those of
      another source, in the order they had. */
  lemma ReleaseIsExact(st: State, source: string)
    requires Quiescent(st) && AllResolved(st)
    ensures var r := Without(st, OwnersFrom(st, source));
            && r.forwards == (map n | n in st.forwards && st.forwards[n].sourceConfig != source :: st.forwards[n])
            && r.order == Only(st.order, r.forwards.Keys)
  {
    forall n | n in st.forwards
      ensures OwnerOf(st, n) in OwnersFrom(st, source) <==> st.forwards[n].sourceConfig == source
    {
      OwnedFromSource(st, source, n);
    }
    LeavesExactly(st, OwnersFrom(st, source), source);
  }

  lemma LeavesExactly(st: State, owners: set<string>, source: string)
    requires forall n | n in st.forwards :: OwnerOf(st, n) in owners <==> st.forwards[n].sourceConfig == source
    ensures Without(st, owners).forwards
         == (map n | n in st.forwards && st.forwards[n].sourceConfig != source :: st.forwards[n])
  {}

  lemma OwnedFromSource(st: State, source: string, n: string)
    requires Orderly(st) && AllResolved(st) && st.queue == [] && n in st.forwards
    ensures OwnerOf(st, n) in OwnersFrom(st, source) <==> st.forwards[n].sourceConfig == source
  {
    if OwnerOf(st, n) in OwnersFrom(st, source) {
      var m :| m in st.forwards && st.forwards[m].sourceConfig == source && OwnerOf(st, m) == OwnerOf(st, n);
      SameOwnerSameSource(st, m, n);
    }
  }

  lemma SameOwnerSameSource(st: State, m: string, n: string)
    requires Orderly(st) && AllResolved(st) && st.queue == []
    requires m in st.forwards && n in st.forwards && OwnerOf(st, m) == OwnerOf(st, n)
    ensures st.forwards[m].sourceConfig == st.forwards[n].sourceConfig
  {
    if Parent(st.forwards[m]) != "" { assert Tracked(st, m, Parent(st.forwards[m])); }
    if Parent(st.forwards[n]) != "" { assert Tracked(st, n, Parent(st.forwards[n])); }
  }

  /** An entry tells the source of its service, unless it shows a failed
      resolution. */
  ghost predicate Sourced(st: State) {
    forall n | n in st.forwards ::
      || st.forwards[n].sourceConfig == st.forwards[n].svc.sourceConfig
      || (n in st.children && st.forwards[n].sourceConfig == "")
  }

  lemma {:induction false} RegisterKeepsSourced(st: State, svc: ServiceConfig, ports: seq<ResolvedPort>)
    requires Sourced(st)
    ensures Sourced(Register(st, svc, ports)) && Register(st, svc, ports).children == st.children
  {
    if ports != [] { RegisterKeepsSourced(st, svc, ports[..|ports| - 1]); }
  }

  lemma NextKeepsSourced(st: State, e: Event)
    requires Sourced(st) && Enabled(st, e)
    ensures Sourced(Next(st, e))
  {
    match e
    case Add(svc) =>
    case ResolveOk(svc, ports) =>
      RegisterKeepsSourced(st.(pending := st.pending - multiset{svc}), svc, ports);
    case ResolveFail(svc) =>
    case RemoveBegin(name) => DropEntryFrame(st, name);
    case RemoveStep => DropEntryFrame(st, st.queue[0]);
    case Observe(_, _, _) =>
  }

  lemma {:induction false} ReachableIsSourced(states: seq<State>, events: seq<Event>)
    requires Run(states, events)
    ensures Sourced(states[|events|])
  {
    if events != [] {
      var k := |events| - 1;
      assert Run(states[..k + 1], events[..k]);
      ReachableIsSourced(states[..k + 1], events[..k]);
      NextKeepsSourced(states[k], events[k]);
    }
  }

  /** No forward is left whose service is from that source. */
  ghost predicate ReleaseLeavesNothing(st: State, source: string) {
    forall n | n in Without(st, OwnersFrom(st, source)).forwards :: st.forwards[n].svc.sourceConfig != source
  }

  /** A release leaves nothing of a source, going by the services, exactly when
      each parent whose resolution failed is released for some other forward. */
  lemma ReleaseLeavesNothingIff(st: State, source: string)
    requires Quiescent(st) && Sourced(st) && source != ""
    ensures ReleaseLeavesNothing(st, source) <==>
            forall p | p in st.children && p in st.forwards && st.forwards[p].svc.sourceConfig == source ::
              p in OwnersFrom(st, source)
  {
    var r := Without(st, OwnersFrom(st, source));
    forall p | p in st.children && p in st.forwards ensures p in r.forwards <==> p !in OwnersFrom(st, source) {
      ParentsAreNoChildren(st, p);
    }
    assert forall n | n in st.forwards && st.forwards[n].sourceConfig == source ::
             OwnerOf(st, n) in OwnersFrom(st, source);
    assert forall n | n in r.forwards && st.forwards[n].svc.sourceConfig == source :: n in st.children;
  }

  // ---------------------------------------------------------------------
  // Parents whose resolution failed
  // ---------------------------------------------------------------------

  /** A parent with a failed entry has nothing else, no source and no resolution
      to come. */
  ghost predicate FailedAlone(st: State) {
    forall p | p in st.children && p in st.forwards && Parent(st.forwards[p]) == "" ::
      st.children[p] == [] && st.forwards[p].sourceConfig == "" && !Awaited(st, p)
  }

  lemma UnresolvedKeepsFailedAlone(st: State, svc: ServiceConfig)
    requires FailedAlone(st) && PendingAreFresh(st) && svc in st.pending
    ensures FailedAlone(Unresolved(st, svc))
  {
    var r := Unresolved(st, svc);
    assert st.pending[svc] == 1;
    assert forall a | a in r.pending :: a in st.pending && a != svc;
    assert forall a | a in r.pending :: a.name != svc.name;
  }

  lemma ResolvedKeepsFailedAlone(st: State, svc: ServiceConfig, ports: seq<ResolvedPort>)
    requires FailedAlone(st) && Consistent(st) && svc in st.pending
    ensures FailedAlone(Resolved(st, svc, ports))
  {
    RegisteredFrame(st, svc, ports);
    assert forall a | a in Resolved(st, svc, ports).pending :: a in st.pending;
    assert Awaited(st, svc.name);
  }

  lemma ReserveKeepsFailedAlone(st: State, svc: ServiceConfig)
    requires FailedAlone(st) && Refusal(st, svc).None?
    ensures FailedAlone(Reserve(st, svc))
  {
    assert forall a | a in Reserve(st, svc).pending :: a in st.pending || a == svc;
  }

  lemma NextKeepsFailedAlone(st: State, e: Event)
    requires FailedAlone(st) && Consistent(st) && PendingAreFresh(st) && Enabled(st, e)
    ensures FailedAlone(Next(st, e))
  {
    match e
    case Add(svc) => if Refusal(st, svc).None? { ReserveKeepsFailedAlone(st, svc); }
    case ResolveOk(svc, ports) => ResolvedKeepsFailedAlone(st, svc, ports);
    case ResolveFail(svc) => UnresolvedKeepsFailedAlone(st, svc);
    case RemoveBegin(name) => BeginKeepsFailedAlone(st, name);
    case RemoveStep => StepKeepsFailedAlone(st);
    case Observe(name, state, port) => ObserveKeepsFailedAlone(st, name, state, port);
  }

  lemma BeginKeepsFailedAlone(st: State, name: string)
    requires FailedAlone(st) && Consistent(st)
    ensures FailedAlone(BeginRemoval(st, name))
  {
    DropEntryFrame(st, name);
  }

  lemma StepKeepsFailedAlone(st: State)
    requires FailedAlone(st) && Consistent(st) && st.queue != []
    ensures FailedAlone(StepRemoval(st))
  {
    DropEntryFrame(st, st.queue[0]);
  }

  lemma ObserveKeepsFailedAlone(st: State, name: string, state: ForwardState, port: int)
    requires FailedAlone(st)
    ensures FailedAlone(Observed(st, name, state, port))
  {}

  lemma {:induction false} ReachableFailedAlone(states: seq<State>, events: seq<Event>)
    requires Run(states, events) && forall i | 0 <= i < |events| :: NotReAdded(states[i], events[i])
    ensures FailedAlone(states[|events|])
  {
    if events != [] {
      var k := |events| - 1;
      assert Run(states[..k + 1], events[..k]);
      ReachableFailedAlone(states[..k + 1], events[..k]);
      ReachableHasNoOrphans(states[..k + 1], events[..k]);
      NextKeepsFailedAlone(states[k], events[k]);
    }
  }

  lemma FailedOwnsItself(st: State, p: string)
    requires Quiescent(st) && FailedAlone(st) && p in st.children && p in st.forwards
    ensures OwnerOf(st, p) == p && st.forwards[p].sourceConfig == ""
    ensures forall n | n in st.forwards && OwnerOf(st, n) == p :: n == p
  {
    ParentsAreNoChildren(st, p);
    assert p != "";
    EmptyListNoChild(st, p);
  }

  /** A multi-port service whose resolution failed is never released with its
      source: it owns nothing but the entry that shows the failure, which carries
      no source. */
  lemma FailedParentStays(states: seq<State>, events: seq<Event>, p: string, source: string)
    requires Run(states, events) && forall i | 0 <= i < |events| :: NotReAdded(states[i], events[i])
    requires Quiescent(states[|events|]) && source != ""
    requires p in states[|events|].children && p in states[|events|].forwards
    ensures var st := states[|events|];
            p !in OwnersFrom(st, source) && p in Without(st, OwnersFrom(st, source)).forwards
  {
    ReachableFailedAlone(states, events);
    FailedOwnsItself(states[|events|], p);
  }

  /** So after any such run a release leaves nothing of a source exactly when no
      multi-port service from it shows a failed resolution. */
  lemma ReleaseLeavesOnlyFailed(states: seq<State>, events: seq<Event>, source: string)
    requires Run(states, events) && forall i | 0 <= i < |events| :: NotReAdded(states[i], events[i])
    requires Quiescent(states[|events|]) && source != ""
    ensures var st := states[|events|];
            ReleaseLeavesNothing(st, source) <==>
            forall p | p in st.children && p in st.forwards :: st.forwards[p].svc.sourceConfig != source
  {
    var st := states[|events|];
    ReachableIsSourced(states, events);
    ReleaseLeavesNothingIff(st, source);
    forall p | p in st.children && p in st.forwards ensures p !in OwnersFrom(st, source) {
      FailedParentStays(states, events, p, source);
    }
  }

  /** Such a parent is there after a first resolution that fails. */
  lemma FailedParentExample(svc: ServiceConfig)
    requires ValidService(svc) && svc.IsMultiPort() && svc.parentName == "" && svc.sourceConfig != ""
    ensures var st := Next(Next(EMPTY, Add(svc)), ResolveFail(svc));
            Quiescent(st) && svc.name in TopLevel(st) && OwnersFrom(st, svc.sourceConfig) == {}
  {
    var reserved := State(map[], [], map[svc.name := []], multiset{svc}, [], 0);
    assert Next(EMPTY, Add(svc)) == reserved by { ReservedFirst(svc, reserved); }
    NextKeepsOrderly(EMPTY, Add(svc));
    NextKeepsOrderly(reserved, ResolveFail(svc));
    FailedFirst(svc, reserved);
  }

  lemma ReservedFirst(svc: ServiceConfig, reserved: State)
    requires ValidService(svc) && svc.IsMultiPort()
    requires reserved == State(map[], [], map[svc.name := []], multiset{svc}, [], 0)
    ensures Refusal(EMPTY, svc).None? && Reserve(EMPTY, svc) == reserved
  {
    assert EMPTY.children[svc.name := []] == reserved.children && EMPTY.pending + multiset{svc} == reserved.pending;
  }

  lemma FailedFirst(svc: ServiceConfig, reserved: State)
    requires reserved == State(map[], [], map[svc.name := []], multiset{svc}, [], 0) && svc.sourceConfig != ""
    ensures var st := Unresolved(reserved, svc);
            && Live(st) && st.pending == multiset{} && st.queue == []
            && svc.name in TopLevel(st) && OwnersFrom(st, svc.sourceConfig) == {}
  {
    assert multiset{svc} - multiset{svc} == multiset{};
  }
}
