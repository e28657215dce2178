// A reload from the moment stale services are gone: multi-port services are
// removed and added again, new ones are added, and the resolutions this starts
// land whenever they like.
module Reloading {
  import opened ConfigTypes
  import opened Address
  import opened Ledger
  import opened Removal
  import opened Families

  /** Each name once; of services of the same name the last one counts. */
  function Desired(services: seq<ServiceConfig>): map<string, ServiceConfig> {
    if services == [] then map[]
    else Desired(services[..|services| - 1])[services[|services| - 1].name := services[|services| - 1]]
  }

  /** The names a configuration uses. */
  function ConfiguredNames(services: seq<ServiceConfig>): set<string> { set svc | svc in services :: svc.name }

  /** A name is desired exactly when some service of the configuration has it,
      and then as the last such service says. */
  lemma {:induction false} DesiredIsTheLast(services: seq<ServiceConfig>, n: string)
    ensures n in Desired(services) <==> exists i :: 0 <= i < |services| && services[i].name == n
    ensures n in Desired(services) ==> Desired(services)[n].name == n && LastOfItsName(services, Desired(services)[n])
  {
    if services != [] {
      var init, last := services[..|services| - 1], services[|services| - 1];
      DesiredIsTheLast(init, n);
      assert services[|services| - 1].name == last.name;
      assert forall i | 0 <= i < |init| :: services[i] == init[i];
      if n in Desired(init) && n != last.name {
        var i :| 0 <= i < |init| && init[i] == Desired(init)[n] && forall j | i < j < |init| :: init[j].name != n;
        assert services[i] == Desired(services)[n] && forall j | i < j < |services| :: services[j].name != n;
      }
    }
  }

  lemma DesiredAreTheNames(services: seq<ServiceConfig>)
    ensures Desired(services).Keys == ConfiguredNames(services)
    ensures forall n | n in Desired(services) ::
              Desired(services)[n].name == n && LastOfItsName(services, Desired(services)[n])
  {
    forall n ensures n in Desired(services) <==> n in ConfiguredNames(services) {
      DesiredIsTheLast(services, n);
    }
    forall n | n in Desired(services)
      ensures Desired(services)[n].name == n && LastOfItsName(services, Desired(services)[n])
    {
      DesiredIsTheLast(services, n);
    }
  }

  lemma {:induction false} DesiredIsWellKeyed(services: seq<ServiceConfig>)
    requires forall svc | svc in services :: svc.parentName == ""
    ensures WellKeyed(Desired(services))
  {
    if services != [] { DesiredIsWellKeyed(services[..|services| - 1]); }
  }

  ghost predicate WellKeyed(desired: map<string, ServiceConfig>) {
    forall n | n in desired :: desired[n].name == n && desired[n].parentName == ""
  }

  // ---------------------------------------------------------------------
  // How far a reload has come
  // ---------------------------------------------------------------------

  /** The parents removed so far, of them those not added again, and the new
      services added. */
  datatype Stage = Stage(redo: set<string>, lost: set<string>, added: set<string>)
  {
    /** The services this reload added, again or for the first time. */
    function Active(): set<string> { redo - lost + added }
  }

  /** Just registered, since id first. */
  ghost predicate Present(t: State, svc: ServiceConfig, first: nat) {
    if svc.IsMultiPort() then svc.name in t.children
    else
      && svc.name in t.forwards && t.forwards[svc.name].id >= first
      && t.forwards[svc.name] == Forward(t.forwards[svc.name].id, svc, svc.sourceConfig, Starting, 0)
  }

  ghost predicate AddedPresent(desired: map<string, ServiceConfig>, t: State, added: set<string>, first: nat)
    requires added <= desired.Keys
  {
    forall n | n in added :: Present(t, desired[n], first)
  }

  ghost predicate Resolves(desired: map<string, ServiceConfig>, active: set<string>, p: string) {
    p in active && p in desired && desired[p].IsMultiPort()
  }

  /** An entry made by the resolution of an active service. */
  ghost predicate ByResolution(desired: map<string, ServiceConfig>, t: State, active: set<string>, n: string)
    requires n in t.forwards
  {
    var p := Parent(t.forwards[n]);
    || (n in t.children && Resolves(desired, active, n))
    || ('/' in n && p in t.children && Resolves(desired, active, p))
  }

  /** The identical entry, state and port included. */
  ghost predicate Stays(s: State, t: State, n: string)
    requires n in s.forwards
  {
    n in t.forwards && t.forwards[n] == s.forwards[n]
  }

  /** The index of parents: only lost ones are missing, only added ones are
      new, and the lists not redone are as they were. */
  ghost predicate IndexMoved(s: State, t: State, g: Stage) {
    && (forall p | p in t.children :: p in s.children || p in g.added)
    && (forall p | p in s.children :: p in t.children <==> p !in g.lost)
    && (forall p | p in s.children && p !in g.redo && p in t.children :: t.children[p] == s.children[p])
  }

  /** The forwards of redone parents are gone, the others stay. */
  ghost predicate OldForwards(s: State, t: State, redo: set<string>) {
    forall n | n in s.forwards :: if OwnerOf(s, n) in redo then !Same(s, t, n) else Stays(s, t, n)
  }

  /** Every other forward was added, or comes from the resolution of a service
      that was. */
  ghost predicate NewForwards(s: State, desired: map<string, ServiceConfig>, t: State, added: set<string>,
                              active: set<string>) {
    forall n | n in t.forwards && !(n in s.forwards && Same(s, t, n)) ::
      t.forwards[n].id >= s.nextId && (n in added || ByResolution(desired, t, active, n))
  }

  ghost predicate PendingMoved(desired: map<string, ServiceConfig>, t: State, active: set<string>) {
    forall svc | svc in t.pending :: svc.name in active && svc.name in desired && svc == desired[svc.name]
  }

  ghost predicate Books(s: State, desired: map<string, ServiceConfig>, g: Stage) {
    && g.lost <= g.redo <= s.children.Keys
    && g.added <= desired.Keys && g.added !! s.children.Keys && g.added !! s.forwards.Keys
  }

  /** A reload that began in s is at t. */
  ghost predicate Reloaded(s: State, desired: map<string, ServiceConfig>, t: State, g: Stage) {
    && Orderly(t) && t.queue == [] && t.nextId >= s.nextId
    && Books(s, desired, g)
    && IndexMoved(s, t, g)
    && OldForwards(s, t, g.redo)
    && NewForwards(s, desired, t, g.added, g.Active())
    && PendingMoved(desired, t, g.Active())
    && AddedPresent(desired, t, g.added, s.nextId)
  }

  lemma ReloadedAtFirst(s: State, desired: map<string, ServiceConfig>)
    requires Quiescent(s)
    ensures Reloaded(s, desired, s, Stage({}, {}, {}))
  {}

  // ---------------------------------------------------------------------
  // Resolutions landing
  // ---------------------------------------------------------------------

  lemma ReloadedThen(s: State, desired: map<string, ServiceConfig>, t: State, g: Stage, r: State)
    requires Quiescent(s) && WellKeyed(desired) && Reloaded(s, desired, t, g)
    requires Shifted(t, {}, {}, r) && Orderly(r) && r.queue == []
    ensures Reloaded(s, desired, r, g)
  {
    IndexThen(s, desired, t, g, r);
    OldThen(s, t, g.redo, {}, {}, r);
    assert forall n | n in s.forwards && OwnerOf(s, n) !in g.redo :: n !in {};
    NewThen(s, desired, t, g.added, g.Active(), r);
    PendingFewer(desired, t, g.Active(), r);
    PresentThen(desired, t, {}, {}, g.added, s.nextId, r);
  }

  lemma PendingFewer(desired: map<string, ServiceConfig>, t: State, active: set<string>, r: State)
    requires PendingMoved(desired, t, active) && r.pending <= t.pending
    ensures PendingMoved(desired, r, active)
  {
    assert forall svc | svc in r.pending :: svc in t.pending;
  }

  lemma PresentThen(desired: map<string, ServiceConfig>, t: State, gone: set<string>, parents: set<string>,
                    added: set<string>, first: nat, r: State)
    requires WellKeyed(desired) && added <= desired.Keys && AddedPresent(desired, t, added, first)
    requires added !! gone && added !! parents && Shifted(t, gone, parents, r)
    ensures AddedPresent(desired, r, added, first)
  {
    forall n | n in added ensures Present(r, desired[n], first) {
      assert Present(t, desired[n], first);
      if n in t.forwards { assert Kept(t, r, n); }
    }
  }

  lemma IndexThen(s: State, desired: map<string, ServiceConfig>, t: State, g: Stage, r: State)
    requires IndexMoved(s, t, g) && PendingMoved(desired, t, g.Active())
    requires g.added !! s.children.Keys && Moved(t, {}, {}, r)
    ensures IndexMoved(s, r, g)
  {
    forall p | p in s.children && p !in g.redo && p in r.children ensures r.children[p] == s.children[p] {
      assert r.children[p] == t.children[p] || Awaited(t, p);
    }
  }

  /** What goes besides was redone. */
  lemma OldThen(s: State, t: State, redo: set<string>, gone: set<string>, parents: set<string>, r: State)
    requires Identified(s) && t.nextId >= s.nextId && OldForwards(s, t, redo)
    requires Shifted(t, gone, parents, r)
    ensures forall n | n in s.forwards ::
              if OwnerOf(s, n) in redo || n in gone then !Same(s, r, n) else Stays(s, r, n)
  {
    forall n | n in s.forwards
      ensures if OwnerOf(s, n) in redo || n in gone then !Same(s, r, n) else Stays(s, r, n)
    {
      if n in t.forwards { assert if n in gone then !Same(t, r, n) else Kept(t, r, n); }
    }
  }

  lemma AwaitedIsActive(desired: map<string, ServiceConfig>, t: State, active: set<string>, p: string)
    requires PendingMoved(desired, t, active) && PendingAreMulti(t) && Awaited(t, p)
    ensures Resolves(desired, active, p)
  {
    var svc :| svc in t.pending && svc.name == p;
  }

  lemma NewThen(s: State, desired: map<string, ServiceConfig>, t: State, added: set<string>, active: set<string>,
                r: State)
    requires Identified(s) && t.nextId >= s.nextId && PendingAreMulti(t) && PendingMoved(desired, t, active)
    requires NewForwards(s, desired, t, added, active) && Moved(t, {}, {}, r)
    ensures NewForwards(s, desired, r, added, active)
  {
    forall n | n in r.forwards && !(n in s.forwards && Same(s, r, n))
      ensures r.forwards[n].id >= s.nextId && (n in added || ByResolution(desired, r, active, n))
    {
      if n in t.forwards && Same(t, r, n) {
        NewIsKept(s, desired, t, added, active, r, n);
      } else {
        LandedByResolution(desired, t, active, r, n);
      }
    }
  }

  lemma NewIsKept(s: State, desired: map<string, ServiceConfig>, t: State, added: set<string>, active: set<string>,
                  r: State,
                  n: string)
    requires NewForwards(s, desired, t, added, active) && r.children.Keys == t.children.Keys
    requires n in t.forwards && Kept(t, r, n) && !(n in s.forwards && Same(s, r, n))
    ensures r.forwards[n].id >= s.nextId && (n in added || ByResolution(desired, r, active, n))
  {}

  /** What landed was being resolved. */
  lemma LandedByResolution(desired: map<string, ServiceConfig>, t: State, active: set<string>, r: State, n: string)
    requires PendingAreMulti(t) && PendingMoved(desired, t, active)
    requires n in r.forwards && Accountable(t, r, n)
    ensures ByResolution(desired, r, active, n)
  {
    if n in r.children && Awaited(t, n) {
      AwaitedIsActive(desired, t, active, n);
    } else {
      AwaitedIsActive(desired, t, active, Parent(r.forwards[n]));
    }
  }

  // ---------------------------------------------------------------------
  // Removing a parent to add it again
  // ---------------------------------------------------------------------

  lemma ReloadedRemove(s: State, desired: map<string, ServiceConfig>, t: State, g: Stage, p: string, r: State)
    requires Quiescent(s) && WellKeyed(desired) && Reloaded(s, desired, t, g)
    requires p in s.children && p !in g.redo && p in t.children
    requires Shifted(t, Targets(t, p), {p}, r) && Orderly(r) && r.queue == []
    ensures Reloaded(s, desired, r, Stage(g.redo + {p}, g.lost + {p}, g.added))
  {
    var g' := Stage(g.redo + {p}, g.lost + {p}, g.added);
    TargetsWhileReloading(s, t, g, p);
    IndexRemove(s, desired, t, g, p, r);
    OldRemove(s, t, g.redo, p, r);
    SameActive(s, g, p);
    NewRemove(s, desired, t, g, p, r);
    AddedAreNoTargets(s, g.added, p);
    PresentThen(desired, t, Targets(t, p), {p}, g.added, s.nextId, r);
    PendingFewer(desired, t, g.Active(), r);
  }

  lemma OldRemove(s: State, t: State, redo: set<string>, p: string, r: State)
    requires Identified(s) && t.nextId >= s.nextId && OldForwards(s, t, redo)
    requires Shifted(t, Targets(t, p), {p}, r)
    requires forall n | n in s.forwards :: n in Targets(t, p) <==> OwnerOf(s, n) == p
    ensures OldForwards(s, r, redo + {p})
  {
    OldThen(s, t, redo, Targets(t, p), {p}, r);
  }

  lemma SameActive(s: State, g: Stage, p: string)
    requires p !in g.redo
    ensures Stage(g.redo + {p}, g.lost + {p}, g.added).Active() == g.Active()
  {
    assert g.redo + {p} - (g.lost + {p}) == g.redo - g.lost;
  }

  /** While p has not been redone its list is still the old one. */
  lemma TargetsWhileReloading(s: State, t: State, g: Stage, p: string)
    requires Quiescent(s) && p in s.children && p !in g.redo && p in t.children
    requires IndexMoved(s, t, g)
    ensures Targets(t, p) == Targets(s, p)
    ensures forall n | n in s.forwards :: n in Targets(t, p) <==> OwnerOf(s, n) == p
  {
    TargetsAreOwned(s, p);
  }

  lemma AddedAreNoTargets(s: State, added: set<string>, p: string)
    requires Live(s) && p in s.children && added !! s.children.Keys && added !! s.forwards.Keys
    ensures added !! Targets(s, p) && p !in added
  {}

  lemma IndexRemove(s: State, desired: map<string, ServiceConfig>, t: State, g: Stage, p: string, r: State)
    requires IndexMoved(s, t, g) && PendingMoved(desired, t, g.Active())
    requires g.added !! s.children.Keys && p in s.children && Moved(t, Targets(t, p), {p}, r)
    ensures IndexMoved(s, r, Stage(g.redo + {p}, g.lost + {p}, g.added))
  {
    forall q | q in s.children && q !in g.redo + {p} && q in r.children ensures r.children[q] == s.children[q] {
      assert r.children[q] == t.children[q] || Awaited(t, q);
    }
  }

  /** Before it is redone, a parent's children are the ones it had. */
  lemma NoNewChildYet(s: State, t: State, redo: set<string>, p: string, n: string)
    requires Live(s) && NoOrphans(t) && t.queue == [] && OldForwards(s, t, redo)
    requires p in s.children && p != "" && p in t.children && t.children[p] == s.children[p] && p !in redo
    requires n in t.forwards && Parent(t.forwards[n]) == p
    ensures n in s.forwards && Same(s, t, n) && OwnerOf(s, n) == p
  {
    assert Tracked(t, n, p);
    assert OwnerOf(s, n) == p;
    assert Stays(s, t, n);
  }

  lemma NewRemove(s: State, desired: map<string, ServiceConfig>, t: State, g: Stage, p: string, r: State)
    requires Quiescent(s) && Orderly(t) && t.queue == [] && t.nextId >= s.nextId
    requires OldForwards(s, t, g.redo) && NewForwards(s, desired, t, g.added, g.Active())
    requires PendingMoved(desired, t, g.Active())
    requires p in s.children && p in t.children && t.children[p] == s.children[p] && p !in g.redo
    requires forall n | n in s.forwards :: n in Targets(t, p) <==> OwnerOf(s, n) == p
    requires Moved(t, Targets(t, p), {p}, r)
    ensures NewForwards(s, desired, r, g.added, g.Active())
  {
    forall n | n in r.forwards && !(n in s.forwards && Same(s, r, n))
      ensures r.forwards[n].id >= s.nextId && (n in g.added || ByResolution(desired, r, g.Active(), n))
    {
      if n in t.forwards && Same(t, r, n) {
        NewStaysNew(s, desired, t, g, p, r, n);
      } else {
        LandedByResolution(desired, t, g.Active(), r, n);
      }
    }
  }

  lemma NewStaysNew(s: State, desired: map<string, ServiceConfig>, t: State, g: Stage, p: string, r: State, n: string)
    requires Live(s) && "" !in s.children && NoOrphans(t) && t.queue == []
    requires OldForwards(s, t, g.redo) && NewForwards(s, desired, t, g.added, g.Active())
    requires p in s.children && p in t.children && t.children[p] == s.children[p] && p !in g.redo
    requires Moved(t, Targets(t, p), {p}, r)
    requires n in r.forwards && n in t.forwards && Same(t, r, n) && !(n in s.forwards && Same(s, r, n))
    ensures r.forwards[n].id >= s.nextId && (n in g.added || ByResolution(desired, r, g.Active(), n))
  {
    assert n !in Targets(t, p) && Kept(t, r, n);
    assert Parent(t.forwards[n]) != p by {
      if Parent(t.forwards[n]) == p { NoNewChildYet(s, t, g.redo, p, n); }
    }
  }

  // ---------------------------------------------------------------------
  // Adding
  // ---------------------------------------------------------------------

  /** What a reservation does to forwards and index. */
  ghost predicate Reserved(t: State, svc: ServiceConfig, r: State) {
    if svc.IsMultiPort() then r.children == t.children[svc.name := []] && r.forwards == t.forwards
    else
      && r.children == t.children
      && r.forwards == t.forwards[svc.name := Forward(t.nextId, svc, svc.sourceConfig, Starting, 0)]
  }

  lemma ReserveIsReserved(t: State, svc: ServiceConfig)
    ensures Reserved(t, svc, Reserve(t, svc))
    ensures Reserve(t, svc).queue == t.queue && Reserve(t, svc).nextId >= t.nextId
  {}

  lemma ReservePending(desired: map<string, ServiceConfig>, t: State, active: set<string>, svc: ServiceConfig)
    requires PendingMoved(desired, t, active) && svc.name in desired && desired[svc.name] == svc
    ensures PendingMoved(desired, Reserve(t, svc), active + {svc.name})
  {
    assert forall a | a in t.pending + multiset{svc} :: a in t.pending || a == svc;
  }

  lemma ReserveKeepsPresent(desired: map<string, ServiceConfig>, t: State, added: set<string>, first: nat,
                            svc: ServiceConfig)
    requires added <= desired.Keys && AddedPresent(desired, t, added, first) && Refusal(t, svc).None?
    ensures AddedPresent(desired, Reserve(t, svc), added, first)
  {
    forall n | n in added ensures Present(Reserve(t, svc), desired[n], first) {
      assert Present(t, desired[n], first);
    }
  }

  lemma ReserveKeepsOrderly(desired: map<string, ServiceConfig>, t: State, active: set<string>, svc: ServiceConfig)
    requires Orderly(t) && t.queue == [] && PendingMoved(desired, t, active) && svc.name !in active
    requires Refusal(t, svc).None? && svc.parentName == ""
    ensures Orderly(Reserve(t, svc))
  {
    NextKeepsOrderly(t, Add(svc));
  }

  /** Adding n makes one service more active, whether it is new or was lost. */
  lemma NewReserve(s: State, desired: map<string, ServiceConfig>, t: State, added: set<string>, active: set<string>,
                   svc: ServiceConfig, r: State, added': set<string>, active': set<string>)
    requires NewForwards(s, desired, t, added, active) && t.nextId >= s.nextId && Reserved(t, svc, r)
    requires added <= added' && active <= active' && (!svc.IsMultiPort() ==> svc.name in added')
    ensures NewForwards(s, desired, r, added', active')
  {
    forall n | n in r.forwards && !(n in s.forwards && Same(s, r, n))
      ensures r.forwards[n].id >= s.nextId && (n in added' || ByResolution(desired, r, active', n))
    {
      if r.forwards == t.forwards || n != svc.name {
        assert n in t.forwards && !(n in s.forwards && Same(s, t, n));
        assert n in added || ByResolution(desired, t, active, n);
      }
    }
  }

  lemma OldReserve(s: State, t: State, redo: set<string>, svc: ServiceConfig, r: State)
    requires OldForwards(s, t, redo) && Reserved(t, svc, r)
    requires svc.IsMultiPort() || svc.name !in s.forwards
    ensures OldForwards(s, r, redo)
  {
    forall n | n in s.forwards ensures if OwnerOf(s, n) in redo then !Same(s, r, n) else Stays(s, r, n) {
      assert Same(s, t, n) <==> Same(s, r, n);
    }
  }

  lemma ReloadedAgain(s: State, desired: map<string, ServiceConfig>, t: State, g: Stage, p: string)
    requires Quiescent(s) && WellKeyed(desired) && Reloaded(s, desired, t, g)
    requires p in g.lost && p in desired && desired[p].IsMultiPort() && Refusal(t, desired[p]).None?
    ensures Reloaded(s, desired, Reserve(t, desired[p]), Stage(g.redo, g.lost - {p}, g.added))
  {
    var r, g' := Reserve(t, desired[p]), Stage(g.redo, g.lost - {p}, g.added);
    assert g.Active() + {p} == g'.Active();
    ReserveIsReserved(t, desired[p]);
    ReserveKeepsOrderly(desired, t, g.Active(), desired[p]);
    ReservePending(desired, t, g.Active(), desired[p]);
    ReserveKeepsPresent(desired, t, g.added, s.nextId, desired[p]);
    OldReserve(s, t, g.redo, desired[p], r);
    NewReserve(s, desired, t, g.added, g.Active(), desired[p], r, g.added, g'.Active());
    IndexAgain(s, t, g, p, r);
  }

  lemma IndexAgain(s: State, t: State, g: Stage, p: string, r: State)
    requires IndexMoved(s, t, g) && r.children == t.children[p := []] && p in g.lost
    requires g.lost <= g.redo <= s.children.Keys
    ensures IndexMoved(s, r, Stage(g.redo, g.lost - {p}, g.added))
  {}

  lemma ReloadedNew(s: State, desired: map<string, ServiceConfig>, t: State, g: Stage, n: string)
    requires Quiescent(s) && WellKeyed(desired) && Reloaded(s, desired, t, g)
    requires n in desired && n !in s.children && n !in s.forwards && n !in g.added && Refusal(t, desired[n]).None?
    ensures Reloaded(s, desired, Reserve(t, desired[n]), Stage(g.redo, g.lost, g.added + {n}))
  {
    var svc, g' := desired[n], Stage(g.redo, g.lost, g.added + {n});
    var r := Reserve(t, svc);
    BooksNew(s, desired, g, n);
    ReserveIsReserved(t, svc);
    ReserveKeepsOrderly(desired, t, g.Active(), svc);
    ReservePending(desired, t, g.Active(), svc);
    OldReserve(s, t, g.redo, svc, r);
    NewReserve(s, desired, t, g.added, g.Active(), svc, r, g'.added, g'.Active());
    IndexNew(s, t, g, svc, r);
    PresentNew(desired, t, g.added, s.nextId, svc);
  }

  lemma BooksNew(s: State, desired: map<string, ServiceConfig>, g: Stage, n: string)
    requires Books(s, desired, g) && n in desired && n !in s.children && n !in s.forwards
    ensures Books(s, desired, Stage(g.redo, g.lost, g.added + {n}))
    ensures g.Active() + {n} == Stage(g.redo, g.lost, g.added + {n}).Active()
  {}

  lemma PresentNew(desired: map<string, ServiceConfig>, t: State, added: set<string>, first: nat, svc: ServiceConfig)
    requires added <= desired.Keys && AddedPresent(desired, t, added, first) && Refusal(t, svc).None?
    requires t.nextId >= first
    requires svc.name in desired && desired[svc.name] == svc
    ensures AddedPresent(desired, Reserve(t, svc), added + {svc.name}, first)
  {
    ReserveKeepsPresent(desired, t, added, first, svc);
    NewIsPresent(t, svc, first);
  }

  lemma NewIsPresent(t: State, svc: ServiceConfig, first: nat)
    requires t.nextId >= first
    ensures Present(Reserve(t, svc), svc, first)
  {}

  lemma IndexNew(s: State, t: State, g: Stage, svc: ServiceConfig, r: State)
    requires IndexMoved(s, t, g) && svc.name !in s.children
    requires r.children == if svc.IsMultiPort() then t.children[svc.name := []] else t.children
    ensures IndexMoved(s, r, Stage(g.redo, g.lost, g.added + {svc.name}))
  {}

  // ---------------------------------------------------------------------
  // Refusals
  // ---------------------------------------------------------------------

  /** What was refused is refused still: whatever stood in its way is there. */
  ghost predicate AllRefused(desired: map<string, ServiceConfig>, t: State, refused: set<string>) {
    forall n | n in refused :: n in desired && Refusal(t, desired[n]).Some?
  }

  lemma RefusedThen(desired: map<string, ServiceConfig>, t: State, refused: set<string>, r: State)
    requires AllRefused(desired, t, refused) && Shifted(t, {}, {}, r)
    ensures AllRefused(desired, r, refused)
  {
    forall n | n in refused ensures Refusal(r, desired[n]).Some? {
      StillRefused(t, {}, {}, r, desired[n]);
    }
  }

  lemma StillRefused(t: State, gone: set<string>, parents: set<string>, r: State, svc: ServiceConfig)
    requires Refusal(t, svc).Some? && Shifted(t, gone, parents, r)
    requires svc.name !in gone && svc.name !in parents && (svc.IsMultiPort() || gone == {})
    ensures Refusal(r, svc).Some?
  {
    if svc.name in t.forwards { assert Kept(t, r, svc.name); }
    if gone == {} && PortTaken(t.forwards, svc.localPort) {
      var h :| h in t.forwards.Keys && ConfiguredOrActual(t.forwards[h]) == svc.localPort;
      assert Kept(t, r, h);
      assert h in r.forwards.Keys;
    }
  }

  /** Taking p down frees no name of a parent that was lost before. */
  lemma RefusedRemove(s: State, desired: map<string, ServiceConfig>, t: State, refused: set<string>, p: string,
                      r: State)
    requires Live(s) && WellKeyed(desired) && AllRefused(desired, t, refused)
    requires forall n | n in refused :: desired[n].IsMultiPort() && n in s.children && n != p
    requires p in s.children && Targets(t, p) == Targets(s, p) && Shifted(t, Targets(t, p), {p}, r)
    ensures AllRefused(desired, r, refused)
  {
    forall n | n in refused ensures Refusal(r, desired[n]).Some? {
      assert n !in Targets(s, p);
      StillRefused(t, Targets(t, p), {p}, r, desired[n]);
    }
  }

  lemma RefusedReserve(desired: map<string, ServiceConfig>, t: State, refused: set<string>, svc: ServiceConfig)
    requires AllRefused(desired, t, refused) && Refusal(t, svc).None?
    ensures AllRefused(desired, Reserve(t, svc), refused)
  {
    forall n | n in refused ensures Refusal(Reserve(t, svc), desired[n]).Some? {
      StillRefusedAfter(t, svc, desired[n]);
    }
  }

  lemma StillRefusedAfter(t: State, svc: ServiceConfig, other: ServiceConfig)
    requires Refusal(t, svc).None? && Refusal(t, other).Some?
    ensures Refusal(Reserve(t, svc), other).Some?
  {
    var r := Reserve(t, svc);
    if PortTaken(t.forwards, other.localPort) {
      var h :| h in t.forwards.Keys && ConfiguredOrActual(t.forwards[h]) == other.localPort;
      assert h in r.forwards.Keys && r.forwards[h] == t.forwards[h];
    }
  }

  // ---------------------------------------------------------------------
  // Fixed ports
  // ---------------------------------------------------------------------

  predicate FixedPort(svc: ServiceConfig) { !svc.IsMultiPort() && svc.localPort != 0 }

  /** The ports of the forwards that are not redone. */
  ghost function PortsKept(s: State, redo: set<string>): set<int> {
    set n | n in s.forwards && OwnerOf(s, n) !in redo :: ConfiguredOrActual(s.forwards[n])
  }

  /** The services are well-formed, and the fixed ports they ask for are free
      and pairwise distinct. */
  ghost predicate Fits(desired: map<string, ServiceConfig>, taken: set<int>, names: set<string>) {
    && (forall n | n in names :: n in desired && ValidService(desired[n]))
    && (forall n | n in names && FixedPort(desired[n]) :: desired[n].localPort !in taken)
    && (forall n, m | n in names && m in names && n != m && FixedPort(desired[n]) && FixedPort(desired[m]) ::
          desired[n].localPort != desired[m].localPort)
  }

  /** What is accepted fits. */
  lemma AcceptedFits(s: State, desired: map<string, ServiceConfig>, t: State, redo: set<string>, added: set<string>,
                     first: nat, n: string)
    requires OldForwards(s, t, redo) && WellKeyed(desired) && added <= desired.Keys
    requires AddedPresent(desired, t, added, first)
    requires Fits(desired, PortsKept(s, redo), added) && n in desired && Refusal(t, desired[n]).None?
    ensures Fits(desired, PortsKept(s, redo), added + {n})
  {
    if FixedPort(desired[n]) {
      KeptPortIsNotAccepted(s, t, redo, desired[n]);
      forall m | m in added && m != n && FixedPort(desired[m]) ensures desired[m].localPort != desired[n].localPort {
        assert Present(t, desired[m], first);
        assert m in t.forwards.Keys;
      }
    }
  }

  lemma KeptPortIsNotAccepted(s: State, t: State, redo: set<string>, svc: ServiceConfig)
    requires OldForwards(s, t, redo) && FixedPort(svc) && Refusal(t, svc).None?
    ensures svc.localPort !in PortsKept(s, redo)
  {
    forall h | h in s.forwards && OwnerOf(s, h) !in redo ensures ConfiguredOrActual(s.forwards[h]) != svc.localPort {
      assert Stays(s, t, h);
      assert h in t.forwards.Keys;
    }
  }

  /** What the user sees afterwards. */
  lemma ReloadedTopLevel(s: State, desired: map<string, ServiceConfig>, t: State, g: Stage)
    requires Quiescent(s) && WellKeyed(desired) && Reloaded(s, desired, t, g)
    ensures TopLevel(t) == TopLevel(s) - g.lost + g.added
  {
    forall n ensures n in TopLevel(t) <==> n in TopLevel(s) - g.lost + g.added {
      if n in TopLevel(t) && n !in g.added { StillThere(s, desired, t, g, n); }
      if n in g.added { assert Present(t, desired[n], s.nextId); }
      if n in TopLevel(s) && n !in s.children { assert OwnerOf(s, n) == n && Stays(s, t, n); }
    }
  }

  lemma StillThere(s: State, desired: map<string, ServiceConfig>, t: State, g: Stage, n: string)
    requires NamesNotEmpty(t) && IndexMoved(s, t, g)
    requires OldForwards(s, t, g.redo) && NewForwards(s, desired, t, g.added, g.Active())
    requires g.lost <= g.redo <= s.children.Keys && n in TopLevel(t) && n !in g.added
    ensures n in TopLevel(s) - g.lost
  {
    if n !in t.children {
      assert n in s.forwards && Same(s, t, n);
      assert Stays(s, t, n);
    }
  }

  // ---------------------------------------------------------------------
  // The whole reload
  // ---------------------------------------------------------------------

  ghost function Stale(s: State, desired: map<string, ServiceConfig>): set<string> { TopLevel(s) - desired.Keys }

  ghost function Again(s: State, desired: map<string, ServiceConfig>): (again: set<string>)
    ensures again <= desired.Keys
  {
    set n | n in desired && desired[n].IsMultiPort() && n in s.children
  }

  ghost function Wanted(s: State, desired: map<string, ServiceConfig>, external: set<string>): (wanted: set<string>)
    ensures wanted <= desired.Keys
  {
    desired.Keys - s.forwards.Keys - s.children.Keys - external
  }

  /** What the reload added, again or for the first time. */
  ghost function NowActive(s: State, desired: map<string, ServiceConfig>, external: set<string>,
                           failed: set<string>): set<string> {
    Again(s, desired) + Wanted(s, desired, external) - failed
  }

  /** The forward belongs to a service that stays and is not resolved again. */
  ghost predicate Survives(s: State, desired: map<string, ServiceConfig>, n: string)
    requires n in s.forwards
  {
    OwnerOf(s, n) in desired && OwnerOf(s, n) !in Again(s, desired)
  }

  /** Exactly those forwards are the identical ones as before. */
  ghost predicate Survivors(s: State, desired: map<string, ServiceConfig>, t: State) {
    forall n | n in s.forwards :: if Survives(s, desired, n) then Stays(s, t, n) else !Same(s, t, n)
  }

  ghost function PortsSurviving(s: State, desired: map<string, ServiceConfig>): set<int> {
    set n | n in s.forwards && Survives(s, desired, n) :: ConfiguredOrActual(s.forwards[n])
  }

  /** A reload from the quiescent ledger s to t, whatever order it visits the
      names in and whenever the resolutions it starts land. failed are the
      services it tried to add in vain. */
  ghost predicate Reloads(s: State, desired: map<string, ServiceConfig>, external: set<string>,
                          t: State, added: nat, removed: nat, failed: set<string>) {
    var wanted, again := Wanted(s, desired, external), Again(s, desired);
    && Orderly(t) && t.queue == [] && t.nextId >= s.nextId
    && failed <= again + wanted && AllRefused(desired, t, failed)
    && TopLevel(t) == TopLevel(s) * desired.Keys + wanted - failed
    && removed == |Stale(s, desired)| && added == |wanted - failed|
    && Survivors(s, desired, t)
    && NewForwards(s, desired, t, wanted - failed, NowActive(s, desired, external, failed))
    && AddedPresent(desired, t, wanted - failed, s.nextId)
    && Fits(desired, PortsSurviving(s, desired), wanted - failed)
    && PendingMoved(desired, t, NowActive(s, desired, external, failed))
    && ResolvedAgain(desired, t, again - failed)
    && (forall p | p in t.children :: p in s.children || p in wanted - failed)
  }

  /** They were valid, and are being resolved or have been. */
  ghost predicate ResolvedAgain(desired: map<string, ServiceConfig>, t: State, names: set<string>) {
    forall n | n in names :: n in desired && ValidService(desired[n]) && n in t.children
  }

  lemma ReloadsInTheEnd(s: State, desired: map<string, ServiceConfig>, external: set<string>,
                        t: State, g: Stage, failed: set<string>)
    requires Quiescent(s) && WellKeyed(desired)
    requires Reloaded(Without(s, Stale(s, desired)), desired, t, g) && g.redo == Again(s, desired)
    requires Fits(desired, PortsKept(Without(s, Stale(s, desired)), g.redo), g.added)
    requires g.added == Wanted(s, desired, external) - failed && g.lost == failed * Again(s, desired)
    requires failed <= Again(s, desired) + Wanted(s, desired, external) && AllRefused(desired, t, failed)
    requires forall n | n in g.redo - g.lost :: ValidService(desired[n])
    ensures Reloads(s, desired, external, t, |g.added|, |Stale(s, desired)|, failed)
  {
    var mid := Without(s, Stale(s, desired));
    WithoutKeepsQuiescent(s, Stale(s, desired));
    ServicesInTheEnd(s, desired, external, t, g, failed);
    assert g.Active() == NowActive(s, desired, external, failed) by {
      ActiveInTheEnd(Again(s, desired), Wanted(s, desired, external), failed);
    }
    SurvivorsInTheEnd(s, desired, t, g.added, g.Active());
    PortsInTheEnd(s, desired);
    IndexInTheEnd(s, desired, t, g, failed);
  }

  lemma IndexInTheEnd(s: State, desired: map<string, ServiceConfig>, t: State, g: Stage, failed: set<string>)
    requires IndexMoved(Without(s, Stale(s, desired)), t, g)
    requires g.redo == Again(s, desired) && g.lost == failed * Again(s, desired)
    requires forall n | n in g.redo - g.lost :: ValidService(desired[n])
    ensures ResolvedAgain(desired, t, Again(s, desired) - failed)
    ensures forall p | p in t.children :: p in s.children || p in g.added
  {}

  lemma ServicesInTheEnd(s: State, desired: map<string, ServiceConfig>, external: set<string>,
                         t: State, g: Stage, failed: set<string>)
    requires Quiescent(Without(s, Stale(s, desired))) && WellKeyed(desired)
    requires Reloaded(Without(s, Stale(s, desired)), desired, t, g)
    requires g.added == Wanted(s, desired, external) - failed && g.lost == failed * Again(s, desired)
    requires failed <= Again(s, desired) + Wanted(s, desired, external)
    ensures TopLevel(t) == TopLevel(s) * desired.Keys + Wanted(s, desired, external) - failed
  {
    ReloadedTopLevel(Without(s, Stale(s, desired)), desired, t, g);
    WithoutTopLevel(s, Stale(s, desired));
    TopLevelInTheEnd(TopLevel(s), desired.Keys, Again(s, desired), Wanted(s, desired, external), failed);
  }

  lemma TopLevelInTheEnd(top: set<string>, desired: set<string>, again: set<string>, wanted: set<string>,
                         failed: set<string>)
    requires failed <= again + wanted && again <= top * desired && wanted !! top
    ensures (top - (top - desired)) - failed * again + (wanted - failed) == top * desired + wanted - failed
  {}

  lemma ActiveInTheEnd(again: set<string>, wanted: set<string>, failed: set<string>)
    ensures (again - failed * again) + (wanted - failed) == again + wanted - failed
  {}

  /** Which forwards are left once the stale services are gone. */
  lemma LeftAreDesired(s: State, desired: map<string, ServiceConfig>, n: string)
    requires Quiescent(s) && n in s.forwards
    ensures n in Without(s, Stale(s, desired)).forwards <==> OwnerOf(s, n) in desired
    ensures OwnerOf(s, n) in desired ==> OwnerOf(Without(s, Stale(s, desired)), n) == OwnerOf(s, n)
  {
    OwnersAreTopLevel(s, n);
  }

  lemma SurvivorsInTheEnd(s: State, desired: map<string, ServiceConfig>, t: State, added: set<string>,
                          active: set<string>)
    requires Quiescent(s) && OldForwards(Without(s, Stale(s, desired)), t, Again(s, desired))
    requires NewForwards(Without(s, Stale(s, desired)), desired, t, added, active)
    ensures Survivors(s, desired, t) && NewForwards(s, desired, t, added, active)
  {
    var mid := Without(s, Stale(s, desired));
    forall n | n in s.forwards ensures if Survives(s, desired, n) then Stays(s, t, n) else !Same(s, t, n) {
      LeftAreDesired(s, desired, n);
    }
  }

  lemma PortsInTheEnd(s: State, desired: map<string, ServiceConfig>)
    requires Quiescent(s)
    ensures PortsKept(Without(s, Stale(s, desired)), Again(s, desired)) == PortsSurviving(s, desired)
  {
    var mid := Without(s, Stale(s, desired));
    forall n | n in s.forwards
      ensures Survives(s, desired, n) <==> n in mid.forwards && OwnerOf(mid, n) !in Again(s, desired)
    {
      LeftAreDesired(s, desired, n);
    }
    assert forall n | n in mid.forwards :: n in s.forwards && mid.forwards[n] == s.forwards[n];
  }

  // ---------------------------------------------------------------------
  // Convergence
  // ---------------------------------------------------------------------

  /** What the configuration asks for is what is there exactly when nothing
      that belongs here was refused, no desired name is a child's, and nothing
      of another instance's is still here. */
  lemma ReloadConvergesIff(s: State, desired: map<string, ServiceConfig>, external: set<string>,
                           t: State, added: nat, removed: nat, failed: set<string>)
    requires Reloads(s, desired, external, t, added, removed, failed)
    ensures TopLevel(t) == desired.Keys - external <==>
            && failed <= external
            && TopLevel(s) * desired.Keys * external <= failed
            && (forall n | n in desired && n !in external && n in s.forwards :: n in TopLevel(s))
  {
    SetsConvergeIff(TopLevel(s), s.forwards.Keys, s.children.Keys, desired.Keys, external, failed);
  }

  lemma SetsConvergeIff(top: set<string>, forwards: set<string>, parents: set<string>,
                        desired: set<string>, external: set<string>, failed: set<string>)
    requires parents <= top && top <= forwards + parents
    requires failed <= top * desired + (desired - forwards - parents - external)
    ensures top * desired + (desired - forwards - parents - external) - failed == desired - external <==>
            && failed <= external && top * desired * external <= failed
            && (forall n | n in desired && n !in external && n in forwards :: n in top)
  {
    var reached := top * desired + (desired - forwards - parents - external) - failed;
    if reached == desired - external {
      forall n | n in failed ensures n in external { assert n !in reached; }
      forall n | n in desired && n !in external && n in forwards ensures n in top { assert n in reached; }
      forall n | n in top * desired * external ensures n in failed { assert n !in reached; }
    } else if failed <= external && top * desired * external <= failed {
      var n :| (n in reached) != (n in desired - external);
      assert n in desired && n !in external && n in forwards && n !in top;
    }
  }

  lemma RefusalMeans(t: State, svc: ServiceConfig)
    requires Refusal(t, svc).Some? && svc.name !in t.children
    ensures !ValidService(svc) || svc.name in t.forwards || (FixedPort(svc) && PortTaken(t.forwards, svc.localPort))
  {}

  lemma FailedIsNowhere(t: State, top: set<string>, wanted: set<string>, failed: set<string>, n: string)
    requires TopLevel(t) == top + wanted - failed && n in failed
    ensures n !in t.children && n !in wanted - failed
  {
    assert n !in TopLevel(t);
  }

  /** Why a service was refused: it is malformed, its name is a child's of a
      service resolved in this reload, or a forward that is there has its fixed
      port. */
  lemma RefusedForAReason(s: State, desired: map<string, ServiceConfig>, external: set<string>,
                          t: State, added: nat, removed: nat, failed: set<string>, n: string)
    requires Quiescent(s) && WellKeyed(desired) && Reloads(s, desired, external, t, added, removed, failed)
    requires n in failed
    ensures || !ValidService(desired[n])
            || (n in t.forwards && '/' in n
                && Resolves(desired, NowActive(s, desired, external, failed), Parent(t.forwards[n])))
            || (FixedPort(desired[n]) && PortTaken(t.forwards, desired[n].localPort))
  {
    FailedIsNowhere(t, TopLevel(s) * desired.Keys, Wanted(s, desired, external), failed, n);
    RefusalMeans(t, desired[n]);
    if n in t.forwards {
      FailedIsReplaced(s, desired, external, t, n);
      NewNameIsAChilds(s, desired, t, Wanted(s, desired, external) - failed,
                       NowActive(s, desired, external, failed), n);
    }
  }

  lemma FailedIsReplaced(s: State, desired: map<string, ServiceConfig>, external: set<string>, t: State, n: string)
    requires Quiescent(s) && Survivors(s, desired, t) && n in Again(s, desired) + Wanted(s, desired, external)
    ensures !(n in s.forwards && Same(s, t, n))
  {
    if n in s.forwards {
      ParentsAreNoChildren(s, n);
      assert !Survives(s, desired, n);
    }
  }

  lemma NewNameIsAChilds(s: State, desired: map<string, ServiceConfig>, t: State, added: set<string>,
                         active: set<string>,
                         n: string)
    requires NewForwards(s, desired, t, added, active)
    requires n in t.forwards && !(n in s.forwards && Same(s, t, n)) && n !in added && n !in t.children
    ensures '/' in n && Resolves(desired, active, Parent(t.forwards[n]))
  {
    assert ByResolution(desired, t, active, n);
  }

  lemma NothingResolves(s: State, desired: map<string, ServiceConfig>, external: set<string>, failed: set<string>,
                        p: string)
    requires Again(s, desired) == {} && forall n | n in Wanted(s, desired, external) :: !desired[n].IsMultiPort()
    ensures !Resolves(desired, NowActive(s, desired, external, failed), p)
    ensures NowActive(s, desired, external, failed) == Wanted(s, desired, external) - failed
  {}

  /** With no multi-port service to resolve, only what does not fit is refused. */
  lemma RefusedDoesNotFit(s: State, desired: map<string, ServiceConfig>, external: set<string>,
                          t: State, added: nat, removed: nat, failed: set<string>, n: string)
    requires Quiescent(s) && WellKeyed(desired) && Reloads(s, desired, external, t, added, removed, failed)
    requires Again(s, desired) == {} && forall m | m in Wanted(s, desired, external) :: !desired[m].IsMultiPort()
    requires n in failed
    ensures !Fits(desired, PortsSurviving(s, desired), Wanted(s, desired, external))
  {
    RefusedForAReason(s, desired, external, t, added, removed, failed, n);
    if n in t.forwards { NothingResolves(s, desired, external, failed, Parent(t.forwards[n])); }
    NothingResolves(s, desired, external, failed, n);
    if FixedPort(desired[n]) && PortTaken(t.forwards, desired[n].localPort) {
      HolderDoesNotFit(s, desired, external, t, failed, n);
    }
  }

  lemma HolderDoesNotFit(s: State, desired: map<string, ServiceConfig>, external: set<string>,
                         t: State, failed: set<string>, n: string)
    requires WellKeyed(desired) && Survivors(s, desired, t)
    requires NewForwards(s, desired, t, Wanted(s, desired, external) - failed, Wanted(s, desired, external) - failed)
    requires AddedPresent(desired, t, Wanted(s, desired, external) - failed, s.nextId)
    requires forall m | m in Wanted(s, desired, external) :: !desired[m].IsMultiPort()
    requires n in failed && n in Wanted(s, desired, external)
    requires FixedPort(desired[n]) && PortTaken(t.forwards, desired[n].localPort)
    ensures !Fits(desired, PortsSurviving(s, desired), Wanted(s, desired, external))
  {
    var h :| h in t.forwards.Keys && ConfiguredOrActual(t.forwards[h]) == desired[n].localPort;
    if h in s.forwards && Same(s, t, h) {
      assert Survives(s, desired, h) && Stays(s, t, h);
      assert desired[n].localPort in PortsSurviving(s, desired);
    } else {
      assert h in Wanted(s, desired, external) - failed;
      assert Present(t, desired[h], s.nextId);
    }
  }

  /** So for a configuration whose multi-port services need no resolution it
      can be told beforehand: the reload converges exactly when the services to
      add are well-formed and their fixed ports distinct and free, nothing owned
      elsewhere runs here, and no desired name is a child's. */
  lemma SinglesConvergeIff(s: State, desired: map<string, ServiceConfig>, external: set<string>,
                           t: State, added: nat, removed: nat, failed: set<string>)
    requires Quiescent(s) && WellKeyed(desired) && Reloads(s, desired, external, t, added, removed, failed)
    requires Again(s, desired) == {} && forall n | n in Wanted(s, desired, external) :: !desired[n].IsMultiPort()
    ensures TopLevel(t) == desired.Keys - external <==>
            && Fits(desired, PortsSurviving(s, desired), Wanted(s, desired, external))
            && TopLevel(s) * desired.Keys * external == {}
            && (forall n | n in desired && n !in external && n in s.forwards :: n in TopLevel(s))
  {
    ReloadConvergesIff(s, desired, external, t, added, removed, failed);
    if n :| n in failed { RefusedDoesNotFit(s, desired, external, t, added, removed, failed, n); }
    NoneOfTheWanted(Wanted(s, desired, external), desired.Keys, external, failed);
  }

  lemma NoneOfTheWanted(wanted: set<string>, desired: set<string>, external: set<string>, failed: set<string>)
    requires failed <= wanted && wanted !! external
    ensures failed <= external ==> failed == {} && wanted - failed == wanted
  {}

  /** A running multi-port service stays exactly when it is valid as configured
      now, unless its name could be a child's. */
  lemma AgainStaysIff(s: State, desired: map<string, ServiceConfig>, external: set<string>,
                      t: State, added: nat, removed: nat, failed: set<string>, n: string)
    requires Quiescent(s) && WellKeyed(desired) && Reloads(s, desired, external, t, added, removed, failed)
    requires n in Again(s, desired) && '/' !in n
    ensures n in TopLevel(t) <==> ValidService(desired[n])
    ensures n in TopLevel(t) <==> n !in failed
  {
    if n in failed {
      FailedIsNowhere(t, TopLevel(s) * desired.Keys, Wanted(s, desired, external), failed, n);
      RefusedForAReason(s, desired, external, t, added, removed, failed, n);
    }
  }

  function Invalid(desired: map<string, ServiceConfig>, names: set<string>): set<string> {
    set n | n in names && n in desired && !ValidService(desired[n])
  }

  lemma ExactlyInvalid(desired: map<string, ServiceConfig>, names: set<string>, failed: set<string>)
    requires failed <= names <= desired.Keys
    requires forall n | n in names :: n in failed <==> !ValidService(desired[n])
    ensures failed == Invalid(desired, names)
  {}

  lemma AddedAreValid(s: State, desired: map<string, ServiceConfig>, external: set<string>,
                      t: State, added: nat, removed: nat, failed: set<string>)
    requires Reloads(s, desired, external, t, added, removed, failed)
    ensures failed <= Again(s, desired) + Wanted(s, desired, external)
    ensures forall n | n in Again(s, desired) + Wanted(s, desired, external) - failed :: ValidService(desired[n])
  {}

  lemma PlainIsRefusedIff(s: State, desired: map<string, ServiceConfig>, external: set<string>,
                          t: State, added: nat, removed: nat, failed: set<string>, n: string)
    requires Quiescent(s) && WellKeyed(desired) && Reloads(s, desired, external, t, added, removed, failed)
    requires n in Again(s, desired) + Wanted(s, desired, external) && '/' !in n && !FixedPort(desired[n])
    ensures n in failed <==> !ValidService(desired[n])
  {
    if n in failed {
      RefusedForAReason(s, desired, external, t, added, removed, failed, n);
    } else {
      AddedAreValid(s, desired, external, t, added, removed, failed);
    }
  }

  /** What is refused can be told beforehand when no name could be a child's and
      no port is fixed: the services that are not valid. */
  lemma InvalidAreRefused(s: State, desired: map<string, ServiceConfig>, external: set<string>,
                          t: State, added: nat, removed: nat, failed: set<string>)
    requires Quiescent(s) && WellKeyed(desired) && Reloads(s, desired, external, t, added, removed, failed)
    requires forall n | n in Again(s, desired) + Wanted(s, desired, external) :: '/' !in n && !FixedPort(desired[n])
    ensures failed == Invalid(desired, Again(s, desired) + Wanted(s, desired, external))
  {
    var names := Again(s, desired) + Wanted(s, desired, external);
    AddedAreValid(s, desired, external, t, added, removed, failed);
    forall n | n in names ensures n in failed <==> !ValidService(desired[n]) {
      PlainIsRefusedIff(s, desired, external, t, added, removed, failed, n);
    }
    ExactlyInvalid(desired, names, failed);
  }

  /** So with multi-port services running and being added, too, it can be told
      beforehand whether the reload converges. */
  lemma PlainConvergeIff(s: State, desired: map<string, ServiceConfig>, external: set<string>,
                         t: State, added: nat, removed: nat, failed: set<string>)
    requires Quiescent(s) && WellKeyed(desired) && Reloads(s, desired, external, t, added, removed, failed)
    requires forall n | n in Again(s, desired) + Wanted(s, desired, external) :: '/' !in n && !FixedPort(desired[n])
    ensures TopLevel(t) == desired.Keys - external <==>
            && (forall n | n in Again(s, desired) + Wanted(s, desired, external) && n !in external ::
                  ValidService(desired[n]))
            && (forall n | n in TopLevel(s) && n in desired && n in external ::
                  n in Again(s, desired) && !ValidService(desired[n]))
            && (forall n | n in desired && n !in external && n in s.forwards :: n in TopLevel(s))
  {
    ReloadConvergesIff(s, desired, external, t, added, removed, failed);
    InvalidAreRefused(s, desired, external, t, added, removed, failed);
  }

  lemma ResolvingAreParents(s: State, desired: map<string, ServiceConfig>, external: set<string>,
                            t: State, added: nat, removed: nat, failed: set<string>, n: string)
    requires WellKeyed(desired) && Reloads(s, desired, external, t, added, removed, failed)
    requires Resolves(desired, NowActive(s, desired, external, failed), n)
    ensures n in t.children
  {
    ResolvingIsParent(desired, t, Again(s, desired), Wanted(s, desired, external), failed, s.nextId, n);
  }

  lemma ResolvingIsParent(desired: map<string, ServiceConfig>, t: State, again: set<string>, wanted: set<string>,
                          failed: set<string>, first: nat, n: string)
    requires WellKeyed(desired) && ResolvedAgain(desired, t, again - failed)
    requires wanted <= desired.Keys && AddedPresent(desired, t, wanted - failed, first)
    requires Resolves(desired, again + wanted - failed, n)
    ensures n in t.children
  {
    if n in wanted - failed { assert Present(t, desired[n], first); }
  }

  lemma ShowsInTheEnd(t: State, u: State, n: string)
    requires Moved(t, {}, {}, u) && Alive(u) && u.pending == multiset{} && n in t.children && '/' !in n
    ensures n in u.children && (u.children[n] != [] || n in u.forwards)
  {
    assert Shows(u, n);
  }

  /** Once the resolutions have landed, every multi-port service that this
      reload added, again or for the first time, has children or shows a
      failure, unless its name could be a child's. */
  lemma EveryoneShowsInTheEnd(s: State, desired: map<string, ServiceConfig>, external: set<string>,
                              t: State, added: nat, removed: nat, failed: set<string>, u: State, n: string)
    requires WellKeyed(desired) && Reloads(s, desired, external, t, added, removed, failed)
    requires Moved(t, {}, {}, u) && Orderly(u) && u.pending == multiset{}
    requires Resolves(desired, NowActive(s, desired, external, failed), n) && '/' !in n
    ensures n in u.children && (u.children[n] != [] || n in u.forwards)
  {
    ResolvingAreParents(s, desired, external, t, added, removed, failed, n);
    ShowsInTheEnd(t, u, n);
  }

  /** And whatever is resolved meanwhile: services that are well-formed, not
      named like a child and free to choose their port are never refused. */
  lemma PlainServicesAreAdded(s: State, desired: map<string, ServiceConfig>, external: set<string>,
                              t: State, added: nat, removed: nat, failed: set<string>, n: string)
    requires Quiescent(s) && WellKeyed(desired) && Reloads(s, desired, external, t, added, removed, failed)
    requires n in Again(s, desired) + Wanted(s, desired, external)
    requires ValidService(desired[n]) && '/' !in n && !FixedPort(desired[n])
    ensures n !in failed && n in TopLevel(t)
  {
    if n in failed { RefusedForAReason(s, desired, external, t, added, removed, failed, n); }
  }

  // ---------------------------------------------------------------------
  // A second reload
  // ---------------------------------------------------------------------

  lemma MovedTopLevel(t: State, u: State)
    requires Moved(t, {}, {}, u) && "" !in u.children
    ensures TopLevel(u) == TopLevel(t)
  {
    forall n ensures n in TopLevel(u) <==> n in TopLevel(t) {
      if n in t.forwards { assert Kept(t, u, n); }
    }
  }

  /** Where a reload found nothing to remove or to add, it only resolves
      multi-port services again. */
  lemma ReloadIsIdempotent(desired: map<string, ServiceConfig>, external: set<string>,
                           u: State, v: State, added: nat, removed: nat, failed: set<string>)
    requires TopLevel(u) == desired.Keys - external && Quiescent(u) && WellKeyed(desired)
    requires Reloads(u, desired, external, v, added, removed, failed)
    ensures added == 0 && removed == 0
    ensures failed <= Again(u, desired) && TopLevel(v) == TopLevel(u) - failed
    ensures forall n | n in failed :: !ValidService(desired[n]) || '/' in n
    ensures forall n | n in u.forwards && n !in u.children && Parent(u.forwards[n]) == "" :: Stays(u, v, n)
  {
    NothingToDo(u, desired, external);
    OnlyThoseAgain(TopLevel(u), desired.Keys, failed);
    SinglesStay(u, desired, v);
    forall n | n in failed ensures !ValidService(desired[n]) || '/' in n {
      RefusedForAReason(u, desired, external, v, added, removed, failed, n);
    }
  }

  /** What a reload leaves as a multi-port service is valid as such. */
  lemma ParentsAreValid(s: State, desired: map<string, ServiceConfig>, external: set<string>,
                        t: State, added: nat, removed: nat, failed: set<string>, n: string)
    requires Reloads(s, desired, external, t, added, removed, failed)
    requires n in t.children && n in desired && desired[n].IsMultiPort()
    ensures ValidService(desired[n])
  {
    if n in failed { FailedIsNowhere(t, TopLevel(s) * desired.Keys, Wanted(s, desired, external), failed, n); }
  }

  lemma OnlyThoseAgain(top: set<string>, desired: set<string>, failed: set<string>)
    requires top <= desired
    ensures top * desired + {} - failed == top - failed && {} - failed == {}
  {}

  lemma SinglesStay(u: State, desired: map<string, ServiceConfig>, v: State)
    requires Survivors(u, desired, v) && TopLevel(u) <= desired.Keys
    ensures forall n | n in u.forwards && n !in u.children && Parent(u.forwards[n]) == "" :: Stays(u, v, n)
  {
    forall n | n in u.forwards && n !in u.children && Parent(u.forwards[n]) == "" ensures Stays(u, v, n) {
      assert n in TopLevel(u) && OwnerOf(u, n) == n && Survives(u, desired, n);
    }
  }

  lemma NothingToDo(u: State, desired: map<string, ServiceConfig>, external: set<string>)
    requires TopLevel(u) == desired.Keys - external
    ensures Stale(u, desired) == {} && Wanted(u, desired, external) == {}
  {
    forall n | n in desired && n !in external ensures n in u.forwards || n in u.children { assert n in TopLevel(u); }
  }
}
