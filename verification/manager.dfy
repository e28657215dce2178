// The port-forward manager: commands on the ledger, one at a time, with the
// resolutions of multi-port services landing in between.
module PortForwardManager {
  import opened Wrappers
  import opened Text
  import opened ConfigTypes
  import opened Address
  import opened Ledger
  import opened Removal
  import opened Families
  import opened Reloading
  import opened External

  class Manager {
    /** The default namespace. */
    const namespace: string
    var forwards: map<string, Forward>
    var order: seq<string>
    var children: map<string, seq<string>>
    var external: map<string, ExternalForward>
    /** Services whose resolution is outstanding, and the next identity. */
    var pending: multiset<ServiceConfig>
    var nextId: nat

    /** The ledger, with what a removal in progress has still to remove. */
    ghost function NowWith(queue: seq<string>): State
      reads this
    {
      State(forwards, order, children, pending, queue, nextId)
    }

    ghost function Now(): State
      reads this
    {
      NowWith([])
    }

    constructor (namespace: string)
      ensures Now() == EMPTY && external == map[] && this.namespace == namespace
    {
      this.namespace := namespace;
      forwards, order, children, external, pending, nextId := map[], [], map[], map[], multiset{}, 0;
    }

    // -------------------------------------------------------------------
    // Adding
    // -------------------------------------------------------------------

    method ReserveForward(svc: ServiceConfig) returns (refused: Option<AddError>)
      requires ValidService(svc)
      modifies `forwards, `order, `children, `pending, `nextId
      ensures refused == Refusal(old(Now()), svc)
      ensures Now() == if refused.None? then Reserve(old(Now()), svc) else old(Now())
    {
      if svc.name in forwards || svc.name in children { return Some(Exists); }
      if !svc.IsMultiPort() && svc.localPort != 0 {
        var todo := forwards.Keys;
        while todo != {}
          invariant todo <= forwards.Keys
          invariant forall n | n in forwards.Keys - todo :: ConfiguredOrActual(forwards[n]) != svc.localPort
        {
          var n :| n in todo;
          var port := forwards[n].svc.localPort;
          if port == 0 { port := forwards[n].actualPort; }
          if port == svc.localPort { return Some(PortInUse); }
          todo := todo - {n};
        }
      }
      if svc.IsMultiPort() {
        children := children[svc.name := []];
        pending := pending + multiset{svc};
        return None;
      }
      forwards := forwards[svc.name := Forward(nextId, svc, svc.sourceConfig, Starting, 0)];
      order := order + [svc.name];
      nextId := nextId + 1;
      return None;
    }

    method AddService(svc: ServiceConfig) returns (refused: Option<AddError>)
      modifies `forwards, `order, `children, `pending, `nextId
      ensures refused == Refusal(old(Now()), svc)
      ensures Now() == if refused.None? then Reserve(old(Now()), svc) else old(Now())
      ensures refused.None? ==> Accepts(old(Now()), svc, Now())
    {
      var error := ValidateService(svc);
      if error.Some? { return Some(Invalid); }
      refused := ReserveForward(svc);
    }

    // -------------------------------------------------------------------
    // Resolving
    // -------------------------------------------------------------------

    /** Register the children whose names are free, in one go. */
    method RegisterChildren(svc: ServiceConfig, ports: seq<ResolvedPort>, names: seq<string>)
      requires names == ChildNames(svc, ports)
      modifies `forwards, `order, `nextId
      ensures Now() == Register(old(Now()), svc, ports)
    {
      for i := 0 to |ports|
        invariant Now() == Register(old(Now()), svc, ports[..i])
      {
        assert ports[..i + 1][..i] == ports[..i];
        if names[i] !in forwards {
          forwards := forwards[names[i] := Forward(nextId, ChildService(svc, ports[i]), svc.sourceConfig, Starting, 0)];
          order := order + [names[i]];
        }
        nextId := nextId + 1;
      }
      assert ports[..|ports|] == ports;
    }

    method NamesOfChildren(svc: ServiceConfig, ports: seq<ResolvedPort>) returns (names: seq<string>)
      ensures names == ChildNames(svc, ports)
    {
      names := [];
      for i := 0 to |ports|
        invariant names == ChildNames(svc, ports[..i])
      {
        names := names + [ChildName(svc, ports[i])];
      }
      assert ports[..|ports|] == ports;
    }

    /** The end of a resolution, with the ports found or None on failure. */
    method SuperviseMulti(svc: ServiceConfig, outcome: Option<seq<ResolvedPort>>)
      modifies `forwards, `order, `children, `pending, `nextId
      ensures Now() == if outcome.Some? then Resolved(old(Now()), svc, outcome.value) else Unresolved(old(Now()), svc)
      ensures Lands(old(Now()), svc, outcome, Now())
    {
      LandsAsWritten(Now(), svc, outcome);
      pending := pending - multiset{svc};
      if outcome.None? {
        if svc.name in children && svc.name !in forwards {
          forwards := forwards[svc.name := Forward(nextId, svc, "", Failed, 0)];
          order := order + [svc.name];
          nextId := nextId + 1;
        }
        return;
      }
      var names := NamesOfChildren(svc, outcome.value);
      if svc.name !in children { return; }
      ghost var before := Now();
      RegisterChildren(svc, outcome.value, names);
      RegisterKeepsIndex(before, svc, outcome.value);
      children := children[svc.name := names];
    }

    /** One outstanding resolution ends. */
    method LandOne(svc: ServiceConfig, outcome: Option<seq<ResolvedPort>>, ghost queue: seq<string>,
                   ghost orderly: bool)
      requires InOrder(NowWith(queue), orderly) && svc in pending && outcome != Some([])
      modifies `forwards, `order, `children, `pending, `nextId
      ensures InOrder(NowWith(queue), orderly) && Shifted(old(NowWith(queue)), {}, {}, NowWith(queue))
    {
      ghost var s := NowWith(queue);
      ghost var e := if outcome.Some? then ResolveOk(svc, outcome.value) else ResolveFail(svc);
      ghost var now := Now();
      SuperviseMulti(svc, outcome);
      WithQueue(now, svc, outcome, queue);
      assert NowWith(queue) == Next(s, e);
      NextKeepsInOrder(s, e, orderly);
      BesideShifts(s, e);
    }

    /** Any number of outstanding resolutions end, in any way. */
    method Land(ghost queue: seq<string>, ghost orderly: bool)
      requires InOrder(NowWith(queue), orderly)
      modifies `forwards, `order, `children, `pending, `nextId
      ensures InOrder(NowWith(queue), orderly) && Shifted(old(NowWith(queue)), {}, {}, NowWith(queue))
      ensures old(pending) == multiset{} ==> NowWith(queue) == old(NowWith(queue))
    {
      ghost var s := NowWith(queue);
      var several: nat := *;
      ShiftedNowhere(s);
      while several > 0 && |pending| > 0
        invariant InOrder(NowWith(queue), orderly) && Shifted(s, {}, {}, NowWith(queue))
        invariant s.pending == multiset{} ==> NowWith(queue) == s
        decreases several
      {
        ghost var mid := NowWith(queue);
        var svc :| svc in pending;
        var outcome: Option<seq<ResolvedPort>> := *;
        if outcome == Some([]) { outcome := None; }
        LandOne(svc, outcome, queue, orderly);
        ShiftedThen(s, {}, {}, mid, {}, NowWith(queue));
        several := several - 1;
      }
    }

    // -------------------------------------------------------------------
    // Removing
    // -------------------------------------------------------------------

    method DeleteFromOrder(name: string)
      modifies `order
      ensures order == RemoveFirst(old(order), name)
    {
      for i := 0 to |order|
        invariant order == old(order)
        invariant RemoveFirst(order, name) == order[..i] + RemoveFirst(order[i..], name)
      {
        RemoveFirstFrom(order, i, name);
        if order[i] == name {
          order := order[..i] + order[i + 1..];
          return;
        }
      }
      assert order[|order|..] == [] && order[..|order|] == order;
    }

    method RemoveSingle(name: string) returns (ok: bool)
      modifies `forwards, `order
      ensures ok == (name in old(forwards))
      ensures Now() == DropEntry(old(Now()), name)
    {
      if name !in forwards { return false; }
      forwards := forwards - {name};
      DeleteFromOrder(name);
      return true;
    }

    /** The head of what is left to remove, after whatever landed before. */
    method RemoveHead(name: string, ghost rest: seq<string>, ghost orderly: bool) returns (ok: bool)
      requires InOrder(NowWith([name] + rest), orderly)
      modifies `forwards, `order, `children, `pending, `nextId
      ensures InOrder(NowWith(rest), orderly) && Stepped(old(NowWith([name] + rest)), name, NowWith(rest), ok)
    {
      Land([name] + rest, orderly);
      ghost var mid := NowWith([name] + rest);
      ok := RemoveSingle(name);
      assert NowWith(rest) == StepRemoval(mid);
      NextKeepsInOrder(mid, RemoveStep, orderly);
      HeadSteps(old(NowWith([name] + rest)), mid, name, NowWith(rest));
    }

    /** One step of the removal that began in b. */
    method RemoveNext(ghost b: State, listed: seq<string>, i: nat, okSoFar: bool, ghost orderly: bool)
      returns (ok: bool)
      requires i < |listed| && Identified(b) && InOrder(NowWith(listed[i..]), orderly)
      requires Progress(b, listed, i, NowWith(listed[i..]), okSoFar)
      modifies `forwards, `order, `children, `pending, `nextId
      ensures InOrder(NowWith(listed[i + 1..]), orderly) && Progress(b, listed, i + 1, NowWith(listed[i + 1..]), ok)
    {
      ghost var s := NowWith(listed[i..]);
      assert listed[i..] == [listed[i]] + listed[i + 1..];
      var there := RemoveHead(listed[i], listed[i + 1..], orderly);
      Progresses(b, listed, i, s, NowWith(listed[i + 1..]), okSoFar, there);
      return okSoFar && there;
    }

    /** Remove what is listed; the first step of the removal is done. */
    method RemoveListed(listed: seq<string>, ghost orderly: bool) returns (ok: bool)
      requires InOrder(NowWith(listed), orderly)
      modifies `forwards, `order, `children, `pending, `nextId
      ensures InOrder(Now(), orderly) && Shifted(old(NowWith(listed)), Elements(listed), {}, Now())
      ensures AllThereOnce(old(forwards), listed) ==> ok
      ensures old(pending) == multiset{} ==> Removed(Now(), ok) == Drain(old(NowWith(listed)))
    {
      ghost var b := NowWith(listed);
      ok := true;
      assert b.queue == listed && listed[0..] == listed;
      ProgressAtFirst(b);
      for i := 0 to |listed|
        invariant InOrder(NowWith(listed[i..]), orderly) && Progress(b, listed, i, NowWith(listed[i..]), ok)
      {
        ok := RemoveNext(b, listed, i, ok, orderly);
      }
      assert listed[|listed|..] == [];
      ProgressAtLast(b, Now(), ok);
    }

    /** The first step of a removal: what is left to remove. */
    method BeginRemove(name: string) returns (listed: seq<string>)
      modifies `forwards, `order, `children
      ensures NowWith(listed) == BeginRemoval(old(Now()), name)
    {
      listed := [name];
      if name in children {
        listed := children[name];
        children := children - {name};
        var _ := RemoveSingle(name);
      }
    }

    /** Resolutions may land between the steps. The command loop never answers
        a command with an empty name. */
    method RemoveService(name: string) returns (ok: bool)
      requires name != "" && Consistent(Now())
      modifies `forwards, `order, `children, `pending, `nextId
      ensures Consistent(Now()) && (old(Orderly(Now())) ==> Orderly(Now()))
      ensures Shifted(old(Now()), Targets(old(Now()), name), {name}, Now())
      ensures Removable(old(Now()), name) ==> ok
      ensures old(pending) == multiset{} ==> Removed(Now(), ok) == DoRemove(old(Now()), name)
    {
      ghost var s := Now();
      NextKeepsInOrder(s, RemoveBegin(name), Orderly(s));
      var listed := BeginRemove(name);
      ghost var b := NowWith(listed);
      ok := RemoveListed(listed, Orderly(s));
      RemovalShifts(s, name, Now());
      RemovableIsThere(s, name, b);
    }

    /** One of several. quietly: nothing is under way, and the name is nobody's
        child. */
    method RemoveOne(name: string, ghost quietly: bool) returns (ok: bool)
      requires name != "" && Orderly(Now()) && (quietly ==> Quiescent(Now()) && NotAChild(Now(), name))
      modifies `forwards, `order, `children, `pending, `nextId
      ensures Orderly(Now()) && Shifted(old(Now()), Targets(old(Now()), name), {name}, Now())
      ensures quietly ==>
                && Quiescent(Now()) && Now() == Without(old(Now()), {name})
                && ok == (name in old(TopLevel(Now())))
    {
      if quietly {
        RemoveTakesTheService(Now(), name);
        WithoutKeepsQuiescent(Now(), {name});
      }
      ok := RemoveService(name);
    }

    /** Remove several services, in any order, and count those there were, with
        resolutions landing in between. */
    method RemoveAll(names: set<string>) returns (count: nat, ghost gone: set<string>)
      requires Orderly(Now()) && "" !in names
      modifies `forwards, `order, `children, `pending, `nextId
      ensures Orderly(Now()) && Cleared(old(Now()), names, gone, Now())
      ensures old(QuietFor(Now(), names)) ==>
                && Now() == Without(old(Now()), names) && Quiescent(Now())
                && count == |names * TopLevel(old(Now()))|
    {
      ghost var s, quietly := Now(), QuietFor(Now(), names);
      var todo := names;
      count, gone := 0, {};
      ClearedAtFirst(s);
      if quietly { WithoutNothing(s); }
      assert names - todo == {};
      while todo != {}
        invariant todo <= names && Orderly(Now()) && Cleared(s, names - todo, gone, Now())
        invariant quietly ==> Quietly(s, names - todo, Now(), count)
        decreases todo
      {
        var n :| n in todo;
        ghost var mid := Now();
        if quietly { OneMoreWithout(s, names, todo, n); }
        var ok := RemoveOne(n, quietly);
        OneMoreCleared(s, names, todo, gone, mid, n, Now());
        gone := gone + Targets(mid, n);
        if ok { count := count + 1; }
        todo := todo - {n};
      }
      assert names - todo == names;
    }

    method RemoveAllQuietly(names: set<string>) returns (count: nat)
      requires QuietFor(Now(), names) && "" !in names
      modifies `forwards, `order, `children, `pending, `nextId
      ensures Now() == Without(old(Now()), names) && Quiescent(Now())
      ensures count == |names * TopLevel(old(Now()))|
    {
      ghost var gone;
      count, gone := RemoveAll(names);
    }

    // -------------------------------------------------------------------
    // Services owned by other instances
    // -------------------------------------------------------------------

    method Overlay(externals: seq<ExternalForward>) returns (overlay: map<string, ExternalForward>)
      ensures overlay == OverlayOf(externals)
    {
      overlay := map[];
      for i := 0 to |externals|
        invariant overlay == OverlayOf(externals[..i])
      {
        assert externals[..i + 1][..i] == externals[..i];
        overlay := overlay[externals[i].service.name := externals[i]];
      }
      assert externals[..|externals|] == externals;
    }

    /** The names that were not external before. */
    method SetExternalForwards(externals: seq<ExternalForward>) returns (newly: set<string>)
      modifies `external
      ensures external == OverlayOf(externals)
      ensures newly == external.Keys - old(external.Keys)
    {
      var overlay := Overlay(externals);
      newly := {};
      var todo := overlay.Keys;
      while todo != {}
        invariant todo <= overlay.Keys && newly == overlay.Keys - todo - external.Keys
        decreases todo
      {
        var n :| n in todo;
        if n !in external { newly := newly + {n}; }
        todo := todo - {n};
      }
      external := overlay;
    }

    /** Stop what just became external. gone are the forwards that takes. */
    method RefreshExternalForwards(detected: Option<seq<ExternalForward>>) returns (ghost gone: set<string>)
      requires Orderly(Now()) && (detected.Some? ==> AllNamed(detected.value))
      modifies this
      ensures external == Refreshed(old(external), detected)
      ensures Orderly(Now()) && Cleared(old(Now()), external.Keys - old(external.Keys), gone, Now())
      ensures old(QuietFor(Now(), Refreshed(external, detected).Keys - external.Keys)) ==>
                Quiescent(Now()) && Now() == Without(old(Now()), external.Keys - old(external.Keys))
    {
      if detected.None? {
        assert external.Keys - external.Keys == {};
        ClearedAtFirst(Now());
        WithoutNothing(Now());
        return {};
      }
      OverlayNames(detected.value);
      var newly := SetExternalForwards(detected.value);
      assert old(Now()) == Now();
      var _, taken := RemoveAll(newly);
      gone := taken;
    }

    // -------------------------------------------------------------------
    // Reloading
    // -------------------------------------------------------------------

    method ChildSet() returns (childSet: set<string>)
      ensures childSet == Listed(Now())
    {
      childSet := {};
      var todo := children.Keys;
      while todo != {}
        invariant todo <= children.Keys
        invariant childSet == set p, c | p in children && p !in todo && c in children[p] :: c
        decreases todo
      {
        var p :| p in todo;
        ghost var before := childSet;
        for i := 0 to |children[p]|
          invariant childSet == before + Elements(children[p][..i])
        {
          OneMore(children[p], i);
          childSet := childSet + {children[p][i]};
        }
        assert children[p][..|children[p]|] == children[p];
        todo := todo - {p};
      }
    }

    /** Remove what is no longer configured: parents first, then the forwards
        that were running and are on nobody's list. */
    method RemoveStale(desired: map<string, ServiceConfig>, running: set<string>, parents: set<string>)
      returns (removed: nat)
      requires Quiescent(Now()) && running == forwards.Keys && parents == children.Keys
      modifies `forwards, `order, `children, `pending, `nextId
      ensures Now() == Without(old(Now()), Stale(old(Now()), desired)) && Quiescent(Now())
      ensures removed == |Stale(old(Now()), desired)|
    {
      ghost var s := Now();
      StaleParents(s, desired);
      removed := RemoveAllQuietly(parents - desired.Keys);
      var more := RemoveStaleForwards(s, desired, running);
      removed := removed + more;
    }

    method RemoveStaleForwards(ghost s: State, desired: map<string, ServiceConfig>, running: set<string>)
      returns (removed: nat)
      requires Quiescent(s) && running == s.forwards.Keys
      requires Quiescent(Now()) && Now() == Without(s, s.children.Keys - desired.Keys)
      modifies `forwards, `order, `children, `pending, `nextId
      ensures Now() == Without(s, Stale(s, desired)) && Quiescent(Now())
      ensures |(s.children.Keys - desired.Keys) * TopLevel(s)| + removed == |Stale(s, desired)|
    {
      var childSet := ChildSet();
      StaleForwards(s, desired, Now());
      removed := RemoveAllQuietly(running - desired.Keys - childSet);
    }

    /** A step of the reload's second pass: take a service down and, unless that
        reports an error, put it back as configured now. Resolutions land where
        they can: before is when it goes down, later when it is put back. */
    method ReplaceService(svc: ServiceConfig)
      returns (ok: bool, refused: Option<AddError>, ghost before: State, ghost down: State, ghost later: State)
      requires svc.name != "" && Orderly(Now())
      modifies `forwards, `order, `children, `pending, `nextId
      ensures Replaces(old(Now()), svc, ok, refused, before, down, later, Now())
      ensures svc.IsMultiPort() && '/' !in svc.name && Removable(before, svc.name) ==>
                (svc.name in TopLevel(Now()) <==> ValidService(svc))
      ensures old(pending) == multiset{} ==> Now() == Replaced(old(Now()), svc)
    {
      Land([], true);
      before, refused := Now(), None;
      ok := RemoveService(svc.name);
      down, later := Now(), Now();
      if !ok { return; }
      refused, later := AddLater(svc);
      if svc.IsMultiPort() && Removable(before, svc.name) {
        ReplacesStaysIff(old(Now()), svc, ok, refused, before, down, later, Now());
      }
    }

    /** One configured name, while the names of todo are still to be visited. */
    method ReAddIfRunning(ghost s: State, desired: map<string, ServiceConfig>, parents: set<string>,
                          ghost todo: set<string>, ghost lost: set<string>, n: string)
      returns (ghost lost': set<string>)
      requires Quiescent(s) && WellKeyed(desired) && desired.Keys * parents == desired.Keys * s.children.Keys
      requires n in todo && todo <= desired.Keys
      requires ReAdded(s, desired, Now(), Again(s, desired) - todo, lost)
      modifies `forwards, `order, `children, `pending, `nextId
      ensures ReAdded(s, desired, Now(), Again(s, desired) - (todo - {n}), lost')
    {
      AgainStep(s, desired, parents, todo, n);
      lost' := lost;
      if desired[n].IsMultiPort() && n in parents {
        ghost var t := Now();
        var ok, refused, before, down, later := ReplaceService(desired[n]);
        lost' := ReAddedNext(s, desired, t, Again(s, desired) - todo, lost, n, ok, refused, before, down, later, Now());
        assert Again(s, desired) - (todo - {n}) == Again(s, desired) - todo + {n};
      } else {
        assert Again(s, desired) - (todo - {n}) == Again(s, desired) - todo;
      }
    }

    /** Multi-port services that were running are removed and added again. */
    method ReAdd(ghost s: State, desired: map<string, ServiceConfig>, parents: set<string>)
      returns (ghost lost: set<string>)
      requires Quiescent(s) && Now() == s && WellKeyed(desired)
      requires desired.Keys * parents == desired.Keys * children.Keys
      modifies `forwards, `order, `children, `pending, `nextId
      ensures ReAdded(s, desired, Now(), Again(s, desired), lost)
    {
      var todo := desired.Keys;
      lost := {};
      ReAddedAtFirst(s, desired);
      assert Again(s, desired) - todo == {};
      while todo != {}
        invariant todo <= desired.Keys
        invariant ReAdded(s, desired, Now(), Again(s, desired) - todo, lost)
        decreases todo
      {
        var n :| n in todo;
        lost := ReAddIfRunning(s, desired, parents, todo, lost, n);
        todo := todo - {n};
      }
      assert Again(s, desired) - todo == Again(s, desired);
    }

    method PruneExternal(desired: map<string, ServiceConfig>)
      modifies `external
      ensures external == map n | n in old(external) && n in desired :: old(external)[n]
    {
      var todo := external.Keys;
      while todo != {}
        invariant todo <= old(external).Keys
        invariant external == map n | n in old(external) && (n in desired || n in todo) :: old(external)[n]
        decreases todo
      {
        var n :| n in todo;
        if n !in desired { external := external - {n}; }
        todo := todo - {n};
      }
    }

    /** Configured services that are not there are added, unless external. */
    method AddNew(ghost s: State, desired: map<string, ServiceConfig>, running: set<string>, parents: set<string>,
                  ghost g: Stage)
      returns (count: nat, ghost added: set<string>, ghost failed: set<string>)
      requires Quiescent(s) && WellKeyed(desired) && g.added == {} && Adding(s, desired, Now(), g, g.lost)
      requires (desired.Keys - running - parents) !! (s.forwards.Keys + s.children.Keys)
      modifies `forwards, `order, `children, `pending, `nextId
      ensures Adding(s, desired, Now(), Stage(g.redo, g.lost, added), g.lost + failed)
      ensures added !! failed && added + failed == desired.Keys - running - parents - external.Keys && count == |added|
    {
      var todo := desired.Keys;
      ghost var wanted := desired.Keys - running - parents - external.Keys;
      count, added, failed := 0, {}, {};
      assert Stage(g.redo, g.lost, added) == g && g.lost + failed == g.lost;
      while todo != {}
        invariant todo <= desired.Keys
        invariant Adding(s, desired, Now(), Stage(g.redo, g.lost, added), g.lost + failed)
        invariant unchanged(`external) && Tally(wanted, todo, added, failed, count)
        decreases todo
      {
        var n :| n in todo;
        if n !in running && n !in parents && n !in external {
          assert n in desired.Keys - running - parents;
          var refused := AddOne(s, desired, Stage(g.redo, g.lost, added), g.lost + failed, n);
          TallyMore(wanted, todo, added, failed, count, n);
          UnionMore(g.lost, failed, n);
          if refused { failed := failed + {n}; } else { count := count + 1; added := added + {n}; }
        } else {
          TallySkip(wanted, todo, added, failed, count, n);
        }
        todo := todo - {n};
      }
      TallyInTheEnd(wanted, added, failed, count);
    }

    /** The add of one service, after whatever landed before it. */
    method AddLater(svc: ServiceConfig) returns (refused: Option<AddError>, ghost later: State)
      requires Orderly(Now())
      modifies `forwards, `order, `children, `pending, `nextId
      ensures unchanged(`external)
      ensures Orderly(later) && later.queue == [] && Shifted(old(Now()), {}, {}, later)
      ensures refused == Refusal(later, svc)
      ensures Now() == if refused.None? then Reserve(later, svc) else later
      ensures old(pending) == multiset{} ==> later == old(Now())
    {
      Land([], true);
      assert unchanged(`external);
      later := Now();
      refused := AddService(svc);
    }

    method AddOne(ghost s: State, desired: map<string, ServiceConfig>, ghost g: Stage, ghost refused: set<string>,
                  n: string)
      returns (failed: bool)
      requires Quiescent(s) && WellKeyed(desired) && Adding(s, desired, Now(), g, refused)
      requires n in desired && n !in s.children && n !in s.forwards && n !in g.added
      modifies `forwards, `order, `children, `pending, `nextId
      ensures unchanged(`external)
      ensures if failed then Adding(s, desired, Now(), g, refused + {n})
              else Adding(s, desired, Now(), Stage(g.redo, g.lost, g.added + {n}), refused)
    {
      ghost var t := Now();
      var error, later := AddLater(desired[n]);
      AddingNext(s, desired, t, g, refused, n, later);
      return error.Some?;
    }

    /** See ReloadsNames for what it does, and Reloads for all it does. */
    method Reload(services: seq<ServiceConfig>, detected: Option<seq<ExternalForward>>)
      returns (added: nat, removed: nat, ghost failed: set<string>)
      requires Quiescent(Now()) && forall svc | svc in services :: svc.parentName == ""
      requires detected.Some? ==> NotOurChildren(Now(), detected.value)
      modifies this
      ensures ReloadsTo(old(Now()), old(external), services, detected, Now(), external, added, removed, failed)
      ensures ReloadsNames(old(Now()), old(external), services, detected, Now(), external.Keys, added, removed, failed)
      ensures AsDetected(old(external), detected, external)
    {
      QuietlyRefreshed(Now(), external, detected);
      ghost var gone := RefreshExternalForwards(detected);
      added, removed, failed := ReloadServices(services);
      ReloadGoesByNames(old(Now()), old(external), services, detected, Now(), external, added, removed, failed);
    }

    /** The rest of a reload, once what became external is stopped. */
    method ReloadServices(services: seq<ServiceConfig>) returns (added: nat, removed: nat, ghost failed: set<string>)
      requires Quiescent(Now()) && forall svc | svc in services :: svc.parentName == ""
      modifies this
      ensures external == Pruned(old(external), Desired(services))
      ensures Reloads(old(Now()), Desired(services), external.Keys, Now(), added, removed, failed)
    {
      ghost var s := Now();
      var running, parents := forwards.Keys, children.Keys;
      var desired := Desire(services);
      DesiredIsWellKeyed(services);
      removed := RemoveStale(desired, running, parents);
      ghost var mid := Now();
      StaleLeaves(s, desired);
      ghost var lost := ReAdd(mid, desired, parents);
      PruneExternal(desired);
      ghost var g := Stage(Again(mid, desired), lost, {});
      FitsNone(desired, PortsKept(mid, g.redo));
      ghost var news, refused;
      added, news, refused := AddNew(mid, desired, running, parents, g);
      failed := lost + refused;
      WantedInTheEnd(s, desired, external.Keys, news, lost, refused);
      ReloadsInTheEnd(s, desired, external.Keys, Now(), Stage(g.redo, g.lost, news), failed);
    }

    /** The same reload again, after one from st that converged in t and whose
        resolutions have landed since: nothing is added, nothing removed, the
        single-port forwards stay the identical ones, and only multi-port
        services named like a child can be lost. */
    method ReloadAgain(services: seq<ServiceConfig>, detected: Option<seq<ExternalForward>>,
                       ghost st: State, ghost earlier: map<string, ExternalForward>, ghost t: State,
                       ghost added: nat, ghost removed: nat, ghost failed: set<string>)
      returns (more: nat, fewer: nat, ghost lost: set<string>)
      requires Quiescent(Now()) && forall svc | svc in services :: svc.parentName == ""
      requires detected.Some? ==> NotOurChildren(Now(), detected.value)
      requires ReloadsTo(st, earlier, services, detected, t, external, added, removed, failed)
      requires TopLevel(t) == ConfiguredNames(services) - external.Keys && Moved(t, {}, {}, Now())
      modifies this
      ensures more == 0 && fewer == 0 && external == old(external)
      ensures TopLevel(Now()) == TopLevel(t) - lost
      ensures forall n | n in lost :: n in t.children && '/' in n
      ensures SinglesStayed(old(Now()), Now())
    {
      ghost var u, e := Now(), external;
      DesiredIsWellKeyed(services);
      DesiredAreTheNames(services);
      more, fewer, lost := Reload(services, detected);
      SecondReload(services, detected, st, earlier, t, e, added, removed, failed,
                   u, Now(), external, more, fewer, lost);
    }

    method Desire(services: seq<ServiceConfig>) returns (desired: map<string, ServiceConfig>)
      ensures desired == Desired(services)
    {
      desired := map[];
      for i := 0 to |services|
        invariant desired == Desired(services[..i])
      {
        assert services[..i + 1][..i] == services[..i];
        desired := desired[services[i].name := services[i]];
      }
      assert services[..|services|] == services;
    }

    // -------------------------------------------------------------------
    // Releasing one configuration's services
    // -------------------------------------------------------------------

    method ChildToParent() returns (parentOf: map<string, string>)
      ensures IsIndex(Now(), parentOf)
    {
      parentOf := map[];
      var todo := children.Keys;
      while todo != {}
        invariant todo <= children.Keys
        invariant parentOf.Keys == set p, c | p in children && p !in todo && c in children[p] :: c
        invariant forall c | c in parentOf :: parentOf[c] in children && c in children[parentOf[c]]
        decreases todo
      {
        var p :| p in todo;
        ghost var before := parentOf.Keys;
        for i := 0 to |children[p]|
          invariant parentOf.Keys == before + Elements(children[p][..i])
          invariant forall c | c in parentOf :: parentOf[c] in children && c in children[parentOf[c]]
        {
          OneMore(children[p], i);
          parentOf := parentOf[children[p][i] := p];
        }
        assert children[p][..|children[p]|] == children[p];
        todo := todo - {p};
      }
    }

    method SourceOwners(source: string) returns (owners: set<string>, parentOf: map<string, string>)
      ensures IsIndex(Now(), parentOf) && owners == OwnersByIndex(Now(), parentOf, source)
    {
      parentOf := ChildToParent();
      owners := {};
      var todo := forwards.Keys;
      while todo != {}
        invariant todo <= forwards.Keys
        invariant owners == set n | n in forwards && n !in todo && forwards[n].sourceConfig == source ::
                              ByIndex(parentOf, n)
        decreases todo
      {
        var n :| n in todo;
        if forwards[n].sourceConfig == source {
          owners := owners + {if n in parentOf then parentOf[n] else n};
        }
        todo := todo - {n};
      }
    }

    /** Take down every service one of whose forwards came from the source,
        whatever else is under way. gone are the forwards that takes. */
    method ReleaseBySource(source: string) returns (count: nat, ghost owners: set<string>, ghost gone: set<string>)
      requires Orderly(Now())
      modifies `forwards, `order, `children, `pending, `nextId
      ensures Orderly(Now()) && Cleared(old(Now()), owners, gone, Now()) && Owning(old(Now()), source, owners)
      ensures old(Quiescent(Now())) ==>
                && Now() == Without(old(Now()), OwnersFrom(old(Now()), source)) && Quiescent(Now())
                && count == |OwnersFrom(old(Now()), source)|
    {
      var toRemove, parentOf := SourceOwners(source);
      owners := toRemove;
      OwningByIndex(Now(), parentOf, source);
      if Quiescent(Now()) {
        LiveOwnersByIndex(Now(), parentOf, source);
        OwnersCanBeRemoved(Now(), source);
      }
      count, gone := RemoveAll(toRemove);
    }

    // -------------------------------------------------------------------
    // Address mappings
    // -------------------------------------------------------------------

    /** No name of the order is ever missing from the map. */
    method Mappings(clusterDomain: string) returns (mappings: seq<AddressMapping>)
      requires Agreement(Now())
      ensures var domain := if clusterDomain == "" then "cluster.local" else clusterDomain;
              && mappings == Rows(EntriesOf(order, forwards), Naming(domain, namespace))
              && forall m :: m in mappings <==> MapsOne(forwards, Naming(domain, namespace), m)
    {
      var domain := if clusterDomain == "" then "cluster.local" else clusterDomain;
      mappings := [];
      for i := 0 to |order|
        invariant mappings == Rows(EntriesOf(order[..i], forwards), Naming(domain, namespace))
      {
        assert order[i] in order;
        RowsMore(order, i, forwards, Naming(domain, namespace));
        var rows := MappingsOf(order[i], domain);
        mappings := mappings + rows;
      }
      assert order[..|order|] == order;
      forall m ensures m in mappings <==> MapsOne(forwards, Naming(domain, namespace), m) {
        MapsOneOf(Now(), Naming(domain, namespace), m);
      }
    }

    method MappingsOf(name: string, domain: string) returns (rows: seq<AddressMapping>)
      requires name in forwards
      ensures rows == EntryRows(Entry(name, forwards[name]), Naming(domain, namespace))
    {
      var f := forwards[name];
      var port := if f.actualPort == 0 then f.svc.localPort else f.actualPort;
      rows := [];
      if f.state != Running || port <= 0 { return; }
      var ns := if f.svc.namespace == "" then namespace else f.svc.namespace;
      var target := if f.svc.service == "" then f.svc.pod else f.svc.service;
      if target == "" { return; }
      var names := [target, target + "." + ns];
      if f.svc.service != "" {
        names := [target, target + "." + ns, target + "." + ns + ".svc", target + "." + ns + ".svc." + domain];
      }
      for j := 0 to |names|
        invariant rows == RowsFor(Entry(name, f), Naming(domain, namespace), names[..j])
      {
        assert names[..j + 1][..j] == names[..j];
        rows := rows + [AddressMapping(names[j] + ":" + Itoa(f.svc.remotePort), "localhost:" + Itoa(port), name)];
      }
      assert names[..|names|] == names;
    }
  }

  /** The overlay a list of reports makes; the last of a name counts. */
  function OverlayOf(externals: seq<ExternalForward>): map<string, ExternalForward> {
    if externals == [] then map[]
    else OverlayOf(externals[..|externals| - 1])[externals[|externals| - 1].service.name := externals[|externals| - 1]]
  }

  /** The names reported as owned elsewhere. */
  function ReportedNames(externals: seq<ExternalForward>): set<string> { set e | e in externals :: e.service.name }

  /** e is the last report of its name. */
  ghost predicate LastReport(externals: seq<ExternalForward>, e: ExternalForward) {
    exists i :: 0 <= i < |externals| && externals[i] == e
                && forall j | i < j < |externals| :: externals[j].service.name != e.service.name
  }

  lemma LastReportMore(init: seq<ExternalForward>, last: ExternalForward, e: ExternalForward)
    ensures LastReport(init + [last], last)
    ensures LastReport(init, e) && e.service.name != last.service.name ==> LastReport(init + [last], e)
  {
    var more := init + [last];
    assert more[|init|] == last && forall i | 0 <= i < |init| :: more[i] == init[i];
    if LastReport(init, e) && e.service.name != last.service.name {
      var i :| 0 <= i < |init| && init[i] == e
               && forall j | i < j < |init| :: init[j].service.name != e.service.name;
      assert more[i] == e;
    }
  }

  /** A name is external exactly when some report is of it, and then as the last
      such report says. */
  lemma {:induction false} OverlayIsTheLast(externals: seq<ExternalForward>, n: string)
    ensures n in OverlayOf(externals) <==> n in ReportedNames(externals)
    ensures n in OverlayOf(externals) ==>
              OverlayOf(externals)[n].service.name == n && LastReport(externals, OverlayOf(externals)[n])
  {
    if externals != [] {
      var init, last := externals[..|externals| - 1], externals[|externals| - 1];
      OverlayIsTheLast(init, n);
      assert externals == init + [last];
      if n in OverlayOf(externals) { LastReportMore(init, last, OverlayOf(externals)[n]); }
    }
  }

  lemma OverlayAreTheReported(externals: seq<ExternalForward>)
    ensures OverlayOf(externals).Keys == ReportedNames(externals)
  {
    forall n ensures n in OverlayOf(externals) <==> n in ReportedNames(externals) { OverlayIsTheLast(externals, n); }
  }

  predicate AllNamed(externals: seq<ExternalForward>) {
    forall i | 0 <= i < |externals| :: externals[i].service.name != ""
  }

  ghost predicate NotOurChildren(st: State, externals: seq<ExternalForward>) {
    AllNamed(externals) && forall i | 0 <= i < |externals| :: NotAChild(st, externals[i].service.name)
  }

  lemma {:induction false} OverlayNames(externals: seq<ExternalForward>)
    ensures forall n | n in OverlayOf(externals) :: exists i :: 0 <= i < |externals| && externals[i].service.name == n
  {
    if externals != [] { OverlayNames(externals[..|externals| - 1]); }
  }

  ghost function Listed(st: State): set<string> {
    set p, c | p in st.children && c in st.children[p] :: c
  }

  /** The forwards in the order the manager lists them. */
  ghost function EntriesOf(order: seq<string>, forwards: map<string, Forward>): (entries: seq<Entry>)
    requires forall i | 0 <= i < |order| :: order[i] in forwards
    ensures |entries| == |order|
    ensures forall i | 0 <= i < |order| :: entries[i] == Entry(order[i], forwards[order[i]])
  {
    if order == [] then []
    else EntriesOf(order[..|order| - 1], forwards) + [Entry(order[|order| - 1], forwards[order[|order| - 1]])]
  }

  /** m gives one of the names of a forward that is up, with its ports. */
  ghost predicate MapsOne(forwards: map<string, Forward>, n: Naming, m: AddressMapping) {
    exists name, t, ns, r, p ::
      && name in forwards && IsUp(forwards[name]) && IsForward(forwards[name], n, t, ns, r, p)
      && IsRow(m, Entry(name, forwards[name]), n, t, ns, r, p)
  }

  lemma EntriesAreForwards(st: State, e: Entry)
    requires Agreement(st)
    ensures e in EntriesOf(st.order, st.forwards) <==> e.name in st.forwards && e.forward == st.forwards[e.name]
  {
    var entries := EntriesOf(st.order, st.forwards);
    if i :| 0 <= i < |entries| && entries[i] == e { assert st.order[i] in st.order; }
    if e.name in st.forwards && e.forward == st.forwards[e.name] {
      var i :| 0 <= i < |st.order| && st.order[i] == e.name;
      assert entries[i] == e;
    }
  }

  lemma MapsOneOf(st: State, n: Naming, m: AddressMapping)
    requires Agreement(st)
    ensures m in Rows(EntriesOf(st.order, st.forwards), n) <==> MapsOne(st.forwards, n, m)
  {
    var entries := EntriesOf(st.order, st.forwards);
    RowIff(entries, n, m);
    if MapsOne(st.forwards, n, m) {
      var name, t, ns, r, p :| name in st.forwards && IsUp(st.forwards[name])
                               && IsForward(st.forwards[name], n, t, ns, r, p)
                               && IsRow(m, Entry(name, st.forwards[name]), n, t, ns, r, p);
      EntriesAreForwards(st, Entry(name, st.forwards[name]));
    }
    if e, t, ns, r, p :| e in entries && IsUp(e.forward) && IsForward(e.forward, n, t, ns, r, p)
                         && IsRow(m, e, n, t, ns, r, p) {
      EntriesAreForwards(st, e);
      assert e == Entry(e.name, st.forwards[e.name]);
    }
  }

  lemma RowsMore(order: seq<string>, i: nat, forwards: map<string, Forward>, n: Naming)
    requires i < |order| && forall j | 0 <= j < |order| :: order[j] in forwards
    ensures Rows(EntriesOf(order[..i + 1], forwards), n)
         == Rows(EntriesOf(order[..i], forwards), n) + EntryRows(Entry(order[i], forwards[order[i]]), n)
  {
    assert order[..i + 1][..i] == order[..i];
    var earlier, last := EntriesOf(order[..i], forwards), Entry(order[i], forwards[order[i]]);
    assert EntriesOf(order[..i + 1], forwards) == earlier + [last];
    assert (earlier + [last])[..|earlier|] == earlier;
  }

  /** The lists tell a child's parent. */
  /** A parent that lists it, for every name on a list. */
  ghost predicate IsIndex(st: State, parentOf: map<string, string>) {
    && parentOf.Keys == Listed(st)
    && forall c | c in parentOf :: parentOf[c] in st.children && c in st.children[parentOf[c]]
  }

  function ByIndex(parentOf: map<string, string>, n: string): string { if n in parentOf then parentOf[n] else n }

  ghost function OwnersByIndex(st: State, parentOf: map<string, string>, source: string): set<string> {
    set n | n in st.forwards && st.forwards[n].sourceConfig == source :: ByIndex(parentOf, n)
  }

  /** Every forward from the source is a target of one of them, and each of them
      has such a target. */
  ghost predicate Owning(st: State, source: string, owners: set<string>) {
    && (forall n | n in st.forwards && st.forwards[n].sourceConfig == source :: Among(st, owners, n))
    && (forall o | o in owners :: HasFrom(st, source, o))
  }

  ghost predicate Among(st: State, owners: set<string>, n: string) {
    exists o | o in owners :: n in Targets(st, o)
  }

  ghost predicate HasFrom(st: State, source: string, o: string) {
    exists n | n in Targets(st, o) :: n in st.forwards && st.forwards[n].sourceConfig == source
  }

  lemma OwningByIndex(st: State, parentOf: map<string, string>, source: string)
    requires IsIndex(st, parentOf) && NamesNotEmpty(st)
    ensures Owning(st, source, OwnersByIndex(st, parentOf, source)) && "" !in OwnersByIndex(st, parentOf, source)
  {
    var owners := OwnersByIndex(st, parentOf, source);
    forall n | n in st.forwards && st.forwards[n].sourceConfig == source
      ensures Among(st, owners, n) && HasFrom(st, source, ByIndex(parentOf, n)) && ByIndex(parentOf, n) != ""
    {
      TargetByIndex(st, parentOf, n);
      assert ByIndex(parentOf, n) in owners;
    }
  }

  lemma TargetByIndex(st: State, parentOf: map<string, string>, n: string)
    requires IsIndex(st, parentOf) && NamesNotEmpty(st) && n in st.forwards
    ensures n in Targets(st, ByIndex(parentOf, n)) && ByIndex(parentOf, n) != ""
  {}

  lemma OwnerByIndex(st: State, parentOf: map<string, string>, n: string)
    requires Live(st) && NoOrphans(st) && st.queue == [] && "" !in st.children
    requires n in st.forwards && IsIndex(st, parentOf)
    ensures OwnerOf(st, n) == ByIndex(parentOf, n)
  {
    assert Parent(st.forwards[n]) != "" ==> Tracked(st, n, Parent(st.forwards[n]));
    assert forall p, c | p in st.children && c in st.children[p] :: c in Listed(st);
  }

  lemma LiveOwnersByIndex(st: State, parentOf: map<string, string>, source: string)
    requires Quiescent(st) && IsIndex(st, parentOf)
    ensures OwnersByIndex(st, parentOf, source) == OwnersFrom(st, source)
  {
    forall n | n in st.forwards ensures OwnerOf(st, n) == ByIndex(parentOf, n) { OwnerByIndex(st, parentOf, n); }
  }

  /** From any books a release takes every forward from the source, and no single
      forward from another one unless its name has a slash. */
  lemma ReleaseTakesTheSource(st: State, source: string, owners: set<string>, gone: set<string>, r: State, n: string)
    requires Owning(st, source, owners) && Cleared(st, owners, gone, r) && n in st.forwards
    ensures st.forwards[n].sourceConfig == source ==> !Same(st, r, n)
    ensures st.forwards[n].sourceConfig != source && '/' !in n && n !in st.children ==> Stays(st, r, n)
  {
    if st.forwards[n].sourceConfig == source {
      assert Among(st, owners, n);
    } else if n in owners {
      assert HasFrom(st, source, n);
    }
  }

  /** But a multi-port service whose ports are still being resolved has no forward
      yet, and is not released. */
  lemma ReleaseSkipsUnresolved(st: State, source: string, owners: set<string>, gone: set<string>, r: State, p: string)
    requires Owning(st, source, owners) && Cleared(st, owners, gone, r)
    requires p in st.children && st.children[p] == [] && p !in st.forwards
    ensures p in r.children
  {
    assert Targets(st, p) == {p};
    assert !HasFrom(st, source, p);
  }

  lemma OwnersCanBeRemoved(st: State, source: string)
    requires Quiescent(st)
    ensures forall p | p in OwnersFrom(st, source) :: p != "" && NotAChild(st, p)
    ensures OwnersFrom(st, source) * TopLevel(st) == OwnersFrom(st, source)
  {
    forall n | n in st.forwards
      ensures OwnerOf(st, n) in TopLevel(st) && OwnerOf(st, n) != "" && NotAChild(st, OwnerOf(st, n))
    {
      OwnersAreTopLevel(st, n);
      if OwnerOf(st, n) in st.children { ParentsAreNoChildren(st, OwnerOf(st, n)); }
    }
  }

  /** Nothing is under way, and the names are nobody's children. */
  ghost predicate QuietFor(st: State, names: set<string>) {
    Quiescent(st) && forall n | n in names :: NotAChild(st, n)
  }

  ghost predicate Quietly(s: State, done: set<string>, t: State, count: nat) {
    t == Without(s, done) && Quiescent(t) && count == |done * TopLevel(s)|
  }

  /** The names were removed from st: they and what they listed are gone, and
      nothing else but what has a slash. */
  ghost predicate Cleared(st: State, names: set<string>, gone: set<string>, r: State) {
    && Shifted(st, gone, names, r)
    && (forall n | n in names :: Targets(st, n) <= gone)
    && (forall n | n in gone :: n in names || '/' in n)
  }

  lemma ClearedAtFirst(st: State)
    ensures Cleared(st, {}, {}, st)
  {
    assert st.children.Keys - {} == st.children.Keys;
  }

  lemma OneMoreCleared(s: State, names: set<string>, todo: set<string>, gone: set<string>,
                       mid: State, n: string, r: State)
    requires Orderly(s) && n in todo && todo <= names && Cleared(s, names - todo, gone, mid)
    requires Orderly(mid) && Shifted(mid, Targets(mid, n), {n}, r) && Orderly(r) && r.queue == []
    ensures Cleared(s, names - (todo - {n}), gone + Targets(mid, n), r)
  {
    assert names - todo + {n} == names - (todo - {n});
    ShiftedBoth(s, gone, names - todo, mid, Targets(mid, n), {n}, r);
    SameTargets(s, gone, names - todo, mid, n);
  }

  /** What is listed now was listed then, unless the list was still to come. */
  lemma SameTargets(s: State, gone: set<string>, done: set<string>, mid: State, n: string)
    requires PendingAreFresh(s) && Moved(s, gone, done, mid) && n !in done && ListsHaveSlashes(mid.children)
    ensures Targets(s, n) <= Targets(mid, n) && forall m | m in Targets(mid, n) :: m == n || '/' in m
  {
    if n in s.children && Awaited(s, n) { assert s.children[n] == []; }
  }

  lemma OneMoreWithout(s: State, names: set<string>, todo: set<string>, n: string)
    requires n in todo && todo <= names && NotAChild(s, n)
    ensures NotAChild(Without(s, names - todo), n)
    ensures Without(Without(s, names - todo), {n}) == Without(s, names - (todo - {n}))
    ensures n in TopLevel(Without(s, names - todo)) <==> n in TopLevel(s)
    ensures |(names - (todo - {n})) * TopLevel(s)| == |(names - todo) * TopLevel(s)| + if n in TopLevel(s) then 1 else 0
  {
    assert names - todo + {n} == names - (todo - {n});
    WithoutTwice(s, names - todo, {n});
    WithoutTopLevel(s, names - todo);
    CountOneMore(names - todo, n, TopLevel(s));
  }

  lemma CountOneMore(done: set<string>, n: string, top: set<string>)
    requires n !in done
    ensures |(done + {n}) * top| == |done * top| + if n in top then 1 else 0
  {
    assert (done + {n}) * top == done * top + if n in top then {n} else {};
  }

  lemma AgainStep(s: State, desired: map<string, ServiceConfig>, parents: set<string>, todo: set<string>, n: string)
    requires n in todo && todo <= desired.Keys && desired.Keys * parents == desired.Keys * s.children.Keys
    ensures desired[n].IsMultiPort() && n in parents <==> n in Again(s, desired)
    ensures n in Again(s, desired) ==> n in s.children && n !in Again(s, desired) - todo
    ensures Again(s, desired) - (todo - {n}) == (Again(s, desired) - todo) + if n in Again(s, desired) then {n} else {}
  {
    assert n in desired.Keys * parents <==> n in desired.Keys * s.children.Keys;
  }

  lemma StaleParents(s: State, desired: map<string, ServiceConfig>)
    requires Quiescent(s)
    ensures forall n | n in s.children.Keys - desired.Keys :: n != "" && NotAChild(s, n)
  {
    forall n | n in s.children ensures NotAChild(s, n) { ParentsAreNoChildren(s, n); }
  }

  /** The search for the first occurrence has come to i. */
  lemma RemoveFirstFrom(order: seq<string>, i: nat, name: string)
    requires i < |order|
    ensures order[..i] + RemoveFirst(order[i..], name)
         == if order[i] == name then order[..i] + order[i + 1..] else order[..i + 1] + RemoveFirst(order[i + 1..], name)
  {
    var rest := order[i..];
    assert rest[0] == order[i] && rest[1..] == order[i + 1..];
    if order[i] != name {
      assert order[..i] + ([order[i]] + RemoveFirst(order[i + 1..], name))
          == order[..i + 1] + RemoveFirst(order[i + 1..], name);
    }
  }

  lemma RemovalShifts(st: State, name: string, r: State)
    requires Identified(st) && Shifted(BeginRemoval(st, name), Elements(BeginRemoval(st, name).queue), {}, r)
    ensures Shifted(st, Targets(st, name), {name}, r)
  {
    BeginShifts(st, name);
    TargetsInSteps(st, name);
    ShiftedThen(st, First(st, name), {name}, BeginRemoval(st, name), Elements(BeginRemoval(st, name).queue), r);
  }

  lemma RemovableIsThere(st: State, name: string, b: State)
    requires b == BeginRemoval(st, name)
    ensures Removable(st, name) ==> AllThereOnce(b.forwards, b.queue)
  {
    if name !in st.children && name in st.forwards { assert AllThereOnce(st.forwards, [name]); }
  }

  /** name was removed from st, after whatever landed; ok if it was there. */
  ghost predicate Stepped(st: State, name: string, r: State, ok: bool) {
    && Shifted(st, {name}, {}, r)
    && (name in st.forwards ==> ok)
    && (st.pending == multiset{} ==> st.queue != [] && ok == (name in st.forwards) && r == StepRemoval(st))
  }

  ghost predicate ThereFrom(forwards: map<string, Forward>, names: seq<string>, i: nat) {
    forall k | i <= k < |names| :: names[k] in forwards
  }

  /** A removal that began in b has done i of its steps and is at st. */
  ghost predicate Progress(b: State, listed: seq<string>, i: nat, st: State, ok: bool)
    requires i <= |listed|
  {
    && Shifted(b, Elements(listed[..i]), {}, st)
    && (AllThereOnce(b.forwards, listed) ==> ok && ThereFrom(st.forwards, listed, i))
    && (b.pending == multiset{} ==> st.pending == multiset{} && Remaining(b, st, ok))
  }

  lemma ProgressAtFirst(b: State)
    ensures Progress(b, b.queue, 0, b, true)
  {
    ShiftedNowhere(b);
    assert Elements(b.queue[..0]) == {} && b.queue[0..] == b.queue;
  }

  lemma ProgressAtLast(b: State, st: State, ok: bool)
    requires Progress(b, b.queue, |b.queue|, st, ok) && st.queue == []
    ensures Shifted(b, Elements(b.queue), {}, st)
    ensures AllThereOnce(b.forwards, b.queue) ==> ok
    ensures b.pending == multiset{} ==> Removed(st, ok) == Drain(b)
  {
    assert b.queue[..|b.queue|] == b.queue;
  }

  lemma Progresses(b: State, listed: seq<string>, i: nat, st: State, r: State, ok: bool, there: bool)
    requires i < |listed| && Identified(b) && st.queue == listed[i..] && r.queue == listed[i + 1..]
    requires Progress(b, listed, i, st, ok) && Stepped(st, listed[i], r, there)
    ensures Progress(b, listed, i + 1, r, ok && there)
  {
    ShiftedThen(b, Elements(listed[..i]), {}, st, {listed[i]}, r);
    OneMore(listed, i);
    if AllThereOnce(b.forwards, listed) { RestIsThere(st, listed, i, r); }
    if b.pending == multiset{} { assert r.pending == st.pending; }
  }

  lemma RestIsThere(st: State, listed: seq<string>, i: nat, r: State)
    requires NoDuplicates(listed) && i < |listed| && ThereFrom(st.forwards, listed, i)
    requires Shifted(st, {listed[i]}, {}, r)
    ensures listed[i] in st.forwards && ThereFrom(r.forwards, listed, i + 1)
  {
    forall k | i + 1 <= k < |listed| ensures listed[k] in r.forwards {
      assert listed[k] != listed[i] && listed[k] in st.forwards;
      assert Kept(st, r, listed[k]);
    }
  }

  /** Consistent in any case, and orderly where it is known to be. */
  ghost predicate InOrder(st: State, orderly: bool) {
    Consistent(st) && (orderly ==> Orderly(st))
  }

  lemma NextKeepsInOrder(st: State, e: Event, orderly: bool)
    requires InOrder(st, orderly) && Enabled(st, e) && !e.Add?
    ensures InOrder(Next(st, e), orderly)
  {
    NextKeepsConsistent(st, e);
    if orderly { NextKeepsOrderly(st, e); }
  }

  /** A resolution does not look at the removal in progress. */
  lemma WithQueue(st: State, svc: ServiceConfig, outcome: Option<seq<ResolvedPort>>, queue: seq<string>)
    ensures outcome.Some? ==>
              Resolved(st, svc, outcome.value).(queue := queue) == Resolved(st.(queue := queue), svc, outcome.value)
    ensures outcome.None? ==> Unresolved(st, svc).(queue := queue) == Unresolved(st.(queue := queue), svc)
  {
    if outcome.Some? { RegisterWithQueue(st.(pending := st.pending - multiset{svc}), svc, outcome.value, queue); }
  }

  lemma {:induction false} RegisterWithQueue(st: State, svc: ServiceConfig, ports: seq<ResolvedPort>,
                                             queue: seq<string>)
    ensures Register(st, svc, ports).(queue := queue) == Register(st.(queue := queue), svc, ports)
  {
    if ports != [] { RegisterWithQueue(st, svc, ports[..|ports| - 1], queue); }
  }

  /** A removal that began in b is at st, and has so far been ok. */
  ghost predicate Remaining(b: State, st: State, ok: bool) {
    Drain(b).after == Drain(st).after && (Drain(b).ok <==> ok && Drain(st).ok)
  }

  lemma StaleForwards(s: State, desired: map<string, ServiceConfig>, mid: State)
    requires Quiescent(s) && mid == Without(s, s.children.Keys - desired.Keys)
    ensures var more := s.forwards.Keys - desired.Keys - Listed(mid);
            && (forall n | n in more :: n != "" && NotAChild(mid, n))
            && Without(mid, more) == Without(s, Stale(s, desired))
            && |(s.children.Keys - desired.Keys) * TopLevel(s)| + |more * TopLevel(mid)| == |Stale(s, desired)|
  {
    var gone := s.children.Keys - desired.Keys;
    var more := s.forwards.Keys - desired.Keys - Listed(mid);
    forall n | n in more ensures n != "" && NotAChild(mid, n) { UnlistedIsNoChild(s, gone, n); }
    ListedAreChildren(mid, gone, s);
    WithoutTwice(s, gone, more);
    StaleInParts(s, desired, Listed(mid));
    WithoutTheSame(s, gone + more, Stale(s, desired));
    WithoutTopLevel(s, gone);
    CountInParts(gone, more, TopLevel(s), Stale(s, desired));
  }

  lemma StaleInParts(s: State, desired: map<string, ServiceConfig>, listed: set<string>)
    requires forall n | n in listed :: n in s.forwards && Parent(s.forwards[n]) != "" && n !in s.children
    ensures ((s.children.Keys - desired.Keys) + (s.forwards.Keys - desired.Keys - listed)) * TopLevel(s)
         == Stale(s, desired) * TopLevel(s)
    ensures Stale(s, desired) * TopLevel(s) == Stale(s, desired)
  {}

  lemma CountInParts(gone: set<string>, more: set<string>, top: set<string>, stale: set<string>)
    requires (gone + more) * top == stale
    ensures |gone * top| + |more * (top - gone)| == |stale|
  {
    assert gone * top + more * (top - gone) == stale;
    assert gone * top !! more * (top - gone);
  }

  lemma UnlistedIsNoChild(s: State, gone: set<string>, n: string)
    requires Quiescent(s) && n in s.forwards && n !in Listed(Without(s, gone))
    ensures n != "" && NotAChild(Without(s, gone), n)
  {
    var mid := Without(s, gone);
    var p := Parent(s.forwards[n]);
    assert p != "" ==> Tracked(s, n, p);
    assert forall q | q in mid.children :: q in s.children && mid.children[q] == s.children[q];
    assert forall q, c | q in mid.children && c in mid.children[q] :: c in Listed(mid);
  }

  lemma ListedAreChildren(mid: State, gone: set<string>, s: State)
    requires Quiescent(s) && mid == Without(s, gone)
    ensures forall n | n in Listed(mid) :: n in s.forwards && Parent(s.forwards[n]) != "" && n !in s.children
  {
  }

  /** The overlay a reload starts from, and the one it leaves. */
  function Refreshed(overlay: map<string, ExternalForward>, detected: Option<seq<ExternalForward>>)
    : map<string, ExternalForward>
  {
    if detected.Some? then OverlayOf(detected.value) else overlay
  }

  function Pruned(overlay: map<string, ExternalForward>, desired: map<string, ServiceConfig>)
    : map<string, ExternalForward>
  {
    map n | n in overlay && n in desired :: overlay[n]
  }

  /** What a reload makes of the books st and the overlay. */
  ghost predicate ReloadsTo(st: State, overlay: map<string, ExternalForward>, services: seq<ServiceConfig>,
                            detected: Option<seq<ExternalForward>>, t: State, overlay': map<string, ExternalForward>,
                            added: nat, removed: nat, failed: set<string>) {
    && overlay' == Pruned(Refreshed(overlay, detected), Desired(services))
    && Reloads(Without(st, Refreshed(overlay, detected).Keys - overlay.Keys), Desired(services), overlay'.Keys,
               t, added, removed, failed)
  }

  /** The names owned elsewhere once the detector has answered, if it has. */
  ghost function OwnedElsewhere(overlay: map<string, ExternalForward>, detected: Option<seq<ExternalForward>>)
    : set<string>
  {
    if detected.Some? then ReportedNames(detected.value) else overlay.Keys
  }

  /** What a reload does, told by the names of the configuration and of the
      reports. First what has become external is stopped. Of what is left, the
      services that are not configured go, and configured ones that are not there
      are added unless they are owned elsewhere or refused. A forward of a
      configured single-port service stays the identical one, and a new one is
      what the last service of its name says. */
  ghost predicate ReloadsNames(st: State, overlay: map<string, ExternalForward>, services: seq<ServiceConfig>,
                               detected: Option<seq<ExternalForward>>, t: State, external: set<string>,
                               added: nat, removed: nat, failed: set<string>) {
    var names, owned := ConfiguredNames(services), OwnedElsewhere(overlay, detected);
    var left := Without(st, owned - overlay.Keys);
    var wanted := names - left.forwards.Keys - left.children.Keys - owned;
    && external == names * owned && failed <= names
    && TopLevel(t) == TopLevel(left) * names + wanted - failed
    && removed == |TopLevel(left) - names| && added == |wanted - failed|
    && (forall n | n in left.forwards && Parent(left.forwards[n]) == "" && n !in left.children ::
          if n in names then n in t.forwards && t.forwards[n] == left.forwards[n]
          else n !in t.forwards || t.forwards[n].id != left.forwards[n].id)
    && (forall svc | LastOfItsName(services, svc) && svc.name in wanted - failed ::
          if svc.IsMultiPort() then svc.name in t.children
          else svc.name in t.forwards
               && t.forwards[svc.name] == Forward(t.forwards[svc.name].id, svc, svc.sourceConfig, Starting, 0))
    && (forall svc | svc in t.pending :: LastOfItsName(services, svc))
  }

  lemma OneLastOfItsName(services: seq<ServiceConfig>, a: ServiceConfig, b: ServiceConfig)
    requires LastOfItsName(services, a) && LastOfItsName(services, b) && a.name == b.name
    ensures a == b
  {
    var i :| 0 <= i < |services| && services[i] == a && forall j | i < j < |services| :: services[j].name != a.name;
    var k :| 0 <= k < |services| && services[k] == b && forall j | k < j < |services| :: services[j].name != b.name;
    assert services[i].name == services[k].name;
  }

  lemma OverlaysByName(overlay: map<string, ExternalForward>, detected: Option<seq<ExternalForward>>,
                       services: seq<ServiceConfig>)
    ensures Refreshed(overlay, detected).Keys == OwnedElsewhere(overlay, detected)
    ensures Pruned(Refreshed(overlay, detected), Desired(services)).Keys
         == ConfiguredNames(services) * OwnedElsewhere(overlay, detected)
  {
    DesiredAreTheNames(services);
    if detected.Some? { OverlayAreTheReported(detected.value); }
  }

  lemma WantedByName(s: State, names: set<string>, desired: map<string, ServiceConfig>, owned: set<string>)
    requires desired.Keys == names
    ensures Wanted(s, desired, names * owned) == names - s.forwards.Keys - s.children.Keys - owned
    ensures Stale(s, desired) == TopLevel(s) - names
  {}

  lemma SinglesByName(s: State, services: seq<ServiceConfig>, t: State)
    requires Survivors(s, Desired(services), t)
    ensures forall n | n in s.forwards && Parent(s.forwards[n]) == "" && n !in s.children ::
              if n in ConfiguredNames(services) then n in t.forwards && t.forwards[n] == s.forwards[n]
              else n !in t.forwards || t.forwards[n].id != s.forwards[n].id
  {
    DesiredAreTheNames(services);
    forall n | n in s.forwards && Parent(s.forwards[n]) == "" && n !in s.children
      ensures Survives(s, Desired(services), n) <==> n in ConfiguredNames(services)
    {}
  }

  lemma AddedByName(s: State, services: seq<ServiceConfig>, t: State, added: set<string>, first: nat)
    requires added <= Desired(services).Keys && AddedPresent(Desired(services), t, added, first)
    ensures forall svc | LastOfItsName(services, svc) && svc.name in added ::
              if svc.IsMultiPort() then svc.name in t.children
              else svc.name in t.forwards
                   && t.forwards[svc.name] == Forward(t.forwards[svc.name].id, svc, svc.sourceConfig, Starting, 0)
  {
    DesiredAreTheNames(services);
    forall svc | LastOfItsName(services, svc) && svc.name in added ensures Present(t, svc, first) {
      OneLastOfItsName(services, svc, Desired(services)[svc.name]);
      assert Present(t, Desired(services)[svc.name], first);
    }
  }

  /** What is external is so by the last report of that name, or was so before when the
      detector has not answered. */
  ghost predicate AsDetected(overlay: map<string, ExternalForward>, detected: Option<seq<ExternalForward>>,
                             overlay': map<string, ExternalForward>) {
    forall n | n in overlay' ::
      if detected.Some? then LastReport(detected.value, overlay'[n]) && overlay'[n].service.name == n
      else n in overlay && overlay'[n] == overlay[n]
  }

  lemma ExternalsAreDetected(overlay: map<string, ExternalForward>, detected: Option<seq<ExternalForward>>,
                             desired: map<string, ServiceConfig>)
    ensures AsDetected(overlay, detected, Pruned(Refreshed(overlay, detected), desired))
  {
    if detected.Some? {
      forall n | n in OverlayOf(detected.value)
        ensures LastReport(detected.value, OverlayOf(detected.value)[n])
        ensures OverlayOf(detected.value)[n].service.name == n
      {
        OverlayIsTheLast(detected.value, n);
      }
    }
  }

  /** So a reload is what its names say, with no word about how they are looked
      up. */
  lemma ReloadGoesByNames(st: State, overlay: map<string, ExternalForward>, services: seq<ServiceConfig>,
                          detected: Option<seq<ExternalForward>>, t: State, overlay': map<string, ExternalForward>,
                          added: nat, removed: nat, failed: set<string>)
    requires ReloadsTo(st, overlay, services, detected, t, overlay', added, removed, failed)
    ensures ReloadsNames(st, overlay, services, detected, t, overlay'.Keys, added, removed, failed)
    ensures AsDetected(overlay, detected, overlay')
  {
    var owned, desired := OwnedElsewhere(overlay, detected), Desired(services);
    ExternalsAreDetected(overlay, detected, desired);
    var left := Without(st, owned - overlay.Keys);
    OverlaysByName(overlay, detected, services);
    DesiredAreTheNames(services);
    WantedByName(left, ConfiguredNames(services), desired, owned);
    SinglesByName(left, services, t);
    AddedByName(left, services, t, Wanted(left, desired, overlay'.Keys) - failed, left.nextId);
    forall svc | svc in t.pending ensures LastOfItsName(services, svc) { assert svc == desired[svc.name]; }
  }

  lemma QuietlyRefreshed(st: State, overlay: map<string, ExternalForward>, detected: Option<seq<ExternalForward>>)
    requires Quiescent(st) && (detected.Some? ==> NotOurChildren(st, detected.value))
    ensures QuietFor(st, Refreshed(overlay, detected).Keys - overlay.Keys)
  {
    if detected.Some? { OverlayNames(detected.value); }
  }

  ghost predicate SinglesStayed(u: State, v: State) {
    forall n | n in u.forwards && n !in u.children && Parent(u.forwards[n]) == "" :: Stays(u, v, n)
  }

  /** What is newly external the second time is not configured, and so not here. */
  lemma NothingNewlyExternal(u: State, overlay: map<string, ExternalForward>, desired: map<string, ServiceConfig>,
                             detected: Option<seq<ExternalForward>>, earlier: map<string, ExternalForward>)
    requires Quiescent(u) && TopLevel(u) <= desired.Keys && overlay == Pruned(Refreshed(earlier, detected), desired)
    ensures Without(u, Refreshed(overlay, detected).Keys - overlay.Keys) == u
    ensures Pruned(Refreshed(overlay, detected), desired) == overlay
  {
    var newly := Refreshed(overlay, detected).Keys - overlay.Keys;
    assert newly * TopLevel(u) == {} * TopLevel(u);
    WithoutTheSame(u, newly, {});
    WithoutNothing(u);
  }

  lemma RefreshesNothing(services: seq<ServiceConfig>, detected: Option<seq<ExternalForward>>,
                         earlier: map<string, ExternalForward>, overlay: map<string, ExternalForward>,
                         u: State, v: State, overlay': map<string, ExternalForward>,
                         more: nat, fewer: nat, lost: set<string>)
    requires overlay == Pruned(Refreshed(earlier, detected), Desired(services))
    requires TopLevel(u) <= Desired(services).Keys && Quiescent(u)
    requires ReloadsTo(u, overlay, services, detected, v, overlay', more, fewer, lost)
    ensures overlay' == overlay && Reloads(u, Desired(services), overlay.Keys, v, more, fewer, lost)
  {
    NothingNewlyExternal(u, overlay, Desired(services), detected, earlier);
  }

  lemma NothingLeftToDo(services: seq<ServiceConfig>, detected: Option<seq<ExternalForward>>,
                        earlier: map<string, ExternalForward>, overlay: map<string, ExternalForward>,
                        u: State, v: State, overlay': map<string, ExternalForward>,
                        more: nat, fewer: nat, lost: set<string>)
    requires overlay == Pruned(Refreshed(earlier, detected), Desired(services)) && WellKeyed(Desired(services))
    requires TopLevel(u) == Desired(services).Keys - overlay.Keys && Quiescent(u)
    requires ReloadsTo(u, overlay, services, detected, v, overlay', more, fewer, lost)
    ensures more == 0 && fewer == 0 && overlay' == overlay
    ensures lost <= Again(u, Desired(services)) && TopLevel(v) == TopLevel(u) - lost && SinglesStayed(u, v)
    ensures forall n | n in lost :: !ValidService(Desired(services)[n]) || '/' in n
  {
    RefreshesNothing(services, detected, earlier, overlay, u, v, overlay', more, fewer, lost);
    ReloadIsIdempotent(Desired(services), overlay.Keys, u, v, more, fewer, lost);
  }

  /** After a reload that converged in t and pruned the overlay, and once its
      resolutions have landed, the same reload has nothing to do; and what the
      first one dropped as malformed the second does not meet again. */
  lemma SecondReload(services: seq<ServiceConfig>, detected: Option<seq<ExternalForward>>,
                     st: State, overlay: map<string, ExternalForward>,
                     t: State, overlay': map<string, ExternalForward>, added: nat, removed: nat, failed: set<string>,
                     u: State,
                     v: State, overlay'': map<string, ExternalForward>, more: nat, fewer: nat, lost: set<string>)
    requires ReloadsTo(st, overlay, services, detected, t, overlay', added, removed, failed)
    requires TopLevel(t) == Desired(services).Keys - overlay'.Keys && WellKeyed(Desired(services))
    requires Moved(t, {}, {}, u) && Quiescent(u)
    requires ReloadsTo(u, overlay', services, detected, v, overlay'', more, fewer, lost)
    ensures more == 0 && fewer == 0 && overlay'' == overlay'
    ensures TopLevel(v) == TopLevel(t) - lost
    ensures forall n | n in lost :: n in t.children && '/' in n
    ensures SinglesStayed(u, v)
  {
    MovedTopLevel(t, u);
    NothingLeftToDo(services, detected, overlay, overlay', u, v, overlay'', more, fewer, lost);
    forall n | n in lost ensures n in t.children && '/' in n {
      LostHasSlash(services, detected, st, overlay, t, overlay', added, removed, failed, u, n);
    }
  }

  lemma LostHasSlash(services: seq<ServiceConfig>, detected: Option<seq<ExternalForward>>,
                     st: State, overlay: map<string, ExternalForward>,
                     t: State, overlay': map<string, ExternalForward>, added: nat, removed: nat, failed: set<string>,
                     u: State, n: string)
    requires ReloadsTo(st, overlay, services, detected, t, overlay', added, removed, failed)
    requires Moved(t, {}, {}, u) && n in Again(u, Desired(services))
    requires !ValidService(Desired(services)[n]) || '/' in n
    ensures n in t.children && '/' in n
  {
    ParentsAreValid(Without(st, Refreshed(overlay, detected).Keys - overlay.Keys), Desired(services), overlay'.Keys,
                    t, added, removed, failed, n);
  }

  // ---------------------------------------------------------------------
  // Proofs about a reload's passes
  // ---------------------------------------------------------------------

  /** The second pass: the parents redo were replaced, the lost ones refused. */
  ghost predicate ReAdded(s: State, desired: map<string, ServiceConfig>, t: State, redo: set<string>,
                          lost: set<string>) {
    && Reloaded(s, desired, t, Stage(redo, lost, {})) && AllRefused(desired, t, lost)
    && (forall n | n in lost :: n in desired && desired[n].IsMultiPort())
    && (forall n | n in redo - lost :: n in desired && ValidService(desired[n]))
  }

  lemma ReAddedAtFirst(s: State, desired: map<string, ServiceConfig>)
    requires Quiescent(s)
    ensures ReAdded(s, desired, s, {}, {})
  {
    ReloadedAtFirst(s, desired);
  }

  /** A replacement of svc that began in t and ended in r. */
  ghost predicate Replaces(t: State, svc: ServiceConfig, ok: bool, refused: Option<AddError>,
                           before: State, down: State, later: State, r: State) {
    && Orderly(before) && before.queue == [] && Shifted(t, {}, {}, before)
    && Orderly(down) && down.queue == [] && Shifted(before, Targets(before, svc.name), {svc.name}, down)
    && (Removable(before, svc.name) ==> ok)
    && (!ok ==> r == down)
    && (ok ==>
          && Orderly(later) && later.queue == [] && Shifted(down, {}, {}, later)
          && refused == Refusal(later, svc) && r == if refused.None? then Reserve(later, svc) else later)
  }

  /** A multi-port service that could be taken down stays exactly when it is
      valid and no resolution that landed since has taken its name, which only a
      name with a slash risks. */
  lemma ReplacesStaysIff(t: State, svc: ServiceConfig, ok: bool, refused: Option<AddError>,
                         before: State, down: State, later: State, r: State)
    requires Replaces(t, svc, ok, refused, before, down, later, r)
    requires svc.IsMultiPort() && Removable(before, svc.name)
    ensures svc.name in TopLevel(r) <==> ValidService(svc) && svc.name !in later.forwards
    ensures svc.name in later.forwards ==> '/' in svc.name && Awaited(before, Parent(later.forwards[svc.name]))
    ensures '/' !in svc.name ==> (svc.name in TopLevel(r) <==> ValidService(svc))
  {
    assert ok && svc.name !in down.children && svc.name !in later.children;
    if svc.name in later.forwards { TakenMeanwhile(before, svc.name, down, later); }
  }

  /** Whoever has the name now is a child that landed meanwhile. */
  lemma TakenMeanwhile(before: State, name: string, down: State, later: State)
    requires Shifted(before, Targets(before, name), {name}, down) && Shifted(down, {}, {}, later)
    requires name in later.forwards && NamesNotEmpty(later)
    ensures '/' in name && Awaited(before, Parent(later.forwards[name])) && Parent(later.forwards[name]) != ""
  {
    if name in down.forwards && Same(down, later, name) {
      assert Kept(down, later, name);
      assert Accountable(before, down, name);
    } else {
      assert Accountable(down, later, name);
      AwaitedEarlier(before, down, Parent(later.forwards[name]));
    }
  }

  lemma ReAddedNext(s: State, desired: map<string, ServiceConfig>, t: State, redo: set<string>, lost: set<string>,
                    n: string, ok: bool, refused: Option<AddError>, before: State, down: State, later: State, r: State)
    returns (lost': set<string>)
    requires Quiescent(s) && WellKeyed(desired) && ReAdded(s, desired, t, redo, lost)
    requires n in s.children && n !in redo && n in desired && desired[n].IsMultiPort()
    requires Replaces(t, desired[n], ok, refused, before, down, later, r)
    ensures ReAdded(s, desired, r, redo + {n}, lost')
  {
    ReplacedBefore(s, desired, t, redo, lost, n, before);
    ReplacedDown(s, desired, before, redo, lost, n, down);
    lost' := ReplacedLater(s, desired, down, redo, lost, n, later);
  }

  lemma HeadSteps(st: State, mid: State, name: string, r: State)
    requires Identified(st) && Shifted(st, {}, {}, mid) && mid.queue != [] && mid.queue[0] == name
    requires r == StepRemoval(mid)
    ensures Shifted(st, {name}, {}, r)
  {
    DropShifts(mid, name);
    ShiftedThen(st, {}, {}, mid, {name}, r);
    assert {} + {name} == {name};
  }

  lemma ReplacedBefore(s: State, desired: map<string, ServiceConfig>, t: State, redo: set<string>, lost: set<string>,
                       n: string, before: State)
    requires Quiescent(s) && WellKeyed(desired) && ReAdded(s, desired, t, redo, lost) && n in s.children && n !in redo
    requires Shifted(t, {}, {}, before) && Orderly(before) && before.queue == []
    ensures ReAdded(s, desired, before, redo, lost) && Removable(before, n)
  {
    ReloadedThen(s, desired, t, Stage(redo, lost, {}), before);
    RefusedThen(desired, t, lost, before);
    RemovableWhileReloading(s, desired, before, Stage(redo, lost, {}), n);
  }

  lemma ReplacedDown(s: State, desired: map<string, ServiceConfig>, before: State, redo: set<string>, lost: set<string>,
                     n: string, down: State)
    requires Quiescent(s) && WellKeyed(desired) && ReAdded(s, desired, before, redo, lost) && n in s.children
    requires n !in redo
    requires Shifted(before, Targets(before, n), {n}, down) && Orderly(down) && down.queue == []
    ensures Reloaded(s, desired, down, Stage(redo + {n}, lost + {n}, {})) && AllRefused(desired, down, lost)
  {
    ReloadedRemove(s, desired, before, Stage(redo, lost, {}), n, down);
    TargetsWhileReloading(s, before, Stage(redo, lost, {}), n);
    RefusedRemove(s, desired, before, lost, n, down);
  }

  lemma ReplacedLater(s: State, desired: map<string, ServiceConfig>, down: State, redo: set<string>, lost: set<string>,
                      n: string, later: State) returns (lost': set<string>)
    requires Quiescent(s) && WellKeyed(desired) && n in desired && desired[n].IsMultiPort() && n !in lost
    requires Reloaded(s, desired, down, Stage(redo + {n}, lost + {n}, {})) && AllRefused(desired, down, lost)
    requires forall m | m in lost :: m in desired && desired[m].IsMultiPort()
    requires forall m | m in redo - lost :: m in desired && ValidService(desired[m])
    requires Shifted(down, {}, {}, later) && Orderly(later) && later.queue == []
    ensures var r := if Refusal(later, desired[n]).None? then Reserve(later, desired[n]) else later;
            ReAdded(s, desired, r, redo + {n}, lost')
  {
    ReloadedThen(s, desired, down, Stage(redo + {n}, lost + {n}, {}), later);
    RefusedThen(desired, down, lost, later);
    if Refusal(later, desired[n]).None? {
      PutBack(s, desired, later, redo, lost, n);
      lost' := lost;
    } else {
      StaysDown(s, desired, later, redo, lost, n);
      lost' := lost + {n};
    }
  }

  lemma StaysDown(s: State, desired: map<string, ServiceConfig>, later: State, redo: set<string>, lost: set<string>,
                  n: string)
    requires Reloaded(s, desired, later, Stage(redo + {n}, lost + {n}, {})) && AllRefused(desired, later, lost)
    requires n in desired && desired[n].IsMultiPort() && Refusal(later, desired[n]).Some?
    requires forall m | m in lost :: m in desired && desired[m].IsMultiPort()
    requires forall m | m in redo - lost :: m in desired && ValidService(desired[m])
    ensures ReAdded(s, desired, later, redo + {n}, lost + {n})
  {}

  lemma PutBack(s: State, desired: map<string, ServiceConfig>, later: State, redo: set<string>, lost: set<string>,
                n: string)
    requires Quiescent(s) && WellKeyed(desired) && n in desired && desired[n].IsMultiPort() && n !in lost
    requires Reloaded(s, desired, later, Stage(redo + {n}, lost + {n}, {})) && AllRefused(desired, later, lost)
    requires forall m | m in lost :: m in desired && desired[m].IsMultiPort()
    requires forall m | m in redo - lost :: m in desired && ValidService(desired[m])
    requires Refusal(later, desired[n]).None?
    ensures ReAdded(s, desired, Reserve(later, desired[n]), redo + {n}, lost)
  {
    ReloadedAgain(s, desired, later, Stage(redo + {n}, lost + {n}, {}), n);
    RefusedReserve(desired, later, lost, desired[n]);
    assert lost + {n} - {n} == lost;
  }

  /** The last pass: what was added fits, what was refused still is. */
  ghost predicate Adding(s: State, desired: map<string, ServiceConfig>, t: State, g: Stage, refused: set<string>) {
    Reloaded(s, desired, t, g) && AllRefused(desired, t, refused) && Fits(desired, PortsKept(s, g.redo), g.added)
  }

  lemma FitsNone(desired: map<string, ServiceConfig>, taken: set<int>)
    ensures Fits(desired, taken, {})
  {}

  lemma AddingThen(s: State, desired: map<string, ServiceConfig>, t: State, g: Stage, refused: set<string>, r: State)
    requires Quiescent(s) && WellKeyed(desired) && Adding(s, desired, t, g, refused)
    requires Shifted(t, {}, {}, r) && Orderly(r) && r.queue == []
    ensures Adding(s, desired, r, g, refused)
  {
    ReloadedThen(s, desired, t, g, r);
    RefusedThen(desired, t, refused, r);
  }

  lemma AddingNew(s: State, desired: map<string, ServiceConfig>, t: State, g: Stage, refused: set<string>, n: string)
    requires Quiescent(s) && WellKeyed(desired) && Adding(s, desired, t, g, refused)
    requires n in desired && n !in s.children && n !in s.forwards && n !in g.added && Refusal(t, desired[n]).None?
    ensures Adding(s, desired, Reserve(t, desired[n]), Stage(g.redo, g.lost, g.added + {n}), refused)
  {
    ReloadedNew(s, desired, t, g, n);
    RefusedReserve(desired, t, refused, desired[n]);
    AcceptedFits(s, desired, t, g.redo, g.added, s.nextId, n);
  }

  lemma AddingNext(s: State, desired: map<string, ServiceConfig>, t: State, g: Stage, refused: set<string>, n: string,
                   later: State)
    requires Quiescent(s) && WellKeyed(desired) && Adding(s, desired, t, g, refused)
    requires Shifted(t, {}, {}, later) && Orderly(later) && later.queue == []
    requires n in desired && n !in s.children && n !in s.forwards && n !in g.added
    ensures if Refusal(later, desired[n]).Some? then Adding(s, desired, later, g, refused + {n})
            else Adding(s, desired, Reserve(later, desired[n]), Stage(g.redo, g.lost, g.added + {n}), refused)
  {
    AddingThen(s, desired, t, g, refused, later);
    if Refusal(later, desired[n]).None? { AddingNew(s, desired, later, g, refused, n); }
  }

  /** The wanted names visited so far were either added or refused. */
  ghost predicate Tally(wanted: set<string>, todo: set<string>, added: set<string>, failed: set<string>, count: nat) {
    && (forall n :: n in added || n in failed <==> n in wanted && n !in todo)
    && (forall n | n in added :: n !in failed)
    && count == |added|
  }

  lemma TallyMore(wanted: set<string>, todo: set<string>, added: set<string>, failed: set<string>, count: nat,
                  n: string)
    requires Tally(wanted, todo, added, failed, count) && n in wanted && n in todo
    ensures Tally(wanted, todo - {n}, added, failed + {n}, count)
    ensures Tally(wanted, todo - {n}, added + {n}, failed, count + 1)
  {}

  lemma UnionMore(a: set<string>, b: set<string>, n: string)
    ensures a + b + {n} == a + (b + {n})
  {}

  lemma TallySkip(wanted: set<string>, todo: set<string>, added: set<string>, failed: set<string>, count: nat,
                  n: string)
    requires Tally(wanted, todo, added, failed, count) && n !in wanted
    ensures Tally(wanted, todo - {n}, added, failed, count)
  {}

  lemma TallyInTheEnd(wanted: set<string>, added: set<string>, failed: set<string>, count: nat)
    requires Tally(wanted, {}, added, failed, count)
    ensures added !! failed && added + failed == wanted && count == |added|
  {}

  lemma RemovableWhileReloading(s: State, desired: map<string, ServiceConfig>, t: State, g: Stage, p: string)
    requires Quiescent(s) && Reloaded(s, desired, t, g)
    requires p in s.children && p !in g.redo
    ensures p in t.children && p != "" && Removable(t, p)
  {
    forall c | c in s.children[p] ensures c in t.forwards {
      assert OwnerOf(s, c) == p;
      assert Stays(s, t, c);
    }
  }

  lemma StaleLeaves(s: State, desired: map<string, ServiceConfig>)
    requires Quiescent(s)
    ensures var mid := Without(s, Stale(s, desired));
            && desired.Keys * s.children.Keys == desired.Keys * mid.children.Keys
            && Again(mid, desired) == Again(s, desired)
            && mid.forwards.Keys <= s.forwards.Keys && mid.children.Keys <= s.children.Keys
  {}

  lemma WantedInTheEnd(s: State, desired: map<string, ServiceConfig>, external: set<string>,
                       added: set<string>, lost: set<string>, refused: set<string>)
    requires added !! refused && added + refused == Wanted(s, desired, external) && lost <= Again(s, desired)
    ensures added == Wanted(s, desired, external) - (lost + refused)
    ensures lost == (lost + refused) * Again(s, desired)
    ensures lost + refused <= Again(s, desired) + Wanted(s, desired, external)
  {
  }
}
