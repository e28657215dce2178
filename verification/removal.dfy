// The exact effect of removing a service: on its own, and with resolutions of
// other services landing between its steps.
module Removal {
  import opened Text
  import opened ConfigTypes
  import opened Address
  import opened Ledger

  /** The names of a list that are in a set, in order. */
  function Only(order: seq<string>, keys: set<string>): seq<string> {
    if order == [] then []
    else (if order[0] in keys then [order[0]] else []) + Only(order[1..], keys)
  }

  lemma {:induction false} OnlyMembers(order: seq<string>, keys: set<string>)
    ensures forall n :: n in Only(order, keys) <==> n in order && n in keys
  {
    if order != [] {
      OnlyMembers(order[1..], keys);
      assert order == [order[0]] + order[1..];
    }
  }

  lemma {:induction false} OnlyAll(order: seq<string>, keys: set<string>)
    requires forall n | n in order :: n in keys
    ensures Only(order, keys) == order
  {
    if order != [] {
      assert order == [order[0]] + order[1..];
      OnlyAll(order[1..], keys);
    }
  }

  lemma {:induction false} OnlyOnly(order: seq<string>, a: set<string>, b: set<string>)
    requires b <= a
    ensures Only(Only(order, a), b) == Only(order, b)
  {
    if order != [] {
      OnlyOnly(order[1..], a, b);
      var rest := Only(order[1..], a);
      if order[0] in a {
        assert ([order[0]] + rest)[0] == order[0] && ([order[0]] + rest)[1..] == rest;
      } else {
        assert [] + rest == rest && [] + Only(order[1..], b) == Only(order[1..], b);
      }
    }
  }

  lemma {:induction false} RemoveFirstIsOnly(order: seq<string>, name: string, keys: set<string>)
    requires NoDuplicates(order) && (forall n | n in order :: n in keys)
    ensures RemoveFirst(order, name) == Only(order, keys - {name})
  {
    if order != [] {
      assert order == [order[0]] + order[1..];
      if order[0] == name {
        OnlyAll(order[1..], keys - {name});
      } else {
        RemoveFirstIsOnly(order[1..], name, keys);
      }
    }
  }

  lemma DropEntryEffect(st: State, name: string)
    requires Agreement(st)
    ensures var r := DropEntry(st, name);
            && r.forwards == st.forwards - {name} && r.order == Only(st.order, r.forwards.Keys) && Agreement(r)
            && r.children == st.children && r.pending == st.pending && r.queue == st.queue && r.nextId == st.nextId
  {
    var r := DropEntry(st, name);
    DropEntryFrame(st, name);
    RemoveFirstEffect(st.order, name);
    if name in st.forwards {
      RemoveFirstIsOnly(st.order, name, st.forwards.Keys);
      assert r.forwards.Keys == st.forwards.Keys - {name};
    } else {
      OnlyAll(st.order, r.forwards.Keys);
    }
  }

  // ---------------------------------------------------------------------
  // A removal with nothing in between
  // ---------------------------------------------------------------------

  datatype Removed = Removed(after: State, ok: bool)

  /** Finish a removal; ok when every name was there to remove. */
  function Drain(st: State): Removed
    decreases |st.queue|
  {
    if st.queue == [] then Removed(st, true)
    else
      var rest := Drain(StepRemoval(st));
      Removed(rest.after, st.queue[0] in st.forwards && rest.ok)
  }

  function DoRemove(st: State, name: string): Removed {
    Drain(BeginRemoval(st, name))
  }

  ghost function Elements(s: seq<string>): set<string> { set n | n in s }

  lemma DropHead(forwards: map<string, Forward>, names: seq<string>)
    requires names != []
    ensures forwards - {names[0]} - Elements(names[1..]) == forwards - Elements(names)
  {
    assert names == [names[0]] + names[1..];
  }

  lemma {:induction false} DrainForwards(st: State)
    ensures Drain(st).after.forwards == st.forwards - Elements(st.queue)
    decreases |st.queue|
  {
    if st.queue == [] {
      assert st.forwards - {} == st.forwards;
      assert Elements([]) == {};
    } else {
      DropEntryFrame(st, st.queue[0]);
      DrainForwards(StepRemoval(st));
      DropHead(st.forwards, st.queue);
    }
  }

  lemma {:induction false} DrainOrder(st: State)
    requires Agreement(st)
    ensures Drain(st).after.order == Only(st.order, Drain(st).after.forwards.Keys)
    decreases |st.queue|
  {
    if st.queue == [] {
      OnlyAll(st.order, st.forwards.Keys);
    } else {
      var mid := StepRemoval(st);
      DropEntryEffect(st, st.queue[0]);
      DrainOrder(mid);
      DrainForwards(mid);
      OnlyOnly(st.order, mid.forwards.Keys, Drain(mid).after.forwards.Keys);
    }
  }

  lemma {:induction false} DrainRest(st: State)
    ensures var r := Drain(st).after;
            r.children == st.children && r.pending == st.pending && r.queue == [] && r.nextId == st.nextId
    decreases |st.queue|
  {
    if st.queue != [] { DrainRest(StepRemoval(st)); }
  }

  ghost predicate AllThereOnce(forwards: map<string, Forward>, names: seq<string>) {
    NoDuplicates(names) && forall n | n in names :: n in forwards
  }

  lemma {:induction false} DrainSucceedsIff(st: State)
    ensures Drain(st).ok <==> AllThereOnce(st.forwards, st.queue)
    decreases |st.queue|
  {
    if st.queue != [] {
      var name, rest := st.queue[0], st.queue[1..];
      DropEntryFrame(st, name);
      DrainSucceedsIff(StepRemoval(st));
      assert st.queue == [name] + rest;
      OneThenRest(st.forwards, name, rest);
    }
  }

  lemma OneThenRest(forwards: map<string, Forward>, name: string, rest: seq<string>)
    ensures name in forwards && AllThereOnce(forwards - {name}, rest) <==> AllThereOnce(forwards, [name] + rest)
  {
    NoDuplicatesCons(name, rest);
    var all := [name] + rest;
    assert forall n :: n in all <==> n == name || n in rest;
    assert name in all;
  }

  lemma NoDuplicatesCons(name: string, rest: seq<string>)
    ensures NoDuplicates([name] + rest) <==> name !in rest && NoDuplicates(rest)
  {
    var all := [name] + rest;
    assert all[0] == name && all[1..] == rest;
    if NoDuplicates(all) {
      forall i | 0 <= i < |rest| ensures rest[i] != name { assert all[i + 1] == rest[i]; }
      forall i, j | 0 <= i < j < |rest| ensures rest[i] != rest[j] {
        assert all[i + 1] == rest[i] && all[j + 1] == rest[j];
      }
    }
    if name !in rest && NoDuplicates(rest) {
      forall i, j | 0 <= i < j < |all| ensures all[i] != all[j] {
        assert all[j] == rest[j - 1] && rest[j - 1] in rest;
        if i > 0 { assert all[i] == rest[i - 1]; }
      }
    }
  }

  /** What a removal takes out: the name itself, and its listed children. */
  ghost function Targets(st: State, name: string): set<string> {
    {name} + if name in st.children then Elements(st.children[name]) else {}
  }

  /** Removing a name deletes exactly its targets and keeps the others in order. */
  lemma RemoveIsExact(st: State, name: string)
    requires Agreement(st) && st.queue == []
    ensures var r := DoRemove(st, name).after;
            && r.forwards == st.forwards - Targets(st, name)
            && r.order == Only(st.order, r.forwards.Keys)
            && r.children == st.children - {name}
            && r.pending == st.pending && r.queue == [] && r.nextId == st.nextId
  {
    var b := BeginRemoval(st, name);
    DrainRest(b);
    DrainForwards(b);
    BeginningEffect(st, name);
    DrainOrder(b);
    OnlyOnly(st.order, b.forwards.Keys, Drain(b).after.forwards.Keys);
  }

  /** What the first step leaves, with the queue it leaves. */
  ghost predicate Begun(st: State, name: string, b: State) {
    && b.forwards - Elements(b.queue) == st.forwards - Targets(st, name)
    && b.order == Only(st.order, b.forwards.Keys) && Agreement(b)
    && b.children == st.children - {name} && b.pending == st.pending && b.nextId == st.nextId
  }

  lemma BeginningEffect(st: State, name: string)
    requires Agreement(st)
    ensures Begun(st, name, BeginRemoval(st, name))
  {
    if name in st.children { BeginParent(st, name); } else { BeginSingle(st, name); }
  }

  lemma BeginParent(st: State, name: string)
    requires Agreement(st) && name in st.children
    ensures Begun(st, name, BeginRemoval(st, name))
  {
    var d := DropEntry(st, name);
    DropEntryEffect(st, name);
    DropTwice(st.forwards, {name}, Elements(st.children[name]));
    assert BeginRemoval(st, name) == d.(children := st.children - {name}, queue := st.children[name]);
  }

  lemma BeginSingle(st: State, name: string)
    requires Agreement(st) && name !in st.children
    ensures Begun(st, name, BeginRemoval(st, name))
  {
    OnlyAll(st.order, st.forwards.Keys);
    assert Elements([name]) == {name} by { assert [name][0] == name; }
    assert st.children - {name} == st.children;
  }

  lemma DropTwice<T>(m: map<string, T>, a: set<string>, b: set<string>)
    ensures m - a - b == m - (a + b)
  {}

  /** All there is to remove is there, once. */
  ghost predicate Removable(st: State, name: string) {
    if name in st.children then AllThereOnce(st.forwards - {name}, st.children[name]) else name in st.forwards
  }

  /** It reports success exactly then. */
  lemma RemoveSucceedsIff(st: State, name: string)
    requires st.queue == []
    ensures DoRemove(st, name).ok <==> Removable(st, name)
  {
    DropEntryFrame(st, name);
    DrainSucceedsIff(BeginRemoval(st, name));
    if name !in st.children { assert [name][0] == name; }
  }

  // ---------------------------------------------------------------------
  // A removal with other things in between
  // ---------------------------------------------------------------------

  /** The name holds the forward it held in st, or at least one of that
      identity. */
  ghost predicate Same(st: State, r: State, n: string)
    requires n in st.forwards
  {
    n in r.forwards && r.forwards[n].id == st.forwards[n].id
  }

  ghost predicate Kept(st: State, r: State, n: string)
    requires n in st.forwards
  {
    && Same(st, r, n)
    && r.forwards[n].svc == st.forwards[n].svc && r.forwards[n].sourceConfig == st.forwards[n].sourceConfig
  }

  /** Entries of r that a resolution outstanding in st makes: a child, or the
      failed parent itself. */
  ghost predicate Accountable(st: State, r: State, n: string)
    requires n in r.forwards
  {
    || (n in r.children && Awaited(st, n))
    || ('/' in n && Parent(r.forwards[n]) in r.children && Awaited(st, Parent(r.forwards[n])))
  }

  /** From st to r the forwards of gone went, the parents left the index, and
      otherwise nothing happened but resolutions landing. */
  ghost predicate Moved(st: State, gone: set<string>, parents: set<string>, r: State) {
    && r.nextId >= st.nextId && r.pending <= st.pending
    && r.children.Keys == st.children.Keys - parents
    && (forall p | p in r.children :: r.children[p] == st.children[p] || Awaited(st, p))
    && (forall n | n in st.forwards :: if n in gone then !Same(st, r, n) else Kept(st, r, n))
    && (forall n | n in r.forwards && !(n in st.forwards && Same(st, r, n)) ::
          r.forwards[n].id >= st.nextId && Accountable(st, r, n))
  }

  lemma MovedNowhere(st: State)
    ensures Moved(st, {}, {}, st)
  {}

  lemma MovedThen(st: State, gone: set<string>, parents: set<string>, mid: State, more: set<string>, r: State)
    requires Identified(st) && Moved(st, gone, parents, mid) && Moved(mid, more, {}, r)
    ensures Moved(st, gone + more, parents, r)
  {
    forall p | p in r.children ensures r.children[p] == st.children[p] || Awaited(st, p) {
      assert p in mid.children;
    }
    MovedThenForwards(st, gone, mid, more, r);
    forall n | n in r.forwards && !(n in st.forwards && Same(st, r, n))
      ensures r.forwards[n].id >= st.nextId && Accountable(st, r, n)
    {
      if n in mid.forwards && Same(mid, r, n) {
        assert Kept(mid, r, n);
      } else {
        AwaitedEarlier(st, mid, n);
        AwaitedEarlier(st, mid, Parent(r.forwards[n]));
      }
    }
  }

  lemma MovedFurther(st: State, gone: set<string>, parents: set<string>, mid: State, r: State)
    requires Identified(st) && Moved(st, gone, parents, mid) && Moved(mid, {}, {}, r)
    ensures Moved(st, gone, parents, r)
  {
    MovedThen(st, gone, parents, mid, {}, r);
    assert gone + {} == gone;
  }

  lemma AwaitedEarlier(st: State, mid: State, p: string)
    requires mid.pending <= st.pending
    ensures Awaited(mid, p) ==> Awaited(st, p)
  {
    if svc :| svc in mid.pending && svc.name == p { assert svc in st.pending; }
  }

  lemma MovedThenForwards(st: State, gone: set<string>, mid: State, more: set<string>, r: State)
    requires Identified(st) && st.nextId <= mid.nextId
    requires forall n | n in st.forwards :: if n in gone then !Same(st, mid, n) else Kept(st, mid, n)
    requires forall n | n in mid.forwards :: if n in more then !Same(mid, r, n) else Kept(mid, r, n)
    requires forall n | n in r.forwards && !(n in mid.forwards && Same(mid, r, n)) :: r.forwards[n].id >= mid.nextId
    ensures forall n | n in st.forwards :: if n in gone + more then !Same(st, r, n) else Kept(st, r, n)
  {
    forall n | n in st.forwards ensures if n in gone + more then !Same(st, r, n) else Kept(st, r, n) {
      if n in mid.forwards { assert if n in more then !Same(mid, r, n) else Kept(mid, r, n); }
    }
  }

  /** Entries that stay are untouched, state and port included. */
  ghost predicate Untouched(st: State, r: State) {
    forall n | n in st.forwards && Same(st, r, n) :: r.forwards[n] == st.forwards[n]
  }

  /** The same while no forward changes its state or its port. */
  ghost predicate Shifted(st: State, gone: set<string>, parents: set<string>, r: State) {
    Moved(st, gone, parents, r) && Untouched(st, r)
  }

  lemma ShiftedNowhere(st: State)
    ensures Shifted(st, {}, {}, st)
  {}

  lemma ShiftedThen(st: State, gone: set<string>, parents: set<string>, mid: State, more: set<string>, r: State)
    requires Identified(st) && Shifted(st, gone, parents, mid) && Shifted(mid, more, {}, r)
    ensures Shifted(st, gone + more, parents, r)
  {
    MovedThen(st, gone, parents, mid, more, r);
    forall n | n in st.forwards && Same(st, r, n) ensures r.forwards[n] == st.forwards[n] {
      assert Kept(st, mid, n) && n !in more;
    }
  }

  /** Parents may leave the second time, too: nothing of theirs is left. */
  lemma ShiftedBoth(st: State, gone: set<string>, parents: set<string>, mid: State,
                    more: set<string>, others: set<string>, r: State)
    requires Identified(st) && Shifted(st, gone, parents, mid) && Shifted(mid, more, others, r) && others <= more
    requires NoOrphans(r) && NamesNotEmpty(mid) && r.queue == []
    ensures Shifted(st, gone + more, parents + others, r)
  {
    forall p | p in r.children ensures r.children[p] == st.children[p] || Awaited(st, p) {
      assert p in mid.children;
      AwaitedEarlier(st, mid, p);
    }
    MovedThenForwards(st, gone, mid, more, r);
    forall n | n in r.forwards && !(n in st.forwards && Same(st, r, n))
      ensures r.forwards[n].id >= st.nextId && Accountable(st, r, n)
    {
      AccountableStill(st, gone, parents, mid, more, others, r, n);
    }
    forall n | n in st.forwards && Same(st, r, n) ensures r.forwards[n] == st.forwards[n] {
      assert Kept(st, mid, n) && n !in more;
    }
  }

  lemma AccountableStill(st: State, gone: set<string>, parents: set<string>, mid: State,
                         more: set<string>, others: set<string>, r: State, n: string)
    requires Moved(st, gone, parents, mid) && Moved(mid, more, others, r) && others <= more
    requires NoOrphans(r) && NamesNotEmpty(mid) && r.queue == []
    requires n in r.forwards && !(n in st.forwards && Same(st, r, n))
    ensures r.forwards[n].id >= st.nextId && Accountable(st, r, n)
  {
    if n in mid.forwards && Same(mid, r, n) {
      assert Kept(mid, r, n) && n !in more;
      assert Accountable(st, mid, n);
      assert Parent(r.forwards[n]) != "" ==> Tracked(r, n, Parent(r.forwards[n]));
    } else {
      assert Accountable(mid, r, n);
      AwaitedEarlier(st, mid, n);
      AwaitedEarlier(st, mid, Parent(r.forwards[n]));
    }
  }

  lemma BesideShifts(st: State, e: Event)
    requires Consistent(st) && Enabled(st, e) && (e.ResolveOk? || e.ResolveFail?)
    ensures Shifted(st, {}, {}, Next(st, e))
  {
    BesideMoves(st, e);
    if e.ResolveOk? { RegisteredFrame(st, e.svc, e.ports); }
  }

  lemma DropShifts(st: State, name: string)
    ensures Shifted(st, {name}, {}, DropEntry(st, name))
  {
    MovedNowhere(st);
    DropMoves(st, {}, {}, st, name);
    assert {} + {name} == {name};
    DropEntryFrame(st, name);
  }

  lemma BeginShifts(st: State, name: string)
    ensures Shifted(st, First(st, name), {name}, BeginRemoval(st, name))
  {
    BeginMoves(st, name);
    DropEntryFrame(st, name);
  }

  predicate Beside(e: Event) { e.ResolveOk? || e.ResolveFail? || e.Observe? }

  lemma BesideMoves(st: State, e: Event)
    requires Consistent(st) && Enabled(st, e) && Beside(e)
    ensures Moved(st, {}, {}, Next(st, e)) && Next(st, e).queue == st.queue
  {
    match e
    case ResolveOk(svc, ports) => ResolveOkMoves(st, svc, ports);
    case ResolveFail(svc) => ResolveFailMoves(st, svc);
    case Observe(name, state, port) => ObserveMoves(st, name, state, port);
  }

  lemma ObserveMoves(st: State, name: string, state: ForwardState, port: int)
    ensures Moved(st, {}, {}, Observed(st, name, state, port)) && Observed(st, name, state, port).queue == st.queue
  {}

  lemma Fewer(pending: multiset<ServiceConfig>, svc: ServiceConfig)
    ensures pending - multiset{svc} <= pending
  {}

  lemma NewChildrenAreAccountable(st: State, svc: ServiceConfig, ports: seq<ResolvedPort>)
    requires Consistent(st) && svc in st.pending
    ensures var r := Resolved(st, svc, ports);
            forall n | n in r.forwards && n !in st.forwards :: Accountable(st, r, n)
  {
    var r := Resolved(st, svc, ports);
    RegisteredFrame(st, svc, ports);
    assert Awaited(st, svc.name);
    forall n | n in r.forwards && n !in st.forwards ensures Accountable(st, r, n) {
      ChildNamesHaveSlash(svc, ports, n);
    }
  }

  lemma ResolveOkMoves(st: State, svc: ServiceConfig, ports: seq<ResolvedPort>)
    requires Consistent(st) && svc in st.pending
    ensures Moved(st, {}, {}, Resolved(st, svc, ports)) && Resolved(st, svc, ports).queue == st.queue
  {
    var r := Resolved(st, svc, ports);
    RegisteredFrame(st, svc, ports);
    RegisterIds(st.(pending := st.pending - multiset{svc}), svc, ports);
    Fewer(st.pending, svc);
    NewChildrenAreAccountable(st, svc, ports);
    assert forall n | n in st.forwards :: Kept(st, r, n);
    assert svc.name in st.children ==> Awaited(st, svc.name);
  }

  lemma ResolveFailMoves(st: State, svc: ServiceConfig)
    requires svc in st.pending
    ensures Moved(st, {}, {}, Unresolved(st, svc)) && Unresolved(st, svc).queue == st.queue
  {
    Fewer(st.pending, svc);
    assert Awaited(st, svc.name);
    assert forall n | n in st.forwards :: Kept(st, Unresolved(st, svc), n);
  }

  lemma {:induction false} RegisterIds(st: State, svc: ServiceConfig, ports: seq<ResolvedPort>)
    ensures Register(st, svc, ports).nextId >= st.nextId
    ensures forall n | n in Register(st, svc, ports).forwards && n !in st.forwards ::
              Register(st, svc, ports).forwards[n].id >= st.nextId
  {
    if ports != [] {
      RegisterIds(st, svc, ports[..|ports| - 1]);
    }
  }

  lemma DropMoves(st: State, gone: set<string>, parents: set<string>, mid: State, name: string)
    requires Moved(st, gone, parents, mid)
    ensures Moved(st, gone + {name}, parents, DropEntry(mid, name))
  {
    DropEntryFrame(mid, name);
  }

  /** What the first step takes out by itself. */
  function First(st: State, name: string): set<string> {
    if name in st.children then {name} else {}
  }

  lemma BeginMoves(st: State, name: string)
    ensures Moved(st, First(st, name), {name}, BeginRemoval(st, name))
  {
    DropEntryFrame(st, name);
  }

  /** States of a removal in progress, and the events between them: its own
      steps, resolutions and observations, but no other command. */
  ghost predicate During(states: seq<State>, events: seq<Event>) {
    && |states| == |events| + 1
    && forall i | 0 <= i < |events| ::
         && (events[i].RemoveStep? || Beside(events[i]))
         && Enabled(states[i], events[i]) && states[i + 1] == Next(states[i], events[i])
  }

  lemma {:induction false} DuringIsConsistent(states: seq<State>, events: seq<Event>)
    requires During(states, events) && Consistent(states[0])
    ensures Consistent(states[|events|])
  {
    if events != [] {
      var k := |events| - 1;
      DuringIsConsistent(states[..k + 1], events[..k]);
      NextKeepsConsistent(states[k], events[k]);
    }
  }

  /** A removal whose steps were listed when first was gone has come to mid. */
  ghost predicate Partly(st: State, first: set<string>, parents: set<string>, listed: seq<string>, mid: State) {
    && |mid.queue| <= |listed| && mid.queue == listed[|listed| - |mid.queue|..]
    && Moved(st, first + Elements(listed[..|listed| - |mid.queue|]), parents, mid)
  }

  lemma PartlyStep(st: State, first: set<string>, parents: set<string>, listed: seq<string>, mid: State)
    requires Partly(st, first, parents, listed, mid) && mid.queue != []
    ensures Partly(st, first, parents, listed, StepRemoval(mid))
  {
    var i := |listed| - |mid.queue|;
    StepMoves(st, first + Elements(listed[..i]), parents, mid);
    OneMore(listed, i);
    assert first + Elements(listed[..i]) + {listed[i]} == first + Elements(listed[..i + 1]);
  }

  lemma PartlyFurther(st: State, first: set<string>, parents: set<string>, listed: seq<string>, mid: State, r: State)
    requires Partly(st, first, parents, listed, mid) && Identified(st) && Moved(mid, {}, {}, r) && r.queue == mid.queue
    ensures Partly(st, first, parents, listed, r)
  {
    MovedFurther(st, first + Elements(listed[..|listed| - |mid.queue|]), parents, mid, r);
  }

  lemma PartlyBeside(st: State, first: set<string>, parents: set<string>, listed: seq<string>, mid: State, e: Event)
    requires Partly(st, first, parents, listed, mid) && Identified(st) && Consistent(mid) && Enabled(mid, e)
    requires Beside(e)
    ensures Partly(st, first, parents, listed, Next(mid, e))
  {
    BesideMoves(mid, e);
    PartlyFurther(st, first, parents, listed, mid, Next(mid, e));
  }

  lemma {:induction false} DuringRemoval(st: State, first: set<string>, parents: set<string>, states: seq<State>,
                                         events: seq<Event>)
    requires During(states, events) && Consistent(states[0]) && Identified(st) && Moved(st, first, parents, states[0])
    ensures Partly(st, first, parents, states[0].queue, states[|events|])
  {
    if events == [] {
      assert first + Elements([]) == first;
    } else {
      var k := |events| - 1;
      assert During(states[..k + 1], events[..k]);
      DuringRemoval(st, first, parents, states[..k + 1], events[..k]);
      DuringIsConsistent(states[..k + 1], events[..k]);
      if events[k].RemoveStep? {
        PartlyStep(st, first, parents, states[0].queue, states[k]);
      } else {
        PartlyBeside(st, first, parents, states[0].queue, states[k], events[k]);
      }
    }
  }

  lemma StepMoves(st: State, gone: set<string>, parents: set<string>, mid: State)
    requires Moved(st, gone, parents, mid) && mid.queue != []
    ensures Moved(st, gone + {mid.queue[0]}, parents, StepRemoval(mid))
  {
    DropMoves(st, gone, parents, mid, mid.queue[0]);
  }

  lemma OneMore(listed: seq<string>, i: nat)
    requires i < |listed|
    ensures Elements(listed[..i + 1]) == Elements(listed[..i]) + {listed[i]}
  {
    assert listed[..i + 1] == listed[..i] + [listed[i]];
  }

  /** A removal is atomic as far as forwards go: whatever is resolved while it
      is under way, afterwards exactly its targets are gone, every other forward
      is the one it was, and all that is new belongs to a parent that is there. */
  lemma InterleavedRemovalIsExact(st: State, name: string, states: seq<State>, events: seq<Event>)
    requires Consistent(st) && st.queue == []
    requires During(states, events) && states[0] == BeginRemoval(st, name) && states[|events|].queue == []
    ensures Moved(st, Targets(st, name), {name}, states[|events|])
  {
    var b := BeginRemoval(st, name);
    BeginRemovalKeepsConsistent(st, name);
    BeginMoves(st, name);
    DuringRemoval(st, First(st, name), {name}, states, events);
    assert b.queue[..|b.queue|] == b.queue;
    TargetsInSteps(st, name);
  }

  lemma TargetsInSteps(st: State, name: string)
    ensures First(st, name) + Elements(BeginRemoval(st, name).queue) == Targets(st, name)
  {
    if name !in st.children { assert [name][0] == name; }
  }
}
