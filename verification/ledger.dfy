// The bookkeeping of the port-forward manager: which forwards exist, in what
// order, and which belong to which multi-port service. Commands run one at a
// time; the resolution of a multi-port service's ports happens beside them and
// may land between any two commands, and between the steps of a removal.
module Ledger {
  import opened Wrappers
  import opened Text
  import opened ConfigTypes
  import opened Address

  // ---------------------------------------------------------------------
  // State
  // ---------------------------------------------------------------------

  datatype ResolvedPort = ResolvedPort(name: string, remotePort: int, localPort: int)

  /** pending: multi-port services whose ports are being resolved. queue: the
      names a removal in progress has still to remove, one lock at a time. */
  datatype State = State(
    forwards: map<string, Forward>, order: seq<string>, children: map<string, seq<string>>,
    pending: multiset<ServiceConfig>, queue: seq<string>, nextId: nat)

  const EMPTY: State := State(map[], [], map[], multiset{}, [], 0)

  function Parent(f: Forward): string { f.svc.parentName }

  // ---------------------------------------------------------------------
  // Adding
  // ---------------------------------------------------------------------

  datatype AddError = Invalid | Exists | PortInUse

  predicate PortTaken(forwards: map<string, Forward>, port: int) {
    exists n | n in forwards.Keys :: ConfiguredOrActual(forwards[n]) == port
  }

  /** The port a new static port is compared with. */
  function ConfiguredOrActual(f: Forward): int {
    if f.svc.localPort != 0 then f.svc.localPort else f.actualPort
  }

  /** Why a service cannot be added, if it cannot. */
  function Refusal(st: State, svc: ServiceConfig): Option<AddError> {
    if !ValidService(svc) then Some(Invalid)
    else if svc.name in st.forwards || svc.name in st.children then Some(Exists)
    else if !svc.IsMultiPort() && svc.localPort != 0 && PortTaken(st.forwards, svc.localPort) then Some(PortInUse)
    else None
  }

  /** A multi-port service is only reserved; a single-port one is registered. */
  function Reserve(st: State, svc: ServiceConfig): State {
    if svc.IsMultiPort() then
      st.(children := st.children[svc.name := []], pending := st.pending + multiset{svc})
    else Insert(st, svc.name, Forward(st.nextId, svc, svc.sourceConfig, Starting, 0))
  }

  function Insert(st: State, name: string, f: Forward): State {
    st.(forwards := st.forwards[name := f], order := st.order + [name], nextId := st.nextId + 1)
  }

  // ---------------------------------------------------------------------
  // Resolution of a multi-port service
  // ---------------------------------------------------------------------

  function ChildName(svc: ServiceConfig, port: ResolvedPort): string {
    svc.name + "/" + (if port.name == "" then Itoa(port.remotePort) else port.name)
  }

  function ChildService(svc: ServiceConfig, port: ResolvedPort): ServiceConfig {
    ServiceConfig(
      ChildName(svc, port), svc.service, svc.pod, port.localPort, port.remotePort, svc.namespace,
      PortsConfig(false, []), [], 0, NetworkConfig("", "", ""), ChaosConfig(None, 0.0, 0.0, ""), false, "",
      svc.name, port.name, svc.sourceConfig)
  }

  function ChildNames(svc: ServiceConfig, ports: seq<ResolvedPort>): seq<string> {
    seq(|ports|, i requires 0 <= i < |ports| => ChildName(svc, ports[i]))
  }

  /** Register the children whose names are free. */
  function Register(st: State, svc: ServiceConfig, ports: seq<ResolvedPort>): State {
    if ports == [] then st
    else RegisterOne(Register(st, svc, ports[..|ports| - 1]), svc, ports[|ports| - 1])
  }

  function RegisterOne(st: State, svc: ServiceConfig, port: ResolvedPort): State {
    var name := ChildName(svc, port);
    if name in st.forwards then st.(nextId := st.nextId + 1)
    else Insert(st, name, Forward(st.nextId, ChildService(svc, port), svc.sourceConfig, Starting, 0))
  }

  function Resolved(st: State, svc: ServiceConfig, ports: seq<ResolvedPort>): State {
    var st' := st.(pending := st.pending - multiset{svc});
    if svc.name in st.children then
      var r := Register(st', svc, ports);
      r.(children := r.children[svc.name := ChildNames(svc, ports)])
    else st'
  }

  /** A failed resolution shows up as a failed entry of the parent's own name,
      which carries no source. */
  function Unresolved(st: State, svc: ServiceConfig): State {
    var st' := st.(pending := st.pending - multiset{svc});
    if svc.name in st.children && svc.name !in st.forwards then
      Insert(st', svc.name, Forward(st.nextId, svc, "", Failed, 0))
    else st'
  }

  // ---------------------------------------------------------------------
  // Removing
  // ---------------------------------------------------------------------

  /** Delete the first occurrence. */
  function RemoveFirst(order: seq<string>, name: string): seq<string> {
    if order == [] then []
    else if order[0] == name then order[1..]
    else [order[0]] + RemoveFirst(order[1..], name)
  }

  /** Take one entry out, if it is there. */
  function DropEntry(st: State, name: string): State {
    if name in st.forwards then
      st.(forwards := st.forwards - {name}, order := RemoveFirst(st.order, name))
    else st
  }

  /** The first step of a removal. A parent goes at once, with its own entry;
      its children, or the single forward of that name, follow one by one. */
  function BeginRemoval(st: State, name: string): State {
    if name in st.children then
      DropEntry(st, name).(children := st.children - {name}, queue := st.children[name])
    else st.(queue := [name])
  }

  function StepRemoval(st: State): State
    requires st.queue != []
  {
    DropEntry(st, st.queue[0]).(queue := st.queue[1..])
  }

  /** What a forward's own supervisor reports about it. */
  function Observed(st: State, name: string, state: ForwardState, actualPort: int): State {
    if name in st.forwards then
      st.(forwards := st.forwards[name := st.forwards[name].(state := state, actualPort := actualPort)])
    else st
  }

  // ---------------------------------------------------------------------
  // Interleaved runs
  // ---------------------------------------------------------------------

  datatype Event =
    | Add(svc: ServiceConfig)
    | ResolveOk(svc: ServiceConfig, ports: seq<ResolvedPort>)
    | ResolveFail(svc: ServiceConfig)
    | RemoveBegin(name: string)
    | RemoveStep
    | Observe(name: string, state: ForwardState, actualPort: int)

  /** Commands wait for the removal in progress; resolutions and the forwards'
      own supervisors do not. Nobody but a resolution sets a parent name, and a
      resolution that finds no port fails. */
  predicate Enabled(st: State, e: Event) {
    match e
    case Add(svc) => st.queue == [] && svc.parentName == ""
    case ResolveOk(svc, ports) => svc in st.pending && ports != []
    case ResolveFail(svc) => svc in st.pending
    case RemoveBegin(_) => st.queue == []
    case RemoveStep => st.queue != []
    case Observe(_, _, _) => true
  }

  function Next(st: State, e: Event): State
    requires Enabled(st, e)
  {
    match e
    case Add(svc) => if Refusal(st, svc).None? then Reserve(st, svc) else st
    case ResolveOk(svc, ports) => Resolved(st, svc, ports)
    case ResolveFail(svc) => Unresolved(st, svc)
    case RemoveBegin(name) => BeginRemoval(st, name)
    case RemoveStep => StepRemoval(st)
    case Observe(name, state, port) => Observed(st, name, state, port)
  }

  ghost predicate Run(states: seq<State>, events: seq<Event>) {
    && |states| == |events| + 1
    && states[0] == EMPTY
    && forall i | 0 <= i < |events| :: Enabled(states[i], events[i]) && states[i + 1] == Next(states[i], events[i])
  }

  // ---------------------------------------------------------------------
  // What holds in every reachable state
  // ---------------------------------------------------------------------

  /** The list and the map have the same names, each once. */
  ghost predicate Agreement(st: State) {
    NoDuplicates(st.order) && forall n :: n in st.order <==> n in st.forwards
  }

  ghost predicate Identified(st: State) {
    && (forall n | n in st.forwards :: st.forwards[n].svc.name == n && st.forwards[n].id < st.nextId)
    && (forall a, b | a in st.forwards && b in st.forwards && a != b :: st.forwards[a].id != st.forwards[b].id)
  }

  /** Two forwards that are not children never share a configured port. */
  ghost predicate StaticPortsDistinct(st: State) {
    forall a, b | a in st.forwards && b in st.forwards && a != b
                  && Parent(st.forwards[a]) == "" && Parent(st.forwards[b]) == ""
                  && st.forwards[a].svc.localPort != 0 ::
      st.forwards[a].svc.localPort != st.forwards[b].svc.localPort
  }

  ghost predicate PendingAreMulti(st: State) {
    forall svc | svc in st.pending :: ValidService(svc) && svc.IsMultiPort() && svc.parentName == ""
  }

  ghost predicate NamesNotEmpty(st: State) {
    "" !in st.forwards && "" !in st.children
  }

  ghost predicate Consistent(st: State) {
    Agreement(st) && Identified(st) && StaticPortsDistinct(st) && PendingAreMulti(st) && NamesNotEmpty(st)
  }

  lemma InsertKeepsAgreement(st: State, name: string, f: Forward)
    requires Agreement(st) && name !in st.forwards
    ensures Agreement(Insert(st, name, f))
  {
    var order := st.order + [name];
    assert forall i | 0 <= i < |st.order| :: order[i] == st.order[i] && st.order[i] in st.order;
    assert forall n :: n in order <==> n in st.order || n == name;
  }

  lemma InsertKeepsPorts(st: State, name: string, f: Forward)
    requires StaticPortsDistinct(st) && name !in st.forwards
    requires Parent(f) == "" && f.svc.localPort != 0 ==> !PortTaken(st.forwards, f.svc.localPort)
    ensures StaticPortsDistinct(Insert(st, name, f))
  {
    if Parent(f) == "" && f.svc.localPort != 0 {
      forall a | a in st.forwards ensures st.forwards[a].svc.localPort != f.svc.localPort {
        assert a in st.forwards.Keys;
        assert ConfiguredOrActual(st.forwards[a]) != f.svc.localPort;
      }
    }
  }

  lemma InsertKeepsConsistent(st: State, name: string, f: Forward)
    requires Consistent(st) && name !in st.forwards && name != "" && f.svc.name == name && f.id == st.nextId
    requires Parent(f) == "" && f.svc.localPort != 0 ==> !PortTaken(st.forwards, f.svc.localPort)
    ensures Consistent(Insert(st, name, f))
  {
    InsertKeepsAgreement(st, name, f);
    InsertKeepsPorts(st, name, f);
  }

  lemma {:induction false} RegisterFrame(st: State, svc: ServiceConfig, ports: seq<ResolvedPort>)
    requires Consistent(st) && svc.name != ""
    ensures var r := Register(st, svc, ports);
            && Consistent(r)
            && r.children == st.children && r.pending == st.pending && r.queue == st.queue
            && (forall n | n in st.forwards :: n in r.forwards && r.forwards[n] == st.forwards[n])
            && (forall n | n in r.forwards && n !in st.forwards ::
                  && n in ChildNames(svc, ports) && Parent(r.forwards[n]) == svc.name
                  && r.forwards[n].sourceConfig == svc.sourceConfig)
            && (forall n | n in ChildNames(svc, ports) :: n in r.forwards)
  {
    if ports != [] {
      var init, port := ports[..|ports| - 1], ports[|ports| - 1];
      RegisterFrame(st, svc, init);
      var mid := Register(st, svc, init);
      var name := ChildName(svc, port);
      assert ChildNames(svc, ports) == ChildNames(svc, init) + [name];
      if name !in mid.forwards {
        InsertKeepsConsistent(mid, name, Forward(mid.nextId, ChildService(svc, port), svc.sourceConfig, Starting, 0));
      }
    }
  }

  // ---------------------------------------------------------------------
  // What a landing resolution brings, field by field
  // ---------------------------------------------------------------------

  /** A port's forward is named after the port, or else after its number. */
  ghost predicate IsNameOf(n: string, svc: ServiceConfig, port: ResolvedPort) {
    n == svc.name + "/" + if port.name != "" then port.name else Itoa(port.remotePort)
  }

  /** Port i is the first one of that name. */
  ghost predicate FirstPort(svc: ServiceConfig, ports: seq<ResolvedPort>, i: nat, n: string) {
    i < |ports| && IsNameOf(n, svc, ports[i]) && forall j | 0 <= j < i :: !IsNameOf(n, svc, ports[j])
  }

  /** A new forward for that port of the service: not multi-port, and with no
      settings of its own. */
  ghost predicate IsChild(f: Forward, n: string, svc: ServiceConfig, port: ResolvedPort) {
    && f.state == Starting && f.actualPort == 0 && f.sourceConfig == svc.sourceConfig
    && f.svc.name == n && f.svc.parentName == svc.name && f.svc.portName == port.name
    && f.svc.remotePort == port.remotePort && f.svc.localPort == port.localPort
    && f.svc.service == svc.service && f.svc.pod == svc.pod && f.svc.namespace == svc.namespace
    && f.svc.sourceConfig == svc.sourceConfig
    && !f.svc.ports.all && f.svc.ports.selectors == [] && f.svc.excludePorts == [] && f.svc.localPortOffset == 0
    && f.svc.network == NetworkConfig("", "", "") && f.svc.chaos.enabled == None
    && !f.svc.isLazy && f.svc.connectionMode == ""
  }

  /** A free name gets the forward of its first port, with a new identity. */
  ghost predicate Gets(st: State, svc: ServiceConfig, ports: seq<ResolvedPort>, r: State, n: string) {
    && (n in r.forwards <==> exists i: nat :: FirstPort(svc, ports, i, n))
    && (forall i: nat | FirstPort(svc, ports, i, n) ::
          n in r.forwards && IsChild(r.forwards[n], n, svc, ports[i]) && st.nextId <= r.forwards[n].id < r.nextId)
  }

  /** The new names come last, in the order of their ports. */
  ghost predicate NewNamesLast(st: State, svc: ServiceConfig, ports: seq<ResolvedPort>, r: State) {
    && |st.order| <= |r.order| && r.order[..|st.order|] == st.order
    && (forall a | |st.order| <= a < |r.order| :: r.order[a] !in st.forwards && r.order[a] in r.forwards)
    && (forall a, b, i: nat, j: nat | |st.order| <= a < b < |r.order|
                                      && FirstPort(svc, ports, i, r.order[a]) && FirstPort(svc, ports, j, r.order[b]) ::
          i < j)
  }

  /** From st to r the ports' forwards were registered. */
  ghost predicate Registers(st: State, svc: ServiceConfig, ports: seq<ResolvedPort>, r: State) {
    && (forall n | n in st.forwards :: n in r.forwards && r.forwards[n] == st.forwards[n])
    && (forall n | n !in st.forwards :: Gets(st, svc, ports, r, n))
    && NewNamesLast(st, svc, ports, r)
  }

  lemma FirstPortOfMore(svc: ServiceConfig, ports: seq<ResolvedPort>, port: ResolvedPort, n: string, i: nat)
    ensures FirstPort(svc, ports + [port], i, n) <==>
            || FirstPort(svc, ports, i, n)
            || (i == |ports| && IsNameOf(n, svc, port) && forall j: nat :: !FirstPort(svc, ports, j, n))
  {
    var more := ports + [port];
    assert forall j | 0 <= j < |ports| :: more[j] == ports[j];
    if j: nat :| j < |ports| && IsNameOf(n, svc, ports[j]) { HasFirstPort(svc, ports, j, n); }
  }

  lemma {:induction false} HasFirstPort(svc: ServiceConfig, ports: seq<ResolvedPort>, i: nat, n: string)
    requires i < |ports| && IsNameOf(n, svc, ports[i])
    ensures exists k: nat :: FirstPort(svc, ports, k, n)
  {
    if j: nat :| j < i && IsNameOf(n, svc, ports[j]) {
      HasFirstPort(svc, ports, j, n);
    } else {
      assert FirstPort(svc, ports, i, n);
    }
  }

  lemma {:induction false} RegisterRegisters(st: State, svc: ServiceConfig, ports: seq<ResolvedPort>)
    ensures Registers(st, svc, ports, Register(st, svc, ports)) && Register(st, svc, ports).nextId >= st.nextId
  {
    if ports == [] {
      assert forall n, i: nat :: !FirstPort(svc, ports, i, n);
    } else {
      var init, port := ports[..|ports| - 1], ports[|ports| - 1];
      RegisterRegisters(st, svc, init);
      assert ports == init + [port];
      var mid := Register(st, svc, init);
      forall n | n !in st.forwards ensures Gets(st, svc, ports, Register(st, svc, ports), n) {
        GetsMore(st, svc, init, port, mid, n);
      }
      NewNamesInOrder(st, svc, init, port, mid, Register(st, svc, ports));
    }
  }

  lemma GetsMore(st: State, svc: ServiceConfig, ports: seq<ResolvedPort>, port: ResolvedPort, mid: State, n: string)
    requires Gets(st, svc, ports, mid, n) && n !in st.forwards && mid.nextId >= st.nextId
    ensures Gets(st, svc, ports + [port], RegisterOne(mid, svc, port), n)
  {
    var more, r := ports + [port], RegisterOne(mid, svc, port);
    forall i: nat ensures FirstPort(svc, more, i, n) <==>
                    || FirstPort(svc, ports, i, n)
                    || (i == |ports| && n == ChildName(svc, port) && n !in mid.forwards)
    {
      FirstPortOfMore(svc, ports, port, n, i);
    }
    assert forall i: nat | FirstPort(svc, ports, i, n) :: more[i] == ports[i];
    if n == ChildName(svc, port) && n !in mid.forwards { assert FirstPort(svc, more, |ports|, n); }
    if n in mid.forwards {
      var i: nat :| FirstPort(svc, ports, i, n);
      assert FirstPort(svc, more, i, n);
    }
  }

  lemma NewNamesInOrder(st: State, svc: ServiceConfig, ports: seq<ResolvedPort>, port: ResolvedPort, mid: State,
                        r: State)
    requires NewNamesLast(st, svc, ports, mid) && r == RegisterOne(mid, svc, port)
    requires forall n | n !in st.forwards :: Gets(st, svc, ports, mid, n)
    requires forall n | n in st.forwards :: n in mid.forwards
    ensures NewNamesLast(st, svc, ports + [port], r)
  {
    forall a, b, i: nat, j: nat | |st.order| <= a < b < |r.order|
                                  && FirstPort(svc, ports + [port], i, r.order[a])
                                  && FirstPort(svc, ports + [port], j, r.order[b])
      ensures i < j
    {
      FirstPortOfMore(svc, ports, port, r.order[a], i);
      FirstPortOfMore(svc, ports, port, r.order[b], j);
      assert r.order[a] == mid.order[a] && mid.order[a] in mid.forwards;
      assert b < |mid.order| ==> r.order[b] == mid.order[b] && mid.order[b] in mid.forwards;
    }
  }

  /** A child of a valid service is valid as a service of its own exactly when
      its ports are port numbers. */
  lemma ChildIsValidIff(svc: ServiceConfig, port: ResolvedPort)
    requires ValidService(svc)
    ensures ValidService(ChildService(svc, port)) <==> 1 <= port.remotePort <= 65535 && 0 <= port.localPort <= 65535
  {
    assert ChildService(svc, port).name == svc.name + ChildName(svc, port)[|svc.name|..];
  }

  /** The end of a resolution, with the ports found or None on failure, written
      out: a parent that is gone gets nothing; one that is there gets its ports'
      forwards and their names as its list, or an entry that shows the failure. */
  ghost predicate Lands(st: State, svc: ServiceConfig, outcome: Option<seq<ResolvedPort>>, r: State) {
    && r.pending == st.pending - multiset{svc} && r.queue == st.queue
    && r.children.Keys == st.children.Keys
    && (forall p | p in st.children && (p != svc.name || outcome.None?) :: r.children[p] == st.children[p])
    && if svc.name in st.children && outcome.Some? then
         && Registers(st, svc, outcome.value, r)
         && |r.children[svc.name]| == |outcome.value|
         && forall i | 0 <= i < |outcome.value| :: IsNameOf(r.children[svc.name][i], svc, outcome.value[i])
       else if svc.name in st.children && svc.name !in st.forwards then
         && r.forwards == st.forwards[svc.name := Forward(st.nextId, svc, "", Failed, 0)]
         && r.order == st.order + [svc.name] && r.nextId > st.nextId
       else r.forwards == st.forwards && r.order == st.order
  }

  lemma LandsAsWritten(st: State, svc: ServiceConfig, outcome: Option<seq<ResolvedPort>>)
    ensures Lands(st, svc, outcome, if outcome.Some? then Resolved(st, svc, outcome.value) else Unresolved(st, svc))
  {
    if outcome.Some? && svc.name in st.children {
      var st' := st.(pending := st.pending - multiset{svc});
      RegisterRegisters(st', svc, outcome.value);
      RegisterKeepsIndex(st', svc, outcome.value);
      SameRegisters(st', st, svc, outcome.value, Register(st', svc, outcome.value), Resolved(st, svc, outcome.value));
    }
  }

  lemma {:induction false} RegisterKeepsIndex(st: State, svc: ServiceConfig, ports: seq<ResolvedPort>)
    ensures Register(st, svc, ports).children == st.children && Register(st, svc, ports).pending == st.pending
    ensures Register(st, svc, ports).queue == st.queue
  {
    if ports != [] { RegisterKeepsIndex(st, svc, ports[..|ports| - 1]); }
  }

  lemma SameRegisters(st': State, st: State, svc: ServiceConfig, ports: seq<ResolvedPort>, r': State, r: State)
    requires st'.forwards == st.forwards && st'.order == st.order && st'.nextId == st.nextId
    requires r'.forwards == r.forwards && r'.order == r.order && r'.nextId == r.nextId
    requires Registers(st', svc, ports, r')
    ensures Registers(st, svc, ports, r)
  {
    forall n | n !in st.forwards ensures Gets(st, svc, ports, r, n) { assert Gets(st', svc, ports, r', n); }
  }

  /** An accepted service comes last in the books, or waits for its ports. */
  ghost predicate Accepts(st: State, svc: ServiceConfig, r: State) {
    if svc.IsMultiPort() then
      && r.children == st.children[svc.name := []] && r.pending == st.pending + multiset{svc}
      && r.forwards == st.forwards && r.order == st.order
    else
      && r.forwards == st.forwards[svc.name := Forward(st.nextId, svc, svc.sourceConfig, Starting, 0)]
      && r.order == st.order + [svc.name] && r.children == st.children && r.pending == st.pending
  }

  // ---------------------------------------------------------------------
  // Refusals, written out
  // ---------------------------------------------------------------------

  /** This forward is configured for the port, or is for none in particular and
      has come to listen on it. */
  ghost predicate Occupies(f: Forward, port: int) {
    f.svc.localPort == port || (f.svc.localPort == 0 && f.actualPort == port)
  }

  lemma OccupiedIsTaken(st: State, port: int)
    requires port != 0
    ensures PortTaken(st.forwards, port) <==> exists n :: n in st.forwards && Occupies(st.forwards[n], port)
  {
    if n :| n in st.forwards && Occupies(st.forwards[n], port) { assert n in st.forwards.Keys; }
  }

  /** A valid service is refused exactly when its name is in use, or when it asks
      for a port that some forward occupies. */
  lemma RefusedIff(st: State, svc: ServiceConfig)
    requires ValidService(svc)
    ensures Refusal(st, svc) == Some(Exists) <==> svc.name in st.forwards || svc.name in st.children
    ensures Refusal(st, svc) == Some(PortInUse) <==>
            && svc.name !in st.forwards && svc.name !in st.children
            && !svc.IsMultiPort() && svc.localPort != 0
            && exists n :: n in st.forwards && Occupies(st.forwards[n], svc.localPort)
    ensures Refusal(st, svc) != Some(Invalid)
  {
    if svc.localPort != 0 { OccupiedIsTaken(st, svc.localPort); }
  }

  /** What a forward's own supervisor reports counts at the next add: a port that
      a forward for any port has come to listen on is refused to a service that
      asks for it, and is free again once the forward listens elsewhere. */
  lemma ObservedPortIsRefused(st: State, n: string, state: ForwardState, port: int, svc: ServiceConfig)
    requires n in st.forwards && st.forwards[n].svc.localPort == 0 && port != 0
    requires ValidService(svc) && !svc.IsMultiPort() && svc.name !in st.forwards && svc.name !in st.children
    ensures svc.localPort == port ==> Refusal(Observed(st, n, state, port), svc) == Some(PortInUse)
    ensures svc.localPort != port && svc.localPort != 0 && Refusal(Observed(st, n, state, port), svc).Some? ==>
              exists m :: m in st.forwards && m != n && Occupies(st.forwards[m], svc.localPort)
  {
    var r := Observed(st, n, state, port);
    if svc.localPort == port {
      RefusedIff(r, svc);
      assert n in r.forwards && Occupies(r.forwards[n], port);
    } else if svc.localPort != 0 && Refusal(r, svc).Some? {
      RefusedIff(r, svc);
      var m :| m in r.forwards && Occupies(r.forwards[m], svc.localPort);
      assert m in st.forwards && m != n && r.forwards[m] == st.forwards[m];
    }
  }

  lemma {:induction false} RemoveFirstEffect(order: seq<string>, name: string)
    requires NoDuplicates(order)
    ensures NoDuplicates(RemoveFirst(order, name))
    ensures forall n :: n in RemoveFirst(order, name) <==> n in order && n != name
  {
    if order != [] {
      RemoveFirstEffect(order[1..], name);
      assert order == [order[0]] + order[1..];
      assert order[0] !in order[1..];
    }
  }

  lemma DropEntryKeepsConsistent(st: State, name: string)
    requires Consistent(st)
    ensures Consistent(DropEntry(st, name))
  {
    RemoveFirstEffect(st.order, name);
  }

  /** The same names with the same services and identities. */
  ghost predicate SameServices(st: State, r: State) {
    && r.order == st.order && r.nextId == st.nextId && r.pending == st.pending && r.children == st.children
    && (forall n :: n in r.forwards <==> n in st.forwards)
    && (forall n | n in st.forwards :: r.forwards[n].svc == st.forwards[n].svc && r.forwards[n].id == st.forwards[n].id)
  }

  lemma SameServicesKeepIdentified(st: State, r: State)
    requires Identified(st) && SameServices(st, r)
    ensures Identified(r)
  {}

  lemma SameServicesKeepPorts(st: State, r: State)
    requires StaticPortsDistinct(st) && SameServices(st, r)
    ensures StaticPortsDistinct(r)
  {}

  lemma SameServicesKeepConsistent(st: State, r: State)
    requires Consistent(st) && SameServices(st, r)
    ensures Consistent(r)
  {
    SameServicesKeepIdentified(st, r);
    SameServicesKeepPorts(st, r);
  }

  lemma ObserveKeepsConsistent(st: State, name: string, state: ForwardState, port: int)
    requires Consistent(st)
    ensures Consistent(Observed(st, name, state, port))
  {
    assert SameServices(st, Observed(st, name, state, port));
    SameServicesKeepConsistent(st, Observed(st, name, state, port));
  }

  /** Consistency does not depend on the lists of children or the queue. */
  lemma SameEntries(st: State, r: State)
    requires Consistent(st) && r.forwards == st.forwards && r.order == st.order && r.nextId == st.nextId
    requires r.pending == st.pending
    requires "" !in r.children
    ensures Consistent(r)
  {}

  lemma BeginRemovalKeepsConsistent(st: State, name: string)
    requires Consistent(st)
    ensures Consistent(BeginRemoval(st, name))
  {
    DropEntryKeepsConsistent(st, name);
    SameEntries(if name in st.children then DropEntry(st, name) else st, BeginRemoval(st, name));
  }

  lemma StepRemovalKeepsConsistent(st: State)
    requires Consistent(st) && st.queue != []
    ensures Consistent(StepRemoval(st))
  {
    DropEntryKeepsConsistent(st, st.queue[0]);
    SameEntries(DropEntry(st, st.queue[0]), StepRemoval(st));
  }

  lemma FewerPending(st: State, svc: ServiceConfig)
    requires Consistent(st)
    ensures Consistent(st.(pending := st.pending - multiset{svc}))
  {
    assert forall a | a in st.pending - multiset{svc} :: a in st.pending;
  }

  lemma ResolveOkKeepsConsistent(st: State, svc: ServiceConfig, ports: seq<ResolvedPort>)
    requires Consistent(st) && svc in st.pending
    ensures Consistent(Resolved(st, svc, ports))
  {
    var st' := st.(pending := st.pending - multiset{svc});
    FewerPending(st, svc);
    RegisterFrame(st', svc, ports);
    SameEntries(if svc.name in st.children then Register(st', svc, ports) else st', Resolved(st, svc, ports));
  }

  lemma ResolveFailKeepsConsistent(st: State, svc: ServiceConfig)
    requires Consistent(st) && svc in st.pending
    ensures Consistent(Unresolved(st, svc))
  {
    var st' := st.(pending := st.pending - multiset{svc});
    FewerPending(st, svc);
    if svc.name in st.children && svc.name !in st.forwards {
      InsertKeepsConsistent(st', svc.name, Forward(st.nextId, svc, "", Failed, 0));
    }
  }

  lemma ReserveKeepsConsistent(st: State, svc: ServiceConfig)
    requires Consistent(st) && Refusal(st, svc).None? && svc.parentName == ""
    ensures Consistent(Reserve(st, svc))
  {
    if svc.IsMultiPort() {
      assert forall a | a in st.pending + multiset{svc} :: a in st.pending || a == svc;
    } else {
      InsertKeepsConsistent(st, svc.name, Forward(st.nextId, svc, svc.sourceConfig, Starting, 0));
    }
  }

  lemma NextKeepsConsistent(st: State, e: Event)
    requires Consistent(st) && Enabled(st, e)
    ensures Consistent(Next(st, e))
  {
    match e
    case Add(svc) => if Refusal(st, svc).None? { ReserveKeepsConsistent(st, svc); }
    case ResolveOk(svc, ports) => ResolveOkKeepsConsistent(st, svc, ports);
    case ResolveFail(svc) => ResolveFailKeepsConsistent(st, svc);
    case RemoveBegin(name) => BeginRemovalKeepsConsistent(st, name);
    case RemoveStep => StepRemovalKeepsConsistent(st);
    case Observe(name, state, port) => ObserveKeepsConsistent(st, name, state, port);
  }

  /** In every state of every interleaving, between the steps of a removal
      included: the ordered list has exactly the keys of the map, without
      repetition; identities are distinct; configured ports of forwards that
      are not children are distinct. */
  lemma {:induction false} ReachableIsConsistent(states: seq<State>, events: seq<Event>)
    requires Run(states, events)
    ensures Consistent(states[|events|])
  {
    if events != [] {
      var k := |events| - 1;
      assert Run(states[..k + 1], events[..k]);
      ReachableIsConsistent(states[..k + 1], events[..k]);
      NextKeepsConsistent(states[k], events[k]);
    }
  }

  // ---------------------------------------------------------------------
  // No multi-port service falls silent
  // ---------------------------------------------------------------------

  ghost predicate Awaited(st: State, parent: string) {
    exists svc | svc in st.pending :: svc.name == parent
  }

  /** The service can be seen, or is about to be: it has children, or an entry
      of its own, or its ports are being resolved. */
  ghost predicate Shows(st: State, p: string)
    requires p in st.children
  {
    st.children[p] != [] || p in st.forwards || Awaited(st, p)
  }

  /** The step takes away the only sign of p: a removal of another service,
      which lists the name, deletes the entry that shows p's failure. */
  ghost predicate Silences(st: State, e: Event, p: string)
    requires Enabled(st, e)
  {
    e.RemoveStep? && st.queue[0] == p && p in st.children && st.children[p] == [] && !Awaited(st, p)
  }

  lemma ChildNamesHaveSlash(svc: ServiceConfig, ports: seq<ResolvedPort>, n: string)
    requires n in ChildNames(svc, ports)
    ensures '/' in n
  {
    var i :| 0 <= i < |ports| && n == ChildName(svc, ports[i]);
    assert n[|svc.name|] == '/';
  }

  /** Every step keeps a service showing, or makes it show, unless it silences
      it. */
  lemma ShowsIff(st: State, e: Event, p: string)
    requires Consistent(st) && Enabled(st, e) && p in Next(st, e).children
    requires p in st.children ==> Shows(st, p)
    ensures Shows(Next(st, e), p) <==> !Silences(st, e, p)
  {
    match e
    case Add(svc) => if Refusal(st, svc).None? { ReserveShows(st, svc, p); }
    case ResolveOk(svc, ports) => ResolvedShows(st, svc, ports, p);
    case ResolveFail(svc) => UnresolvedShows(st, svc, p);
    case RemoveBegin(name) => BeginShows(st, name, p);
    case RemoveStep => StepShowsIff(st, p);
    case Observe(_, _, _) =>
  }

  lemma AwaitedStill(st: State, svc: ServiceConfig, p: string, r: State)
    requires r.pending == st.pending - multiset{svc} && p != svc.name && Awaited(st, p)
    ensures Awaited(r, p)
  {
    var a :| a in st.pending && a.name == p;
    assert a in r.pending;
  }

  lemma ReserveShows(st: State, svc: ServiceConfig, p: string)
    requires p in Reserve(st, svc).children && (p in st.children ==> Shows(st, p))
    ensures Shows(Reserve(st, svc), p)
  {
    if svc.IsMultiPort() {
      var r := Reserve(st, svc);
      assert svc in r.pending;
      assert forall a | a in st.pending :: a in r.pending;
    }
  }

  lemma ResolvedShows(st: State, svc: ServiceConfig, ports: seq<ResolvedPort>, p: string)
    requires Consistent(st) && svc in st.pending && ports != []
    requires p in Resolved(st, svc, ports).children && (p in st.children ==> Shows(st, p))
    ensures Shows(Resolved(st, svc, ports), p)
  {
    RegisteredFrame(st, svc, ports);
    assert |ChildNames(svc, ports)| == |ports|;
    if p != svc.name && Awaited(st, p) { AwaitedStill(st, svc, p, Resolved(st, svc, ports)); }
  }

  lemma UnresolvedShows(st: State, svc: ServiceConfig, p: string)
    requires p in st.children && Shows(st, p)
    ensures Shows(Unresolved(st, svc), p)
  {
    if p != svc.name && Awaited(st, p) { AwaitedStill(st, svc, p, Unresolved(st, svc)); }
  }

  lemma BeginShows(st: State, name: string, p: string)
    requires p in st.children && Shows(st, p) && p in BeginRemoval(st, name).children
    ensures Shows(BeginRemoval(st, name), p)
  {
    DropEntryFrame(st, name);
  }

  lemma StepShowsIff(st: State, p: string)
    requires st.queue != [] && p in st.children && Shows(st, p)
    ensures p in StepRemoval(st).children
    ensures Shows(StepRemoval(st), p) <==> st.queue[0] != p || st.children[p] != [] || Awaited(st, p)
  {
    DropEntryFrame(st, st.queue[0]);
  }

  /** Services whose names contain no slash show, and no removal threatens
      them: what is on a list has a slash. */
  ghost predicate Alive(st: State) {
    && (forall p | p in st.children && '/' !in p :: Shows(st, p))
    && ListsHaveSlashes(st.children)
    && NoneThreatened(st)
  }

  ghost predicate ListsHaveSlashes(children: map<string, seq<string>>) {
    forall p, c | p in children && c in children[p] :: '/' in c
  }

  ghost predicate NoneThreatened(st: State) {
    forall n | n in st.queue :: '/' in n || n !in st.children
  }

  lemma NextKeepsLists(st: State, e: Event)
    requires ListsHaveSlashes(st.children) && Consistent(st) && Enabled(st, e)
    ensures ListsHaveSlashes(Next(st, e).children)
  {
    match e
    case Add(svc) =>
    case ResolveOk(svc, ports) =>
      RegisteredFrame(st, svc, ports);
      forall c | c in ChildNames(svc, ports) ensures '/' in c { ChildNamesHaveSlash(svc, ports, c); }
    case ResolveFail(svc) =>
    case RemoveBegin(name) =>
    case RemoveStep => DropEntryFrame(st, st.queue[0]);
    case Observe(_, _, _) =>
  }

  lemma NextThreatensNone(st: State, e: Event)
    requires ListsHaveSlashes(st.children) && NoneThreatened(st) && Consistent(st) && Enabled(st, e)
    ensures NoneThreatened(Next(st, e))
  {
    match e
    case Add(svc) =>
    case ResolveOk(svc, ports) => RegisteredFrame(st, svc, ports);
    case ResolveFail(svc) =>
    case RemoveBegin(name) =>
    case RemoveStep => DropEntryFrame(st, st.queue[0]);
    case Observe(_, _, _) =>
  }

  lemma NextKeepsAlive(st: State, e: Event)
    requires Consistent(st) && Alive(st) && Enabled(st, e)
    ensures Alive(Next(st, e))
  {
    NextKeepsLists(st, e);
    NextThreatensNone(st, e);
    forall p | p in Next(st, e).children && '/' !in p ensures Shows(Next(st, e), p) {
      ShowsIff(st, e, p);
    }
  }

  /** In every state of every interleaving a multi-port service whose name has
      no slash has children, or shows its failure, or is being resolved. */
  lemma {:induction false} ReachableIsAlive(states: seq<State>, events: seq<Event>)
    requires Run(states, events)
    ensures Alive(states[|events|])
  {
    if events != [] {
      var k := |events| - 1;
      assert Run(states[..k + 1], events[..k]);
      ReachableIsAlive(states[..k + 1], events[..k]);
      ReachableIsConsistent(states[..k + 1], events[..k]);
      NextKeepsAlive(states[k], events[k]);
    }
  }

  // ---------------------------------------------------------------------
  // No orphans
  // ---------------------------------------------------------------------

  /** Every child is on its parent's list, or, once its parent is gone, is
      waiting in the removal in progress. */
  ghost predicate NoOrphans(st: State) {
    forall n | n in st.forwards && Parent(st.forwards[n]) != "" :: Tracked(st, n, Parent(st.forwards[n]))
  }

  ghost predicate Tracked(st: State, child: string, parent: string) {
    if parent in st.children then child in st.children[parent] else child in st.queue
  }

  /** A service being resolved has no children on its list yet, and is being
      resolved only once. */
  ghost predicate PendingAreFresh(st: State) {
    FreshPending(st.pending, st.children)
  }

  ghost predicate FreshPending(pending: multiset<ServiceConfig>, children: map<string, seq<string>>) {
    && (forall svc | svc in pending && svc.name in children :: children[svc.name] == [])
    && (forall a, b | a in pending && b in pending && a.name == b.name :: a == b && pending[a] == 1)
  }

  /** Children of one parent come from one source. */
  ghost predicate SiblingsAgree(st: State) {
    forall a, b | a in st.forwards && b in st.forwards && Parent(st.forwards[a]) != ""
                  && Parent(st.forwards[a]) == Parent(st.forwards[b]) ::
      st.forwards[a].sourceConfig == st.forwards[b].sourceConfig
  }

  /** What keeps families together. */
  ghost predicate Together(st: State) {
    NoOrphans(st) && SiblingsAgree(st)
  }

  ghost predicate Orderly(st: State) {
    Consistent(st) && Together(st) && PendingAreFresh(st) && Alive(st)
  }

  /** A multi-port service is not added again while an earlier resolution of
      the same name is outstanding. */
  ghost predicate NotReAdded(st: State, e: Event) {
    e.Add? && e.svc.IsMultiPort() ==> forall svc | svc in st.pending :: svc.name != e.svc.name
  }

  /** Every child after is a child before. */
  ghost predicate NoNewChild(st: State, r: State) {
    forall n | n in r.forwards && Parent(r.forwards[n]) != "" ::
      && n in st.forwards && st.forwards[n].svc == r.forwards[n].svc
      && st.forwards[n].sourceConfig == r.forwards[n].sourceConfig
  }

  lemma NoNewChildKeeps(st: State, r: State)
    requires Together(st) && NoNewChild(st, r)
    requires forall n, p | n in r.forwards && p != "" && Tracked(st, n, p) :: Tracked(r, n, p)
    ensures Together(r)
  {
    forall n | n in r.forwards && Parent(r.forwards[n]) != "" ensures Tracked(r, n, Parent(r.forwards[n])) {
      assert Tracked(st, n, Parent(st.forwards[n]));
    }
  }

  lemma RegisteredFrame(st: State, svc: ServiceConfig, ports: seq<ResolvedPort>)
    requires Consistent(st) && svc in st.pending
    ensures var r := Resolved(st, svc, ports);
            && r.pending == st.pending - multiset{svc} && r.queue == st.queue
            && (if svc.name in st.children then
                  && r.children == st.children[svc.name := ChildNames(svc, ports)]
                  && (forall n | n in st.forwards :: n in r.forwards && r.forwards[n] == st.forwards[n])
                  && (forall n | n in r.forwards && n !in st.forwards ::
                        && n in ChildNames(svc, ports) && Parent(r.forwards[n]) == svc.name
                        && r.forwards[n].sourceConfig == svc.sourceConfig)
                  && (forall n | n in ChildNames(svc, ports) :: n in r.forwards)
                else r.children == st.children && r.forwards == st.forwards && r.order == st.order)
  {
    var st' := st.(pending := st.pending - multiset{svc});
    FewerPending(st, svc);
    RegisterFrame(st', svc, ports);
  }

  /** A service whose list is still empty has no child anywhere. */
  lemma EmptyListNoChild(st: State, parent: string)
    requires NoOrphans(st) && parent in st.children && st.children[parent] == [] && parent != ""
    ensures forall n | n in st.forwards :: Parent(st.forwards[n]) != parent
  {
    forall n | n in st.forwards ensures Parent(st.forwards[n]) != parent {
      assert Parent(st.forwards[n]) != "" ==> Tracked(st, n, Parent(st.forwards[n]));
    }
  }

  lemma PendingShrinks(pending: multiset<ServiceConfig>, before: map<string, seq<string>>, svc: ServiceConfig,
                       after: map<string, seq<string>>)
    requires FreshPending(pending, before) && svc in pending
    requires forall name | name in after && name != svc.name :: name in before && after[name] == before[name]
    ensures FreshPending(pending - multiset{svc}, after)
  {
    var rest := pending - multiset{svc};
    assert rest[svc] == 0;
    assert forall a | a in rest :: a in pending && a != svc && rest[a] == pending[a];
  }

  lemma ResolveOkKeepsTogether(st: State, svc: ServiceConfig, ports: seq<ResolvedPort>)
    requires Consistent(st) && Together(st) && svc in st.pending
    requires svc.name in st.children ==> st.children[svc.name] == []
    ensures Together(Resolved(st, svc, ports))
  {
    var r := Resolved(st, svc, ports);
    RegisteredFrame(st, svc, ports);
    if svc.name in st.children {
      EmptyListNoChild(st, svc.name);
      NewFamily(st, r, svc, ChildNames(svc, ports));
    } else {
      NoNewChildKeeps(st, r);
    }
  }

  lemma NewFamily(st: State, r: State, svc: ServiceConfig, names: seq<string>)
    requires Together(st) && r.queue == st.queue && r.children == st.children[svc.name := names]
    requires svc.name in st.children && forall n | n in st.forwards :: Parent(st.forwards[n]) != svc.name
    requires forall n | n in st.forwards :: n in r.forwards && r.forwards[n] == st.forwards[n]
    requires forall n | n in r.forwards && n !in st.forwards ::
               n in names && Parent(r.forwards[n]) == svc.name && r.forwards[n].sourceConfig == svc.sourceConfig
    ensures Together(r)
  {
    forall n | n in r.forwards && Parent(r.forwards[n]) != "" ensures Tracked(r, n, Parent(r.forwards[n])) {
      if n in st.forwards { assert Tracked(st, n, Parent(st.forwards[n])); }
    }
  }

  lemma ResolveFailKeepsTogether(st: State, svc: ServiceConfig)
    requires Together(st) && svc.parentName == ""
    ensures Together(Unresolved(st, svc))
  {
    NoNewChildKeeps(st, Unresolved(st, svc));
  }

  lemma ReserveKeepsTogether(st: State, svc: ServiceConfig)
    requires Together(st) && st.queue == []
    requires svc.parentName == "" && svc.name !in st.children && svc.name !in st.forwards
    ensures Together(Reserve(st, svc))
  {
    NoNewChildKeeps(st, Reserve(st, svc));
  }

  lemma PendingGrows(pending: multiset<ServiceConfig>, children: map<string, seq<string>>, svc: ServiceConfig)
    requires FreshPending(pending, children) && forall a | a in pending :: a.name != svc.name
    ensures FreshPending(pending + multiset{svc}, children[svc.name := []])
  {
    var more := pending + multiset{svc};
    assert more[svc] == 1;
    assert forall a | a in more :: a == svc || (a in pending && a != svc && more[a] == pending[a]);
  }

  lemma DropEntryFrame(st: State, name: string)
    ensures DropEntry(st, name).forwards == st.forwards - {name}
    ensures DropEntry(st, name).children == st.children && DropEntry(st, name).pending == st.pending
  {
    if name !in st.forwards { assert st.forwards - {name} == st.forwards; }
  }

  lemma BeginRemovalKeepsTogether(st: State, name: string)
    requires Together(st) && st.queue == []
    ensures Together(BeginRemoval(st, name))
  {
    DropEntryFrame(st, name);
    NoNewChildKeeps(st, BeginRemoval(st, name));
  }

  lemma StepRemovalKeepsTogether(st: State)
    requires Together(st) && st.queue != []
    ensures Together(StepRemoval(st))
  {
    DropEntryFrame(st, st.queue[0]);
    assert st.queue == [st.queue[0]] + st.queue[1..];
    NoNewChildKeeps(st, StepRemoval(st));
  }

  lemma ObserveKeepsTogether(st: State, name: string, state: ForwardState, port: int)
    requires Together(st)
    ensures Together(Observed(st, name, state, port))
  {
    NoNewChildKeeps(st, Observed(st, name, state, port));
  }

  lemma NextKeepsTogether(st: State, e: Event)
    requires Orderly(st) && Enabled(st, e)
    ensures Together(Next(st, e))
  {
    match e
    case Add(svc) => if Refusal(st, svc).None? { ReserveKeepsTogether(st, svc); }
    case ResolveOk(svc, ports) => ResolveOkKeepsTogether(st, svc, ports);
    case ResolveFail(svc) => ResolveFailKeepsTogether(st, svc);
    case RemoveBegin(name) => BeginRemovalKeepsTogether(st, name);
    case RemoveStep => StepRemovalKeepsTogether(st);
    case Observe(name, state, port) => ObserveKeepsTogether(st, name, state, port);
  }

  lemma NextKeepsFresh(st: State, e: Event)
    requires Consistent(st) && PendingAreFresh(st) && Enabled(st, e) && NotReAdded(st, e)
    ensures PendingAreFresh(Next(st, e))
  {
    match e
    case Add(svc) =>
      if Refusal(st, svc).None? && svc.IsMultiPort() { PendingGrows(st.pending, st.children, svc); }
    case ResolveOk(svc, ports) =>
      RegisteredFrame(st, svc, ports);
      PendingShrinks(st.pending, st.children, svc, Resolved(st, svc, ports).children);
    case ResolveFail(svc) => PendingShrinks(st.pending, st.children, svc, st.children);
    case RemoveBegin(name) => DropEntryFrame(st, name);
    case RemoveStep => DropEntryFrame(st, st.queue[0]);
    case Observe(_, _, _) =>
  }

  lemma NextKeepsOrderly(st: State, e: Event)
    requires Orderly(st) && Enabled(st, e) && NotReAdded(st, e)
    ensures Orderly(Next(st, e))
  {
    NextKeepsConsistent(st, e);
    NextKeepsTogether(st, e);
    NextKeepsFresh(st, e);
    NextKeepsAlive(st, e);
  }

  /** If no multi-port service is re-added while an earlier resolution of it is
      outstanding, no interleaving leaks a child. */
  lemma {:induction false} ReachableHasNoOrphans(states: seq<State>, events: seq<Event>)
    requires Run(states, events) && forall i | 0 <= i < |events| :: NotReAdded(states[i], events[i])
    ensures Orderly(states[|events|])
  {
    if events != [] {
      var k := |events| - 1;
      assert Run(states[..k + 1], events[..k]);
      ReachableHasNoOrphans(states[..k + 1], events[..k]);
      NextKeepsOrderly(states[k], events[k]);
    }
  }

  /** So once a removal is over nothing of a removed service is left, whenever
      its resolution landed, and a resolution that lands later adds nothing. */
  lemma RemovedLeavesNothing(st: State, parent: string)
    requires Orderly(st) && st.queue == [] && parent !in st.children && parent != ""
    ensures forall n | n in st.forwards :: Parent(st.forwards[n]) != parent
    ensures forall svc, ports | svc in st.pending && svc.name == parent ::
              Resolved(st, svc, ports).forwards == st.forwards && Unresolved(st, svc).forwards == st.forwards
  {
    forall n | n in st.forwards ensures Parent(st.forwards[n]) != parent {
      assert Parent(st.forwards[n]) != "" ==> Tracked(st, n, Parent(st.forwards[n]));
    }
    forall svc, ports: seq<ResolvedPort> | svc in st.pending && svc.name == parent
      ensures Resolved(st, svc, ports).forwards == st.forwards && Unresolved(st, svc).forwards == st.forwards
    {
      GoneAddsNothing(st, svc, ports);
    }
  }

  lemma GoneAddsNothing(st: State, svc: ServiceConfig, ports: seq<ResolvedPort>)
    requires svc.name !in st.children
    ensures Resolved(st, svc, ports).forwards == st.forwards && Unresolved(st, svc).forwards == st.forwards
  {}

  /** A late resolution keeps the ledger free of orphans exactly when it lists
      every child its name already has. */
  lemma ResolutionOrphansIff(st: State, svc: ServiceConfig, ports: seq<ResolvedPort>)
    requires Consistent(st) && NoOrphans(st) && svc in st.pending && svc.name in st.children
    ensures NoOrphans(Resolved(st, svc, ports)) <==>
            forall n | n in st.forwards && Parent(st.forwards[n]) == svc.name :: n in ChildNames(svc, ports)
  {
    RegisteredFrame(st, svc, ports);
    var r := Resolved(st, svc, ports);
    if forall n | n in st.forwards && Parent(st.forwards[n]) == svc.name :: n in ChildNames(svc, ports) {
      forall n | n in r.forwards && Parent(r.forwards[n]) != "" ensures Tracked(r, n, Parent(r.forwards[n])) {
        if n in st.forwards { assert Tracked(st, n, Parent(st.forwards[n])); }
      }
    } else {
      var n :| n in st.forwards && Parent(st.forwards[n]) == svc.name && n !in ChildNames(svc, ports);
      assert !Tracked(r, n, svc.name);
    }
  }

  lemma ExtendRun(states: seq<State>, events: seq<Event>, e: Event)
    requires Run(states, events) && Enabled(states[|events|], e)
    ensures Run(states + [Next(states[|events|], e)], events + [e])
  {
    var longer, more := states + [Next(states[|events|], e)], events + [e];
    forall i | 0 <= i < |more| ensures Enabled(longer[i], more[i]) && longer[i + 1] == Next(longer[i], more[i]) {
      assert longer[i] == states[i];
      if i < |events| { assert longer[i + 1] == states[i + 1] && more[i] == events[i]; }
    }
  }

  /** Without that hypothesis it can leak: add, remove and add again before the
      first resolution lands, and let the two resolutions find other ports. */
  lemma OrphanExample(svc: ServiceConfig, a: ResolvedPort, b: ResolvedPort)
    returns (states: seq<State>, events: seq<Event>)
    requires ValidService(svc) && svc.IsMultiPort() && svc.parentName == ""
    requires ChildName(svc, a) != ChildName(svc, b)
    ensures Run(states, events) && !NoOrphans(states[|events|])
  {
    ReAdding(svc);
    FirstResolution(svc, a);
    SecondResolution(svc, a, b);
    states, events := [EMPTY], [];
    ExtendRun(states, events, Add(svc));
    states, events := states + [Next(EMPTY, Add(svc))], events + [Add(svc)];
    ExtendRun(states, events, RemoveBegin(svc.name));
    states, events := states + [Next(states[1], RemoveBegin(svc.name))], events + [RemoveBegin(svc.name)];
    ExtendRun(states, events, Add(svc));
    states, events := states + [Next(states[2], Add(svc))], events + [Add(svc)];
    ExtendRun(states, events, ResolveOk(svc, [a]));
    states, events := states + [Next(states[3], ResolveOk(svc, [a]))], events + [ResolveOk(svc, [a])];
    ExtendRun(states, events, ResolveOk(svc, [b]));
    states, events := states + [Next(states[4], ResolveOk(svc, [b]))], events + [ResolveOk(svc, [b])];
    LostChild(svc, a, b);
  }

  lemma LostChild(svc: ServiceConfig, a: ResolvedPort, b: ResolvedPort)
    requires ValidService(svc) && ChildName(svc, a) != ChildName(svc, b)
    ensures var x, y := ChildName(svc, a), ChildName(svc, b);
            var f := Forward(0, ChildService(svc, a), svc.sourceConfig, Starting, 0);
            var g := Forward(1, ChildService(svc, b), svc.sourceConfig, Starting, 0);
            !NoOrphans(State(map[x := f, y := g], [x, y], map[svc.name := [y]], multiset{}, [], 2))
  {
    var x, y := ChildName(svc, a), ChildName(svc, b);
    var f := Forward(0, ChildService(svc, a), svc.sourceConfig, Starting, 0);
    var g := Forward(1, ChildService(svc, b), svc.sourceConfig, Starting, 0);
    var st := State(map[x := f, y := g], [x, y], map[svc.name := [y]], multiset{}, [], 2);
    assert x in st.forwards && st.forwards[x] == f && Parent(f) == svc.name;
    assert !Tracked(st, x, svc.name);
  }

  lemma ReAdding(svc: ServiceConfig)
    requires ValidService(svc) && svc.IsMultiPort() && svc.parentName == ""
    ensures var s1 := State(map[], [], map[svc.name := []], multiset{svc}, [], 0);
            var s2 := State(map[], [], map[], multiset{svc}, [], 0);
            && Next(EMPTY, Add(svc)) == s1
            && Next(s1, RemoveBegin(svc.name)) == s2
            && Next(s2, Add(svc)) == State(map[], [], map[svc.name := []], multiset{svc, svc}, [], 0)
  {
    var one: map<string, seq<string>> := map[svc.name := []];
    assert one - {svc.name} == map[];
  }

  lemma FirstResolution(svc: ServiceConfig, a: ResolvedPort)
    ensures var x := ChildName(svc, a);
            var f := Forward(0, ChildService(svc, a), svc.sourceConfig, Starting, 0);
            var s3 := State(map[], [], map[svc.name := []], multiset{svc, svc}, [], 0);
            Next(s3, ResolveOk(svc, [a])) == State(map[x := f], [x], map[svc.name := [x]], multiset{svc}, [], 1)
  {
    OneChild(State(map[], [], map[svc.name := []], multiset{svc, svc}, [], 0), svc, a);
    assert multiset{svc, svc} - multiset{svc} == multiset{svc};
  }

  lemma SecondResolution(svc: ServiceConfig, a: ResolvedPort, b: ResolvedPort)
    requires ChildName(svc, a) != ChildName(svc, b)
    ensures var x, y := ChildName(svc, a), ChildName(svc, b);
            var f := Forward(0, ChildService(svc, a), svc.sourceConfig, Starting, 0);
            var g := Forward(1, ChildService(svc, b), svc.sourceConfig, Starting, 0);
            var s4 := State(map[x := f], [x], map[svc.name := [x]], multiset{svc}, [], 1);
            Next(s4, ResolveOk(svc, [b])) == State(map[x := f, y := g], [x, y], map[svc.name := [y]], multiset{}, [], 2)
  {
    var x := ChildName(svc, a);
    var f := Forward(0, ChildService(svc, a), svc.sourceConfig, Starting, 0);
    OneChild(State(map[x := f], [x], map[svc.name := [x]], multiset{svc}, [], 1), svc, b);
    assert multiset{svc} - multiset{svc} == multiset{};
  }

  lemma OneChild(st: State, svc: ServiceConfig, port: ResolvedPort)
    requires svc.name in st.children
    ensures Resolved(st, svc, [port])
         == RegisterOne(st.(pending := st.pending - multiset{svc}), svc, port).(
              children := st.children[svc.name := [ChildName(svc, port)]])
  {
    var st' := st.(pending := st.pending - multiset{svc});
    assert [port][..0] == [];
    assert Register(st', svc, [port]) == RegisterOne(Register(st', svc, [port][..0]), svc, port);
    assert ChildNames(svc, [port]) == [ChildName(svc, port)];
  }
}
