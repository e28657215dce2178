// From running forwards to the table of addresses a client translates with,
// and back: the DNS names generated for each forward, the table they are
// flattened into, and the lookup with its fuzzy fallbacks.
module Address {
  import opened Wrappers
  import opened Text
  import opened ConfigTypes

  datatype ForwardState = Starting | Running | Failed | Stopped | Waiting

  /** A forward as the manager keeps it. id is its identity: no two forwards
      that were ever created have the same one. */
  datatype Forward = Forward(id: nat, svc: ServiceConfig, sourceConfig: string, state: ForwardState, actualPort: int)

  /** The local port in use, or else the configured one. */
  function LocalPort(f: Forward): int { if f.actualPort == 0 then f.svc.localPort else f.actualPort }

  // ---------------------------------------------------------------------
  // Mappings
  // ---------------------------------------------------------------------

  datatype AddressMapping = AddressMapping(internalAddr: string, localAddr: string, serviceName: string)

  datatype Entry = Entry(name: string, forward: Forward)

  /** The settings that decide the names: cluster domain and default namespace. */
  datatype Naming = Naming(domain: string, namespace: string)

  predicate Serves(e: Entry) {
    e.forward.state == Running && LocalPort(e.forward) > 0 && e.forward.svc.Target() != ""
  }

  function Namespace(e: Entry, n: Naming): string {
    if e.forward.svc.namespace == "" then n.namespace else e.forward.svc.namespace
  }

  function LocalAddr(e: Entry): string { "localhost:" + Itoa(LocalPort(e.forward)) }

  function DnsNames(e: Entry, n: Naming): seq<string> {
    var target, ns := e.forward.svc.Target(), Namespace(e, n);
    if e.forward.svc.service != "" then
      [target, target + "." + ns, target + "." + ns + ".svc", target + "." + ns + ".svc." + n.domain]
    else
      [target, target + "." + ns]
  }

  function RowsFor(e: Entry, n: Naming, names: seq<string>): seq<AddressMapping> {
    if names == [] then []
    else RowsFor(e, n, names[..|names| - 1])
         + [AddressMapping(names[|names| - 1] + ":" + Itoa(e.forward.svc.remotePort), LocalAddr(e), e.name)]
  }

  function EntryRows(e: Entry, n: Naming): seq<AddressMapping> {
    if Serves(e) then RowsFor(e, n, DnsNames(e, n)) else []
  }

  function Rows(entries: seq<Entry>, n: Naming): seq<AddressMapping> {
    if entries == [] then []
    else Rows(entries[..|entries| - 1], n) + EntryRows(entries[|entries| - 1], n)
  }

  /** The table of a response: a later row replaces an earlier one. */
  function Flattened(rows: seq<AddressMapping>): map<string, string> {
    if rows == [] then map[]
    else Flattened(rows[..|rows| - 1])[rows[|rows| - 1].internalAddr := rows[|rows| - 1].localAddr]
  }

  /** The loop that builds that table. */
  method Flatten(rows: seq<AddressMapping>) returns (addrs: map<string, string>)
    ensures addrs == Flattened(rows)
  {
    addrs := map[];
    for i := 0 to |rows|
      invariant addrs == Flattened(rows[..i])
    {
      assert rows[..i + 1][..i] == rows[..i];
      addrs := addrs[rows[i].internalAddr := rows[i].localAddr];
    }
    assert rows[..|rows|] == rows;
  }

  function Table(entries: seq<Entry>, n: Naming): map<string, string> {
    Flattened(Rows(entries, n))
  }

  // ---------------------------------------------------------------------
  // Lookup
  // ---------------------------------------------------------------------

  /** The namespace in what follows the pod of a headless service name. */
  function ExtractNamespace(rest: string): string {
    var c := Cut(rest, '.');
    if !c.found then "" else Cut(c.after, '.').before
  }

  function Resolve(addrs: map<string, string>, addr: string, fuzzy: bool): string {
    if addr in addrs then addrs[addr]
    else
      match SplitHostPort(addr)
      case BadAddress => addr
      case HostPort(host, port) =>
        if host in addrs then JoinHostPort(addrs[host], port)
        else if !fuzzy then addr
        else
          var c := Cut(host, '.');
          if !c.found then addr
          else
            var ns := ExtractNamespace(c.after);
            if ns != "" && JoinHostPort(c.before + "." + ns, port) in addrs then
              addrs[JoinHostPort(c.before + "." + ns, port)]
            else if JoinHostPort(c.before, port) in addrs then addrs[JoinHostPort(c.before, port)]
            else addr
  }

  // ---------------------------------------------------------------------
  // Who owns a key of the table
  // ---------------------------------------------------------------------

  ghost predicate HasKey(e: Entry, n: Naming, key: string) {
    Serves(e)
    && exists i :: 0 <= i < |DnsNames(e, n)| && key == DnsNames(e, n)[i] + ":" + Itoa(e.forward.svc.remotePort)
  }

  /** The last entry in order that generates this key. */
  ghost function Owner(entries: seq<Entry>, n: Naming, key: string): Option<Entry> {
    if entries == [] then None
    else if HasKey(entries[|entries| - 1], n, key) then Some(entries[|entries| - 1])
    else Owner(entries[..|entries| - 1], n, key)
  }

  lemma {:induction false} FlattenedAppend(a: seq<AddressMapping>, b: seq<AddressMapping>)
    ensures Flattened(a + b) == Flattened(a) + Flattened(b)
  {
    if b == [] {
      assert a + b == a;
    } else {
      assert (a + b)[..|a + b| - 1] == a + b[..|b| - 1];
      FlattenedAppend(a, b[..|b| - 1]);
    }
  }

  lemma {:induction false} FlattenedRowsFor(e: Entry, n: Naming, names: seq<string>, key: string)
    ensures key in Flattened(RowsFor(e, n, names))
       <==> exists i :: 0 <= i < |names| && key == names[i] + ":" + Itoa(e.forward.svc.remotePort)
    ensures key in Flattened(RowsFor(e, n, names)) ==> Flattened(RowsFor(e, n, names))[key] == LocalAddr(e)
  {
    if names != [] {
      var init, last := names[..|names| - 1], names[|names| - 1];
      FlattenedRowsFor(e, n, init, key);
      var rows := RowsFor(e, n, names);
      assert rows[..|rows| - 1] == RowsFor(e, n, init);
      assert forall i | 0 <= i < |init| :: init[i] == names[i];
      assert key == last + ":" + Itoa(e.forward.svc.remotePort) ==> names[|names| - 1] == last;
    }
  }

  /** The table maps a key to the local address of its owner. */
  lemma {:induction false} TableLookup(entries: seq<Entry>, n: Naming, key: string)
    ensures key in Table(entries, n) <==> Owner(entries, n, key).Some?
    ensures key in Table(entries, n) ==> Table(entries, n)[key] == LocalAddr(Owner(entries, n, key).value)
  {
    if entries != [] {
      var init, last := entries[..|entries| - 1], entries[|entries| - 1];
      TableLookup(init, n, key);
      FlattenedAppend(Rows(init, n), EntryRows(last, n));
      FlattenedRowsFor(last, n, DnsNames(last, n), key);
    }
  }

  // ---------------------------------------------------------------------
  // Names of labels
  // ---------------------------------------------------------------------

  ghost predicate Label(s: string) { s != "" && '.' !in s && Plain(s) }

  /** Targets and namespaces of serving entries are DNS labels, ports are not
      negative, and the cluster domain contains no colon or bracket. */
  ghost predicate WellNamed(entries: seq<Entry>, n: Naming) {
    && Plain(n.domain) && n.domain != ""
    && forall i | 0 <= i < |entries| && Serves(entries[i]) ::
         && Label(entries[i].forward.svc.Target())
         && Label(Namespace(entries[i], n))
         && entries[i].forward.svc.remotePort >= 0
  }

  ghost predicate IsFor(e: Entry, target: string, port: nat) {
    Serves(e) && e.forward.svc.Target() == target && e.forward.svc.remotePort == port
  }

  /** Splitting name:port, when neither side has a colon. */
  lemma SameKey(a: string, p: nat, b: string, q: nat)
    requires ':' !in a && ':' !in b
    ensures a + ":" + Decimal(p) == b + ":" + Decimal(q) <==> a == b && p == q
  {
    if a + ":" + Decimal(p) == b + ":" + Decimal(q) {
      FirstSeparator(a, Decimal(p), b, Decimal(q), ':');
      DecimalInjective(p, q);
    }
  }

  /** Splitting label.rest. */
  lemma SameDotted(a: string, x: string, b: string, y: string)
    requires '.' !in a && '.' !in b
    ensures a + "." + x == b + "." + y <==> a == b && x == y
  {
    if a + "." + x == b + "." + y { FirstSeparator(a, x, b, y, '.'); }
  }

  ghost predicate Named(e: Entry, n: Naming) {
    Serves(e) && Label(e.forward.svc.Target()) && Label(Namespace(e, n))
    && e.forward.svc.remotePort >= 0 && Plain(n.domain) && n.domain != ""
  }

  lemma KeyMatchesName(e: Entry, n: Naming, name: string, port: nat)
    requires Named(e, n) && ':' !in name
    ensures HasKey(e, n, name + ":" + Decimal(port)) <==> name in DnsNames(e, n) && e.forward.svc.remotePort == port
  {
    var names, p := DnsNames(e, n), e.forward.svc.remotePort;
    forall i | 0 <= i < |names|
      ensures name + ":" + Decimal(port) == names[i] + ":" + Itoa(p) <==> name == names[i] && p == port
    {
      NamesHaveNoColon(e, n, i);
      SameKey(name, port, names[i], p);
    }
  }

  lemma NamesHaveNoColon(e: Entry, n: Naming, i: nat)
    requires Named(e, n) && i < |DnsNames(e, n)|
    ensures ':' !in DnsNames(e, n)[i]
  {}

  /** The four names of an entry, told apart by what follows the first labels. */
  lemma NamesOf(e: Entry, n: Naming, target: string, ns: string)
    requires Named(e, n) && Label(target) && Label(ns)
    ensures target in DnsNames(e, n) <==> target == e.forward.svc.Target()
    ensures target + "." + ns in DnsNames(e, n) <==> target == e.forward.svc.Target() && ns == Namespace(e, n)
  {
    var t, s := e.forward.svc.Target(), Namespace(e, n);
    assert t + "." + s + ".svc" == t + "." + (s + ".svc");
    assert t + "." + s + ".svc." + n.domain == t + "." + (s + "." + ("svc." + n.domain));
    assert (s + ".svc")[|s|] == '.' && (s + "." + ("svc." + n.domain))[|s|] == '.';
    assert forall x: string :: (t + "." + x)[|t|] == '.';
    SameDotted(target, ns, t, s);
    SameDotted(target, ns, t, s + ".svc");
    SameDotted(target, ns, t, s + "." + ("svc." + n.domain));
    assert (target + "." + ns)[|target|] == '.';
    assert DnsNames(e, n)[0] == t && DnsNames(e, n)[1] == t + "." + s;
  }

  /** No entry has the name of a pod behind a headless service. */
  lemma NoHeadlessName(e: Entry, n: Naming, pod: string, headless: string, ns: string, domain: string)
    requires Named(e, n) && Label(pod) && Label(headless) && Label(ns)
    requires n.domain != "svc." + domain
    ensures pod + "." + headless + "." + ns + ".svc." + domain !in DnsNames(e, n)
  {
    var t, s := e.forward.svc.Target(), Namespace(e, n);
    var tail := ns + "." + ("svc." + domain);
    var rest := headless + "." + tail;
    assert pod + "." + headless + "." + ns + ".svc." + domain == pod + "." + rest;
    assert (pod + "." + rest)[|pod|] == '.' && rest[|headless|] == '.' && tail[|ns|] == '.';
    assert t + "." + s + ".svc" == t + "." + (s + "." + "svc");
    assert t + "." + s + ".svc." + n.domain == t + "." + (s + "." + ("svc" + "." + n.domain));
    SameDotted(pod, rest, t, s);
    SameDotted(pod, rest, t, s + "." + "svc");
    SameDotted(pod, rest, t, s + "." + ("svc" + "." + n.domain));
    SameDotted(headless, tail, s, "svc");
    SameDotted(headless, tail, s, "svc" + "." + n.domain);
    SameDotted(ns, "svc." + domain, "svc", n.domain);
  }

  // ---------------------------------------------------------------------
  // Owners by target and namespace
  // ---------------------------------------------------------------------

  /** The last entry that serves this target and port, in this namespace if
      one is given. */
  ghost function LastFor(entries: seq<Entry>, n: Naming, target: string, ns: Option<string>, port: nat): Option<Entry> {
    if entries == [] then None
    else
      var e := entries[|entries| - 1];
      if IsFor(e, target, port) && (ns.Some? ==> Namespace(e, n) == ns.value) then Some(e)
      else LastFor(entries[..|entries| - 1], n, target, ns, port)
  }

  lemma {:induction false} OwnerIsLastFor(entries: seq<Entry>, n: Naming, target: string, ns: Option<string>, port: nat)
    requires WellNamed(entries, n) && Label(target) && (ns.Some? ==> Label(ns.value))
    ensures Owner(entries, n, (if ns.Some? then target + "." + ns.value else target) + ":" + Decimal(port))
         == LastFor(entries, n, target, ns, port)
  {
    if entries != [] {
      var e := entries[|entries| - 1];
      var name := if ns.Some? then target + "." + ns.value else target;
      OwnerIsLastFor(entries[..|entries| - 1], n, target, ns, port);
      if Serves(e) {
        assert Named(e, n);
        KeyMatchesName(e, n, name, port);
        NamesOf(e, n, target, if ns.Some? then ns.value else target);
      }
    }
  }

  lemma {:induction false} NoHeadlessOwner(entries: seq<Entry>, n: Naming, pod: string, headless: string, ns: string,
                                           domain: string, port: nat)
    requires WellNamed(entries, n) && Label(pod) && Label(headless) && Label(ns) && Plain(domain)
    requires n.domain != "svc." + domain
    ensures Owner(entries, n, pod + "." + headless + "." + ns + ".svc." + domain + ":" + Decimal(port)) == None
  {
    if entries != [] {
      var e := entries[|entries| - 1];
      var name := pod + "." + headless + "." + ns + ".svc." + domain;
      NoHeadlessOwner(entries[..|entries| - 1], n, pod, headless, ns, domain, port);
      if Serves(e) {
        assert Named(e, n);
        KeyMatchesName(e, n, name, port);
        NoHeadlessName(e, n, pod, headless, ns, domain);
      }
    }
  }

  lemma {:induction false} NoHostOnlyOwner(entries: seq<Entry>, n: Naming, host: string)
    requires ':' !in host
    ensures Owner(entries, n, host) == None
  {
    if entries != [] {
      NoHostOnlyOwner(entries[..|entries| - 1], n, host);
      var e := entries[|entries| - 1];
      forall i | 0 <= i < |DnsNames(e, n)|
        ensures host != DnsNames(e, n)[i] + ":" + Itoa(e.forward.svc.remotePort)
      {
        var key := DnsNames(e, n)[i] + ":" + Itoa(e.forward.svc.remotePort);
        assert key[|DnsNames(e, n)[i]|] == ':';
      }
    }
  }

  // ---------------------------------------------------------------------
  // Translation of a pod's name
  // ---------------------------------------------------------------------

  function PodFqdn(pod: string, headless: string, ns: string, domain: string): string {
    pod + "." + headless + "." + ns + ".svc." + domain
  }

  /** The lookup reads the first and the third label. */
  lemma ThirdLabel(a: string, b: string, c: string, d: string)
    requires '.' !in a && '.' !in b && '.' !in c
    ensures var parts := Cut(a + "." + (b + "." + (c + "." + d)), '.');
            parts.found && parts.before == a && ExtractNamespace(parts.after) == c
  {
    CutAt(a, b + "." + (c + "." + d), '.');
    CutAt(b, c + "." + d, '.');
    CutAt(c, d, '.');
  }

  lemma FqdnInLabels(pod: string, headless: string, ns: string, domain: string)
    ensures PodFqdn(pod, headless, ns, domain) == pod + "." + (headless + "." + (ns + "." + ("svc." + domain)))
  {}

  lemma HeadlessNameParts(pod: string, headless: string, ns: string, domain: string)
    requires Label(pod) && Label(headless) && Label(ns)
    ensures var c := Cut(PodFqdn(pod, headless, ns, domain), '.');
            c.found && c.before == pod && ExtractNamespace(c.after) == ns
  {
    FqdnInLabels(pod, headless, ns, domain);
    ThirdLabel(pod, headless, ns, "svc." + domain);
  }

  /** Both fallbacks of the fuzzy lookup, tried in turn. */
  ghost function Fallback(entries: seq<Entry>, n: Naming, pod: string, ns: string, port: nat, addr: string): string {
    var own, any := LastFor(entries, n, pod, Some(ns), port), LastFor(entries, n, pod, None, port);
    if own.Some? then LocalAddr(own.value) else if any.Some? then LocalAddr(any.value) else addr
  }

  lemma OwnerOfShort(entries: seq<Entry>, n: Naming, pod: string, ns: Option<string>, port: nat)
    requires WellNamed(entries, n) && Label(pod) && (ns.Some? ==> Label(ns.value))
    ensures var name := if ns.Some? then pod + "." + ns.value else pod;
            var addr := JoinHostPort(name, Decimal(port));
            && (addr in Table(entries, n) <==> LastFor(entries, n, pod, ns, port).Some?)
            && (addr in Table(entries, n) ==>
                  Table(entries, n)[addr] == LocalAddr(LastFor(entries, n, pod, ns, port).value))
  {
    var name := if ns.Some? then pod + "." + ns.value else pod;
    TableLookup(entries, n, name + ":" + Decimal(port));
    OwnerIsLastFor(entries, n, pod, ns, port);
  }

  /** The fuzzy lookup of an address nobody owns, whose first label is pod and
      whose third is ns. */
  lemma FuzzyTranslation(entries: seq<Entry>, n: Naming, host: string, pod: string, ns: string, port: nat)
    requires WellNamed(entries, n) && Label(pod) && Label(ns) && Plain(host)
    requires Cut(host, '.').found && Cut(host, '.').before == pod && ExtractNamespace(Cut(host, '.').after) == ns
    requires Owner(entries, n, host + ":" + Decimal(port)) == None
    ensures var addr := host + ":" + Decimal(port);
            && Resolve(Table(entries, n), addr, true) == Fallback(entries, n, pod, ns, port, addr)
            && Resolve(Table(entries, n), addr, false) == addr
  {
    DecimalIsPlain(port);
    SplitPlain(host, Decimal(port));
    TableLookup(entries, n, host + ":" + Decimal(port));
    TableLookup(entries, n, host);
    NoHostOnlyOwner(entries, n, host);
    OwnerOfShort(entries, n, pod, Some(ns), port);
    OwnerOfShort(entries, n, pod, None, port);
  }

  /** What the fuzzy lookup makes of a pod's name behind a headless service:
      the forward for that pod, namespace and port if there is one; failing
      that the last forward for that pod and port in any namespace; failing
      that the address itself. Without fuzzy matching, always the address. */
  lemma HeadlessTranslation(entries: seq<Entry>, n: Naming, pod: string, headless: string, ns: string,
                            domain: string, port: nat)
    requires WellNamed(entries, n) && Label(pod) && Label(headless) && Label(ns) && Plain(domain)
    requires n.domain != "svc." + domain
    ensures var addr := PodFqdn(pod, headless, ns, domain) + ":" + Decimal(port);
            && Resolve(Table(entries, n), addr, true) == Fallback(entries, n, pod, ns, port, addr)
            && Resolve(Table(entries, n), addr, false) == addr
  {
    PlainFqdn(pod, headless, ns, domain);
    HeadlessNameParts(pod, headless, ns, domain);
    NoHeadlessOwner(entries, n, pod, headless, ns, domain, port);
    FuzzyTranslation(entries, n, PodFqdn(pod, headless, ns, domain), pod, ns, port);
  }

  lemma PlainFqdn(pod: string, headless: string, ns: string, domain: string)
    requires Plain(pod) && Plain(headless) && Plain(ns) && Plain(domain)
    ensures Plain(PodFqdn(pod, headless, ns, domain))
  {}

  /** No two serving entries are for the same target, namespace and port. */
  ghost predicate DistinctTriples(entries: seq<Entry>, n: Naming) {
    forall i, j | 0 <= i < j < |entries| && Serves(entries[i]) && Serves(entries[j]) ::
      !(&& entries[i].forward.svc.Target() == entries[j].forward.svc.Target()
        && Namespace(entries[i], n) == Namespace(entries[j], n)
        && entries[i].forward.svc.remotePort == entries[j].forward.svc.remotePort)
  }

  lemma {:induction false} OwnEntryIsLast(entries: seq<Entry>, n: Naming, i: nat)
    requires WellNamed(entries, n) && DistinctTriples(entries, n) && i < |entries| && Serves(entries[i])
    ensures var svc := entries[i].forward.svc;
            LastFor(entries, n, svc.Target(), Some(Namespace(entries[i], n)), svc.remotePort) == Some(entries[i])
  {
    if i < |entries| - 1 {
      OwnEntryIsLast(entries[..|entries| - 1], n, i);
    }
  }

  /** End to end: every serving forward is reached by the full name of its pod
      behind any headless service, at its own local port, whatever else is
      forwarded under the same pod name and port in other namespaces. */
  lemma PodReachesItsOwnPort(entries: seq<Entry>, n: Naming, i: nat, headless: string, domain: string)
    requires WellNamed(entries, n) && DistinctTriples(entries, n) && i < |entries| && Serves(entries[i])
    requires Label(headless) && Plain(domain) && n.domain != "svc." + domain
    ensures var svc := entries[i].forward.svc;
            var fqdn := PodFqdn(svc.Target(), headless, Namespace(entries[i], n), domain);
            var addr := fqdn + ":" + Decimal(svc.remotePort);
            Resolve(Table(entries, n), addr, true) == "localhost:" + Itoa(LocalPort(entries[i].forward))
  {
    var svc := entries[i].forward.svc;
    OwnEntryIsLast(entries, n, i);
    HeadlessTranslation(entries, n, svc.Target(), headless, Namespace(entries[i], n), domain, svc.remotePort);
  }

  /** A short name is ambiguous: it reaches the last forward in order. */
  lemma ShortNameReachesLast(entries: seq<Entry>, n: Naming, target: string, port: nat, fuzzy: bool)
    requires WellNamed(entries, n) && Label(target)
    ensures var addr := target + ":" + Decimal(port);
            var last := LastFor(entries, n, target, None, port);
            Resolve(Table(entries, n), addr, fuzzy) == if last.Some? then LocalAddr(last.value) else addr
  {
    var p := Decimal(port);
    DecimalIsPlain(port);
    TableLookup(entries, n, target + ":" + p);
    OwnerIsLastFor(entries, n, target, None, port);
    SplitPlain(target, p);
    TableLookup(entries, n, target);
    NoHostOnlyOwner(entries, n, target);
  }

  /** Where a label ends that is followed by nothing, or by a dot and more. */
  lemma LabelEnds(s: string, x: string)
    requires '.' !in s && (x == "" || x[0] == '.')
    ensures (s + x)[..|s|] == s && (|s + x| == |s| || (s + x)[|s|] == '.')
    ensures forall i | 0 <= i < |s| :: (s + x)[i] != '.'
  {}

  lemma SameLabel(s: string, x: string, v: string, y: string)
    requires '.' !in s && '.' !in v && (x == "" || x[0] == '.') && (y == "" || y[0] == '.') && s + x == v + y
    ensures s == v
  {
    LabelEnds(s, x);
    LabelEnds(v, y);
    assert |s| == |v|;
  }

  /** The names of an entry after its first, but for target and namespace. */
  function Suffix(n: Naming, j: nat): string
    requires 1 <= j < 4
  {
    if j == 1 then "" else if j == 2 then ".svc" else ".svc." + n.domain
  }

  lemma NamesInParts(e: Entry, n: Naming, j: nat)
    requires 1 <= j < |DnsNames(e, n)|
    ensures DnsNames(e, n)[j] == e.forward.svc.Target() + "." + (Namespace(e, n) + Suffix(n, j))
  {
    var t, s := e.forward.svc.Target(), Namespace(e, n);
    assert t + "." + s + ".svc" == t + "." + (s + ".svc");
    assert t + "." + s + ".svc." + n.domain == t + "." + (s + (".svc." + n.domain));
    assert s + "" == s;
  }

  /** A name with a namespace names one target and one namespace. */
  lemma NamesTellNamespace(e: Entry, n: Naming, target: string, ns: string, x: string)
    requires Named(e, n) && Label(target) && Label(ns) && (x == "" || x[0] == '.')
    requires target + "." + (ns + x) in DnsNames(e, n)
    ensures target == e.forward.svc.Target() && ns == Namespace(e, n)
  {
    var name := target + "." + (ns + x);
    var j: nat :| j < |DnsNames(e, n)| && DnsNames(e, n)[j] == name;
    assert name[|target|] == '.';
    if j > 0 {
      NamesInParts(e, n, j);
      SameDotted(target, ns + x, e.forward.svc.Target(), Namespace(e, n) + Suffix(n, j));
      SameLabel(ns, x, Namespace(e, n), Suffix(n, j));
    }
  }

  /** A name with a namespace is owned by the forward it was generated for. */
  lemma {:induction false} NameOwner(entries: seq<Entry>, n: Naming, i: nat, j: nat)
    requires WellNamed(entries, n) && DistinctTriples(entries, n) && i < |entries| && Serves(entries[i])
    requires 1 <= j < |DnsNames(entries[i], n)|
    ensures Owner(entries, n, DnsNames(entries[i], n)[j] + ":" + Decimal(entries[i].forward.svc.remotePort))
         == Some(entries[i])
  {
    var own, e := entries[i], entries[|entries| - 1];
    var t, s, p := own.forward.svc.Target(), Namespace(own, n), own.forward.svc.remotePort;
    var name := DnsNames(own, n)[j];
    assert Named(own, n);
    NamesHaveNoColon(own, n, j);
    if i == |entries| - 1 {
      KeyMatchesName(own, n, name, p);
    } else {
      NameOwner(entries[..|entries| - 1], n, i, j);
      if Serves(e) && HasKey(e, n, name + ":" + Decimal(p)) {
        assert Named(e, n);
        KeyMatchesName(e, n, name, p);
        NamesInParts(own, n, j);
        NamesTellNamespace(e, n, t, s, Suffix(n, j));
      }
    }
  }

  /** Every name of a forward that carries its namespace reaches that forward's
      own port, and needs no fuzzy matching. */
  lemma NameReachesItsOwnPort(entries: seq<Entry>, n: Naming, i: nat, j: nat, fuzzy: bool)
    requires WellNamed(entries, n) && DistinctTriples(entries, n) && i < |entries| && Serves(entries[i])
    requires 1 <= j < |DnsNames(entries[i], n)|
    ensures var addr := DnsNames(entries[i], n)[j] + ":" + Decimal(entries[i].forward.svc.remotePort);
            Resolve(Table(entries, n), addr, fuzzy) == "localhost:" + Itoa(LocalPort(entries[i].forward))
  {
    NameOwner(entries, n, i, j);
    TableLookup(entries, n, DnsNames(entries[i], n)[j] + ":" + Decimal(entries[i].forward.svc.remotePort));
  }

  // ---------------------------------------------------------------------
  // The mappings, written out
  // ---------------------------------------------------------------------

  /** Connected, on a port, for a service or a pod. */
  ghost predicate IsUp(f: Forward) {
    && f.state == Running
    && (f.actualPort > 0 || (f.actualPort == 0 && f.svc.localPort > 0))
    && (f.svc.service != "" || f.svc.pod != "")
  }

  /** The forward is for this target, namespace and remote port, and listens on
      this local port: the one it was given, or else the one it asked for. */
  ghost predicate IsForward(f: Forward, n: Naming, target: string, ns: string, remote: int, local: int) {
    && target == (if f.svc.service != "" then f.svc.service else f.svc.pod)
    && ns == (if f.svc.namespace != "" then f.svc.namespace else n.namespace)
    && remote == f.svc.remotePort
    && local == (if f.actualPort != 0 then f.actualPort else f.svc.localPort)
  }

  lemma UpServes(e: Entry, n: Naming, target: string, ns: string, remote: int, local: int)
    requires IsForward(e.forward, n, target, ns, remote, local)
    ensures Serves(e) <==> IsUp(e.forward)
    ensures target == e.forward.svc.Target() && ns == Namespace(e, n)
    ensures remote == e.forward.svc.remotePort && local == LocalPort(e.forward)
  {}

  /** A forward that is up has these rows, and any other one none. */
  lemma RowsWrittenOut(e: Entry, n: Naming, target: string, ns: string, remote: int, local: int)
    requires IsForward(e.forward, n, target, ns, remote, local)
    ensures var row := (name: string) => AddressMapping(name + ":" + Itoa(remote), "localhost:" + Itoa(local), e.name);
            EntryRows(e, n) ==
            if !IsUp(e.forward) then []
            else if e.forward.svc.service != "" then
              [row(target), row(target + "." + ns), row(target + "." + ns + ".svc"),
               row(target + "." + ns + ".svc." + n.domain)]
            else [row(target), row(target + "." + ns)]
  {
    UpServes(e, n, target, ns, remote, local);
    if IsUp(e.forward) {
      var names := DnsNames(e, n);
      RowsOneByOne(e, n, names);
      RowsOneByOne(e, n, names[..1]);
      if |names| == 4 {
        RowsOneByOne(e, n, names[..3]);
        RowsOneByOne(e, n, names[..2]);
        assert names[..3][..2] == names[..2];
      }
      assert names[..2][..1] == names[..1] && names[..1][..0] == [];
    }
  }

  lemma RowsOneByOne(e: Entry, n: Naming, names: seq<string>)
    requires names != []
    ensures RowsFor(e, n, names) == RowsFor(e, n, names[..|names| - 1])
              + [AddressMapping(names[|names| - 1] + ":" + Itoa(e.forward.svc.remotePort),
                                "localhost:" + Itoa(LocalPort(e.forward)), e.name)]
  {}

  lemma {:induction false} RowsAreOfEntries(entries: seq<Entry>, n: Naming, m: AddressMapping)
    ensures m in Rows(entries, n) <==> exists e :: e in entries && m in EntryRows(e, n)
  {
    if entries != [] {
      var init, last := entries[..|entries| - 1], entries[|entries| - 1];
      RowsAreOfEntries(init, n, m);
      assert m in Rows(entries, n) <==> m in Rows(init, n) || m in EntryRows(last, n);
      assert forall e :: e in entries <==> e in init || e == last;
    }
  }

  /** A row is in the list exactly when it is one of the names of a forward that
      is up, with its ports. */
  lemma RowIff(entries: seq<Entry>, n: Naming, m: AddressMapping)
    ensures m in Rows(entries, n) <==>
            exists e, t, ns, r, p :: e in entries && IsUp(e.forward) && IsForward(e.forward, n, t, ns, r, p)
                                     && IsRow(m, e, n, t, ns, r, p)
  {
    RowsAreOfEntries(entries, n, m);
    forall e ensures m in EntryRows(e, n) <==>
                     exists t, ns, r, p :: IsUp(e.forward) && IsForward(e.forward, n, t, ns, r, p)
                                           && IsRow(m, e, n, t, ns, r, p)
    {
      EntryRowIff(e, n, m);
    }
  }

  /** The names of a service are four, those of a pod the first two. */
  ghost predicate IsRow(m: AddressMapping, e: Entry, n: Naming, t: string, ns: string, r: int, p: int) {
    && m.serviceName == e.name && m.localAddr == "localhost:" + Itoa(p)
    && (|| m.internalAddr == t + ":" + Itoa(r)
        || m.internalAddr == t + "." + ns + ":" + Itoa(r)
        || (e.forward.svc.service != "" && m.internalAddr == t + "." + ns + ".svc" + ":" + Itoa(r))
        || (e.forward.svc.service != "" && m.internalAddr == t + "." + ns + ".svc." + n.domain + ":" + Itoa(r)))
  }

  lemma EntryRowIff(e: Entry, n: Naming, m: AddressMapping)
    ensures m in EntryRows(e, n) <==>
            exists t, ns, r, p :: IsUp(e.forward) && IsForward(e.forward, n, t, ns, r, p) && IsRow(m, e, n, t, ns, r, p)
  {
    var t, ns, r, p := e.forward.svc.Target(), Namespace(e, n), e.forward.svc.remotePort, LocalPort(e.forward);
    assert IsForward(e.forward, n, t, ns, r, p);
    RowsWrittenOut(e, n, t, ns, r, p);
    assert m == AddressMapping(m.internalAddr, m.localAddr, m.serviceName);
  }

  /** Targets and namespaces of the forwards that are up are DNS labels, and no
      two of them are for the same target, namespace and remote port. */
  ghost predicate UpAreDistinct(entries: seq<Entry>, n: Naming) {
    && Plain(n.domain) && n.domain != ""
    && (forall i, t, ns, r, p | 0 <= i < |entries| && IsUp(entries[i].forward)
                                && IsForward(entries[i].forward, n, t, ns, r, p) ::
          Label(t) && Label(ns) && r >= 0)
    && (forall i, j, t, ns, r, p, q | 0 <= i < j < |entries|
                                      && IsUp(entries[i].forward) && IsForward(entries[i].forward, n, t, ns, r, p)
                                      && IsUp(entries[j].forward) ::
          !IsForward(entries[j].forward, n, t, ns, r, q))
  }

  lemma DistinctUpIsWellNamed(entries: seq<Entry>, n: Naming)
    requires UpAreDistinct(entries, n)
    ensures WellNamed(entries, n) && DistinctTriples(entries, n)
  {
    forall e: Entry
      ensures IsForward(e.forward, n, e.forward.svc.Target(), Namespace(e, n), e.forward.svc.remotePort,
                        LocalPort(e.forward))
      ensures Serves(e) <==> IsUp(e.forward)
    {
      UpServes(e, n, e.forward.svc.Target(), Namespace(e, n), e.forward.svc.remotePort, LocalPort(e.forward));
    }
  }

  /** So every forward that is up is reached, at its own local port, by each of
      its names that gives the namespace, and by its pod's full name behind any
      headless service; whatever else is forwarded, up or not. */
  lemma UpIsReached(entries: seq<Entry>, n: Naming, i: nat, target: string, ns: string, remote: int, local: int)
    requires UpAreDistinct(entries, n) && i < |entries| && IsUp(entries[i].forward)
    requires IsForward(entries[i].forward, n, target, ns, remote, local)
    ensures forall fuzzy ::
              && Resolve(Table(entries, n), target + "." + ns + ":" + Itoa(remote), fuzzy) == "localhost:" + Itoa(local)
              && (entries[i].forward.svc.service != "" ==>
                    && Resolve(Table(entries, n), target + "." + ns + ".svc" + ":" + Itoa(remote), fuzzy)
                       == "localhost:" + Itoa(local)
                    && Resolve(Table(entries, n), target + "." + ns + ".svc." + n.domain + ":" + Itoa(remote), fuzzy)
                       == "localhost:" + Itoa(local))
    ensures forall headless, domain | Label(headless) && Plain(domain) && n.domain != "svc." + domain ::
              && var name := target + "." + headless + "." + ns + ".svc." + domain;
              && Resolve(Table(entries, n), name + ":" + Itoa(remote), true) == "localhost:" + Itoa(local)
  {
    DistinctUpIsWellNamed(entries, n);
    UpServes(entries[i], n, target, ns, remote, local);
    forall fuzzy: bool, j | 1 <= j < |DnsNames(entries[i], n)|
      ensures Resolve(Table(entries, n), DnsNames(entries[i], n)[j] + ":" + Itoa(remote), fuzzy)
           == "localhost:" + Itoa(local)
    {
      NameReachesItsOwnPort(entries, n, i, j, fuzzy);
    }
    var names := DnsNames(entries[i], n);
    assert names[1] == target + "." + ns;
    assert entries[i].forward.svc.service != "" ==>
        names[2] == target + "." + ns + ".svc" && names[3] == target + "." + ns + ".svc." + n.domain;
    forall headless, domain | Label(headless) && Plain(domain) && n.domain != "svc." + domain
      ensures var name := target + "." + headless + "." + ns + ".svc." + domain;
        Resolve(Table(entries, n), name + ":" + Itoa(remote), true) == "localhost:" + Itoa(local)
    {
      PodReachesItsOwnPort(entries, n, i, headless, domain);
    }
  }

  lemma {:induction false} NoNameOwner(entries: seq<Entry>, n: Naming, target: string, ns: string, x: string, port: nat)
    requires WellNamed(entries, n) && Label(target) && Label(ns) && (x == "" || x[0] == '.') && ':' !in x
    requires LastFor(entries, n, target, Some(ns), port) == None
    ensures Owner(entries, n, target + "." + (ns + x) + ":" + Decimal(port)) == None
  {
    if entries != [] {
      var e := entries[|entries| - 1];
      NoNameOwner(entries[..|entries| - 1], n, target, ns, x, port);
      if Serves(e) && HasKey(e, n, target + "." + (ns + x) + ":" + Decimal(port)) {
        assert Named(e, n);
        KeyMatchesName(e, n, target + "." + (ns + x), port);
        NamesTellNamespace(e, n, target, ns, x);
      }
    }
  }

  /** The full name of a service. */
  function ServiceFqdn(target: string, ns: string, domain: string): string {
    target + "." + ns + ".svc." + domain
  }

  lemma ServiceFqdnParts(target: string, ns: string, domain: string)
    ensures ServiceFqdn(target, ns, domain) == target + "." + (ns + (".svc." + domain))
    ensures ServiceFqdn(target, ns, domain) == target + "." + (ns + "." + ("svc" + "." + domain))
  {
    assert ".svc." + domain == "." + ("svc" + "." + domain);
  }

  lemma PlainServiceFqdn(target: string, ns: string, domain: string)
    requires Plain(target) && Plain(ns) && Plain(domain)
    ensures Plain(ServiceFqdn(target, ns, domain))
  {}

  /** The full name of a service that is not forwarded in its namespace does not
      stay unresolved under fuzzy matching: it is read like a pod's, its third
      label as the namespace, and reaches a target of the same name in a
      namespace called svc, or else the last one in any namespace. */
  lemma UnforwardedServiceGoesElsewhere(entries: seq<Entry>, n: Naming, target: string, ns: string, port: nat)
    requires WellNamed(entries, n) && Label(target) && Label(ns)
    requires LastFor(entries, n, target, Some(ns), port) == None
    ensures var addr := ServiceFqdn(target, ns, n.domain) + ":" + Decimal(port);
            && Resolve(Table(entries, n), addr, true) == Fallback(entries, n, target, "svc", port, addr)
            && Resolve(Table(entries, n), addr, false) == addr
  {
    ServiceFqdnParts(target, ns, n.domain);
    PlainServiceFqdn(target, ns, n.domain);
    ThirdLabel(target, ns, "svc", n.domain);
    NoNameOwner(entries, n, target, ns, ".svc." + n.domain, port);
    FuzzyTranslation(entries, n, ServiceFqdn(target, ns, n.domain), target, "svc", port);
  }
}
