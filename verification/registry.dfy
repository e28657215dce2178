// The address table shared by every client of a process, and the resolvers
// that must always show what the table says.
module Registry {
  import opened Wrappers
  import opened Address

  type Addrs = map<string, string>

  // ---------------------------------------------------------------------
  // The table as a value
  // ---------------------------------------------------------------------

  /** remove: entries that still have the value given for them. */
  function Without(table: Addrs, addrs: Addrs): Addrs {
    map k | k in table && !(k in addrs && table[k] == addrs[k]) :: table[k]
  }

  function Restrict(addrs: Addrs, keys: set<string>): Addrs {
    map k | k in addrs && k in keys :: addrs[k]
  }

  /** swap: the new entries in, the keys that are only in the old ones out. */
  function Swapped(table: Addrs, before: Addrs, after: Addrs): Addrs {
    Without(table + after, Restrict(before, before.Keys - after.Keys))
  }

  // ---------------------------------------------------------------------
  // Runs of clients
  // ---------------------------------------------------------------------

  type ClientId = nat

  /** live holds the mapping of every client that has joined and not closed. */
  datatype World = World(table: Addrs, live: map<ClientId, Addrs>)

  datatype Event = Join(id: ClientId, addrs: Addrs) | Refresh(id: ClientId, addrs: Addrs) | Close(id: ClientId)

  predicate Enabled(w: World, e: Event) {
    if e.Join? then e.id !in w.live else e.id in w.live
  }

  function Next(w: World, e: Event): World
    requires Enabled(w, e)
  {
    match e
    case Join(id, addrs) => World(w.table + addrs, w.live[id := addrs])
    case Refresh(id, addrs) => World(Swapped(w.table, w.live[id], addrs), w.live[id := addrs])
    case Close(id) => World(Without(w.table, w.live[id]), w.live - {id})
  }

  ghost predicate Run(worlds: seq<World>, events: seq<Event>) {
    && |worlds| == |events| + 1
    && worlds[0] == World(map[], map[])
    && forall i | 0 <= i < |events| :: Enabled(worlds[i], events[i]) && worlds[i + 1] == Next(worlds[i], events[i])
  }

  /** Every entry is the mapping of some live client. */
  ghost predicate Sound(w: World) {
    forall k | k in w.table :: Vouched(w, k)
  }

  ghost predicate Vouched(w: World, k: string)
    requires k in w.table
  {
    exists id :: id in w.live && k in w.live[id] && w.live[id][k] == w.table[k]
  }

  /** Every key of a live client has an entry. */
  ghost predicate Complete(w: World) {
    forall id, k | id in w.live && k in w.live[id] :: k in w.table
  }

  ghost predicate Disjoint(w: World) {
    forall i, j | i in w.live && j in w.live && i != j :: w.live[i].Keys !! w.live[j].Keys
  }

  /** The table is exactly the union of the live mappings. */
  ghost predicate IsUnion(w: World) {
    && (forall k | k in w.table :: Vouched(w, k))
    && (forall id, k | id in w.live && k in w.live[id] :: k in w.table && w.table[k] == w.live[id][k])
  }

  lemma NextKeepsSound(w: World, e: Event)
    requires Sound(w) && Enabled(w, e)
    ensures Sound(Next(w, e))
  {
    var w' := Next(w, e);
    forall k | k in w'.table ensures Vouched(w', k) {
      if !e.Close? && k in e.addrs {
        assert e.id in w'.live && w'.live[e.id][k] == w'.table[k];
      } else {
        assert Vouched(w, k);
        var id :| id in w.live && k in w.live[id] && w.live[id][k] == w.table[k];
        assert id != e.id;
        assert id in w'.live && w'.live[id][k] == w'.table[k];
      }
    }
  }

  /** In every run the table holds nothing but mappings of live clients. */
  lemma {:induction false} TableIsSound(worlds: seq<World>, events: seq<Event>)
    requires Run(worlds, events)
    ensures Sound(worlds[|events|])
  {
    if events != [] {
      var n := |events| - 1;
      assert Run(worlds[..n + 1], events[..n]);
      TableIsSound(worlds[..n + 1], events[..n]);
      NextKeepsSound(worlds[n], events[n]);
    }
  }

  /** This event takes a key of another live client out of the table: the
      client it is about gives the key up, and the table shows its value. */
  ghost predicate Strands(w: World, e: Event)
    requires Enabled(w, e)
  {
    && !e.Join?
    && exists id, k ::
         && id in w.live && id != e.id && k in w.live[id] && k in w.live[e.id]
         && k in w.table && w.table[k] == w.live[e.id][k]
         && (e.Refresh? ==> k !in e.addrs)
  }

  /** An event keeps every live client's keys in the table exactly when it does
      not strand one. */
  lemma CompletenessIff(w: World, e: Event)
    requires Complete(w) && Enabled(w, e)
    ensures Complete(Next(w, e)) <==> !Strands(w, e)
  {
    var w' := Next(w, e);
    if Strands(w, e) {
      var id, k :| id in w.live && id != e.id && k in w.live[id] && k in w.live[e.id]
                   && k in w.table && w.table[k] == w.live[e.id][k] && (e.Refresh? ==> k !in e.addrs);
      assert id in w'.live && k in w'.live[id] && k !in w'.table;
    } else {
      forall id, k | id in w'.live && k in w'.live[id] ensures k in w'.table {
        if !e.Close? && k in e.addrs {
        } else {
          assert id != e.id && id in w.live && k in w.live[id];
          assert k in w.table;
        }
      }
    }
  }

  lemma LosingSteps(a: Addrs, b: Addrs)
    requires a.Keys == b.Keys
    ensures Next(World(map[], map[]), Join(0, a)) == World(a, map[0 := a])
    ensures Next(World(a, map[0 := a]), Join(1, b)) == World(b, map[0 := a, 1 := b])
    ensures Next(World(b, map[0 := a, 1 := b]), Close(1)) == World(map[], map[0 := a])
  {
    assert map[] + a == a && a + b == b;
    assert Without(b, b) == map[];
    assert map[0 := a, 1 := b] - {1} == map[0 := a];
  }

  /** Two clients with one key, the later of which closes: the key is gone
      although the earlier client is still live, and its keys are trivially
      disjoint from those of every other live client. */
  lemma UnionLostExample()
    ensures exists worlds, events ::
              Run(worlds, events) && Disjoint(worlds[|events|]) && !IsUnion(worlds[|events|])
  {
    var a: Addrs, b: Addrs := map["web:80" := "localhost:1"], map["web:80" := "localhost:2"];
    var events := [Join(0, a), Join(1, b), Close(1)];
    var last := World(map[], map[0 := a]);
    var worlds := [World(map[], map[]), World(a, map[0 := a]), World(b, map[0 := a, 1 := b]), last];
    LosingSteps(a, b);
    assert Run(worlds, events);
    assert 0 in last.live && "web:80" in last.live[0] && "web:80" !in last.table;
    assert !IsUnion(worlds[|events|]);
  }

  lemma SoundCompleteDisjointIsUnion(w: World)
    requires Sound(w) && Complete(w) && Disjoint(w)
    ensures IsUnion(w)
  {
    forall id, k | id in w.live && k in w.live[id] ensures k in w.table && w.table[k] == w.live[id][k] {
      assert Vouched(w, k);
      var other :| other in w.live && k in w.live[other] && w.live[other][k] == w.table[k];
    }
  }

  lemma {:induction false} NothingStranded(worlds: seq<World>, events: seq<Event>)
    requires Run(worlds, events)
    requires forall i | 0 <= i < |events| :: !Strands(worlds[i], events[i])
    ensures Complete(worlds[|events|])
  {
    if events != [] {
      var n := |events| - 1;
      assert Run(worlds[..n + 1], events[..n]);
      NothingStranded(worlds[..n + 1], events[..n]);
      CompletenessIff(worlds[n], events[n]);
    }
  }

  /** If live clients have disjoint keys all along, the table is exactly the
      union of their mappings. */
  lemma DisjointClientsGiveUnion(worlds: seq<World>, events: seq<Event>)
    requires Run(worlds, events) && forall i | 0 <= i < |worlds| :: Disjoint(worlds[i])
    ensures IsUnion(worlds[|events|])
  {
    forall i | 0 <= i < |events| ensures !Strands(worlds[i], events[i]) {
      assert Disjoint(worlds[i]);
    }
    NothingStranded(worlds, events);
    TableIsSound(worlds, events);
    SoundCompleteDisjointIsUnion(worlds[|events|]);
  }

  /** A refresh that ends after its client closed belongs to nobody: the table
      stays sound exactly when some live client has each of the entries, too. */
  lemma LateRefreshIff(w: World, before: Addrs, after: Addrs)
    requires Sound(w)
    ensures Sound(World(Swapped(w.table, before, after), w.live)) <==>
            forall k | k in after :: exists id :: id in w.live && k in w.live[id] && w.live[id][k] == after[k]
  {
    var r := World(Swapped(w.table, before, after), w.live);
    assert forall k | k in after :: k in r.table && r.table[k] == after[k];
    if Sound(r) {
      forall k | k in after ensures exists id :: id in w.live && k in w.live[id] && w.live[id][k] == after[k] {
        assert Vouched(r, k);
      }
    }
    forall k | k in r.table && k !in after ensures Vouched(r, k) { assert Vouched(w, k); }
  }

  // ---------------------------------------------------------------------
  // The registry and its resolvers
  // ---------------------------------------------------------------------

  /** shown is the address last handed to the connection. */
  class GlobalResolver {
    const addr: string
    var shown: string

    constructor (addr: string)
      ensures this.addr == addr
    {
      this.addr := addr;
      shown := addr;
    }

    method Update(table: Addrs)
      modifies this
      ensures shown == Resolve(table, addr, true)
    {
      shown := Resolve(table, addr, true);
    }
  }

  class AddressRegistry {
    var addrs: Addrs
    var resolvers: set<GlobalResolver>

    /** Every active resolver shows what the table says. */
    ghost predicate Valid()
      reads this, resolvers
    {
      forall gr | gr in resolvers :: gr.shown == Resolve(addrs, gr.addr, true)
    }

    constructor ()
      ensures Valid() && addrs == map[] && resolvers == {}
    {
      addrs, resolvers := map[], {};
    }

    /** Tell every resolver about the current table. */
    method Notify()
      modifies resolvers
      ensures Valid()
    {
      var todo := resolvers;
      while todo != {}
        invariant todo <= resolvers
        invariant forall gr | gr in resolvers - todo :: gr.shown == Resolve(addrs, gr.addr, true)
        decreases todo
      {
        var gr :| gr in todo;
        todo := todo - {gr};
        gr.Update(addrs);
      }
    }

    method Merge(more: Addrs)
      requires Valid()
      modifies this`addrs, resolvers
      ensures Valid() && addrs == old(addrs) + more
    {
      addrs := addrs + more;
      Notify();
    }

    /** Delete the entries of these that still have the given value. */
    method Delete(these: Addrs)
      modifies this`addrs
      ensures addrs == Without(old(addrs), these)
    {
      var todo := these.Keys;
      while todo != {}
        invariant todo <= these.Keys
        invariant addrs == Without(old(addrs), Restrict(these, these.Keys - todo))
        decreases todo
      {
        var k :| k in todo;
        todo := todo - {k};
        if k in addrs && addrs[k] == these[k] {
          addrs := map x | x in addrs && x != k :: addrs[x];
        }
      }
      assert Restrict(these, these.Keys) == these;
    }

    method Remove(these: Addrs)
      requires Valid()
      modifies this`addrs, resolvers
      ensures Valid() && addrs == Without(old(addrs), these)
    {
      Delete(these);
      Notify();
    }

    method Swap(before: Addrs, after: Addrs)
      requires Valid()
      modifies this`addrs, resolvers
      ensures Valid() && addrs == Swapped(old(addrs), before, after)
    {
      addrs := addrs + after;
      Delete(map k | k in before && k !in after :: before[k]);
      assert (map k | k in before && k !in after :: before[k]) == Restrict(before, before.Keys - after.Keys);
      Notify();
    }

    method Build(addr: string) returns (gr: GlobalResolver)
      requires Valid()
      modifies this`resolvers
      ensures Valid() && fresh(gr) && gr.addr == addr && resolvers == old(resolvers) + {gr}
    {
      gr := new GlobalResolver(addr);
      resolvers := resolvers + {gr};
      gr.Update(addrs);
    }

    method CloseResolver(gr: GlobalResolver)
      requires Valid()
      modifies this`resolvers
      ensures Valid() && resolvers == old(resolvers) - {gr}
    {
      resolvers := resolvers - {gr};
    }
  }

  /** A client of one daemon. */
  class Client {
    var addrs: Addrs
    var open: bool

    /** New: fetched is what the daemon reports. */
    constructor (registry: AddressRegistry, fetched: Addrs)
      requires registry.Valid()
      modifies registry`addrs, registry.resolvers
      ensures registry.Valid() && open && addrs == fetched
      ensures forall w: World, id | w.table == old(registry.addrs) && Enabled(w, Join(id, fetched)) ::
                registry.addrs == Next(w, Join(id, fetched)).table
    {
      addrs, open := fetched, true;
      new;
      registry.Merge(fetched);
    }

    /** fetched is None when the daemon cannot be reached. */
    method Refresh(registry: AddressRegistry, fetched: Option<Addrs>) returns (ok: bool)
      requires registry.Valid()
      modifies this`addrs, registry`addrs, registry.resolvers
      ensures registry.Valid() && ok == fetched.Some?
      ensures !ok ==> addrs == old(addrs) && registry.addrs == old(registry.addrs)
      ensures ok ==> addrs == fetched.value && registry.addrs == Swapped(old(registry.addrs), old(addrs), fetched.value)
      ensures ok ==> forall w: World, id | w.table == old(registry.addrs) && id in w.live && w.live[id] == old(addrs) ::
                       registry.addrs == Next(w, Event.Refresh(id, fetched.value)).table
    {
      if fetched.None? { return false; }
      var before := addrs;
      addrs := fetched.value;
      registry.Swap(before, fetched.value);
      return true;
    }

    /** Closing twice is closing once. */
    method Close(registry: AddressRegistry)
      requires registry.Valid()
      modifies this`open, registry`addrs, registry.resolvers
      ensures registry.Valid() && !open
      ensures !old(open) ==> registry.addrs == old(registry.addrs)
      ensures old(open) ==>
                forall w: World, id | w.table == old(registry.addrs) && id in w.live && w.live[id] == addrs ::
                              registry.addrs == Next(w, Event.Close(id)).table
    {
      if open {
        open := false;
        registry.Remove(addrs);
      }
    }
  }
}
