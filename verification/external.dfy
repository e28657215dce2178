// Which configured services another running instance already owns.
module External {
  import opened Wrappers
  import opened ConfigTypes

  /** A forward of another instance; serviceName is empty and the ports are
      zero when unknown. */
  datatype RemoteForward = RemoteForward(
    instance: string, pid: int, configFile: string, serviceName: string, actualPort: int, localPort: int)

  datatype ExternalForward = ExternalForward(
    service: ServiceConfig, instance: string, pid: int, configFile: string, actualPort: int)

  function PortOf(fw: RemoteForward): int { if fw.actualPort == 0 then fw.localPort else fw.actualPort }

  /** The last forward that carries the name, and the last on the port. */
  function ByName(remote: seq<RemoteForward>, name: string): Option<RemoteForward> {
    if remote == [] then None
    else
      var fw := remote[|remote| - 1];
      if fw.serviceName != "" && fw.serviceName == name then Some(fw) else ByName(remote[..|remote| - 1], name)
  }

  function ByPort(remote: seq<RemoteForward>, port: int): Option<RemoteForward> {
    if remote == [] then None
    else
      var fw := remote[|remote| - 1];
      if PortOf(fw) > 0 && PortOf(fw) == port then Some(fw) else ByPort(remote[..|remote| - 1], port)
  }

  /** Who owns a service: by name first, else by its static port. */
  function Claim(svc: ServiceConfig, remote: seq<RemoteForward>): Option<RemoteForward> {
    if ByName(remote, svc.name).Some? then ByName(remote, svc.name)
    else if svc.localPort != 0 then ByPort(remote, svc.localPort)
    else None
  }

  function Report(svc: ServiceConfig, o: RemoteForward): ExternalForward {
    ExternalForward(svc, o.instance, o.pid, o.configFile, o.actualPort)
  }

  predicate Reported(externals: seq<ExternalForward>, name: string) {
    exists i | 0 <= i < |externals| :: externals[i].service.name == name
  }

  function Conflicts(services: seq<ServiceConfig>, remote: seq<RemoteForward>): seq<ExternalForward> {
    if services == [] then []
    else
      var earlier := Conflicts(services[..|services| - 1], remote);
      var svc := services[|services| - 1];
      if Reported(earlier, svc.name) || Claim(svc, remote).None? then earlier
      else earlier + [Report(svc, Claim(svc, remote).value)]
  }

  method DetectExternalConflicts(services: seq<ServiceConfig>, remote: seq<RemoteForward>)
    returns (externals: seq<ExternalForward>)
    ensures externals == Conflicts(services, remote)
  {
    externals := [];
    if services == [] || remote == [] {
      NoneRemote(services);
      return;
    }
    var byName: map<string, RemoteForward>, byPort: map<int, RemoteForward> := map[], map[];
    for i := 0 to |remote|
      invariant forall name :: ByName(remote[..i], name) == Find(byName, name)
      invariant forall port :: ByPort(remote[..i], port) == Find(byPort, port)
    {
      assert remote[..i + 1][..i] == remote[..i];
      var fw := remote[i];
      if fw.serviceName != "" { byName := byName[fw.serviceName := fw]; }
      var port := if fw.actualPort == 0 then fw.localPort else fw.actualPort;
      if port > 0 { byPort := byPort[port := fw]; }
    }
    assert remote[..|remote|] == remote;
    var seen: set<string> := {};
    for i := 0 to |services|
      invariant externals == Conflicts(services[..i], remote)
      invariant forall name :: name in seen <==> Reported(externals, name)
    {
      assert services[..i + 1][..i] == services[..i];
      var svc := services[i];
      if svc.name !in seen {
        var owner := None;
        if svc.name in byName {
          owner := Some(byName[svc.name]);
        } else if svc.localPort != 0 && svc.localPort in byPort {
          owner := Some(byPort[svc.localPort]);
        }
        assert owner == Claim(svc, remote);
        if owner.Some? {
          ReportedMore(externals, Report(svc, owner.value));
          seen := seen + {svc.name};
          externals := externals + [Report(svc, owner.value)];
        }
      }
    }
    assert services[..|services|] == services;
  }

  function Find<K, V>(m: map<K, V>, key: K): Option<V> { if key in m then Some(m[key]) else None }

  lemma ReportedMore(externals: seq<ExternalForward>, e: ExternalForward)
    ensures forall name :: Reported(externals + [e], name) <==> Reported(externals, name) || name == e.service.name
  {
    var more := externals + [e];
    assert more[|externals|] == e && forall i | 0 <= i < |externals| :: more[i] == externals[i];
    forall name | Reported(externals, name) ensures Reported(more, name) {
      var i :| 0 <= i < |externals| && externals[i].service.name == name;
      assert more[i].service.name == name;
    }
  }

  lemma {:induction false} NoneRemote(services: seq<ServiceConfig>)
    ensures Conflicts(services, []) == []
  {
    if services != [] { NoneRemote(services[..|services| - 1]); }
  }

  /** A report of a configured service that tells who owns it. */
  ghost predicate IsReport(e: ExternalForward, services: seq<ServiceConfig>, remote: seq<RemoteForward>) {
    && e.service in services && Claim(e.service, remote).Some?
    && e == Report(e.service, Claim(e.service, remote).value)
  }

  ghost predicate NamedOnce(externals: seq<ExternalForward>) {
    forall i, j | 0 <= i < j < |externals| :: externals[i].service.name != externals[j].service.name
  }

  lemma NamedOnceMore(externals: seq<ExternalForward>, e: ExternalForward)
    requires NamedOnce(externals) && !Reported(externals, e.service.name)
    ensures NamedOnce(externals + [e])
  {
    var more := externals + [e];
    forall i, j | 0 <= i < j < |more| ensures more[i].service.name != more[j].service.name {
      assert more[i] == externals[i];
      if j < |externals| { assert more[j] == externals[j]; }
    }
  }

  /** Reports are of configured services that are owned elsewhere, each name
      once, and tell the owner. */
  lemma {:induction false} ConflictsAreOwned(services: seq<ServiceConfig>, remote: seq<RemoteForward>)
    ensures forall e | e in Conflicts(services, remote) :: IsReport(e, services, remote)
    ensures NamedOnce(Conflicts(services, remote))
  {
    if services != [] {
      var init, svc := services[..|services| - 1], services[|services| - 1];
      assert services == init + [svc];
      ConflictsAreOwned(init, remote);
      var earlier := Conflicts(init, remote);
      assert forall e | e in earlier :: IsReport(e, init, remote);
      assert forall e | e in earlier :: e.service in services;
      if !Reported(earlier, svc.name) && Claim(svc, remote).Some? {
        NamedOnceMore(earlier, Report(svc, Claim(svc, remote).value));
      }
    }
  }

  /** Every such service is reported. */
  lemma {:induction false} ClaimedAreReported(services: seq<ServiceConfig>, remote: seq<RemoteForward>)
    ensures forall svc | svc in services && Claim(svc, remote).Some? :: Reported(Conflicts(services, remote), svc.name)
  {
    if services != [] {
      var init, svc := services[..|services| - 1], services[|services| - 1];
      assert services == init + [svc];
      ClaimedAreReported(init, remote);
      if !Reported(Conflicts(init, remote), svc.name) && Claim(svc, remote).Some? {
        ReportedMore(Conflicts(init, remote), Report(svc, Claim(svc, remote).value));
      }
    }
  }

  /** A service is claimed by name or by port and by nobody else. */
  lemma {:induction false} ClaimIff(svc: ServiceConfig, remote: seq<RemoteForward>)
    ensures Claim(svc, remote).Some? <==>
            exists i :: 0 <= i < |remote| &&
              (|| (remote[i].serviceName != "" && remote[i].serviceName == svc.name)
               || (svc.localPort > 0 && PortOf(remote[i]) == svc.localPort))
  {
    if remote != [] {
      var init := remote[..|remote| - 1];
      assert forall i | 0 <= i < |init| :: init[i] == remote[i];
      ClaimIff(svc, init);
    }
  }

  // ---------------------------------------------------------------------
  // Reports, written out
  // ---------------------------------------------------------------------

  /** Forward k is the last one that carries this name. */
  ghost predicate LastNamed(remote: seq<RemoteForward>, name: string, k: nat) {
    k < |remote| && name != "" && remote[k].serviceName == name
    && forall j | k < j < |remote| :: remote[j].serviceName != name
  }

  /** A forward is on the port it listens on, or else on the one it asked for. */
  ghost predicate OnPort(fw: RemoteForward, port: int) {
    port > 0 && (fw.actualPort == port || (fw.actualPort == 0 && fw.localPort == port))
  }

  /** Forward k is the last one on this port. */
  ghost predicate LastOnPort(remote: seq<RemoteForward>, port: int, k: nat) {
    k < |remote| && OnPort(remote[k], port) && forall j | k < j < |remote| :: !OnPort(remote[j], port)
  }

  /** Forward k owns the service: it is the last one of that name, or, when none
      has the name, the last one on the service's static port. */
  ghost predicate Owns(remote: seq<RemoteForward>, svc: ServiceConfig, k: nat) {
    || LastNamed(remote, svc.name, k)
    || (LastOnPort(remote, svc.localPort, k) && forall j: nat :: !LastNamed(remote, svc.name, j))
  }

  lemma {:induction false} ByNameIsLast(remote: seq<RemoteForward>, name: string)
    ensures ByName(remote, name).Some? <==> exists k: nat :: LastNamed(remote, name, k)
    ensures forall k: nat | LastNamed(remote, name, k) :: ByName(remote, name) == Some(remote[k])
  {
    if remote != [] {
      var init, last := remote[..|remote| - 1], remote[|remote| - 1];
      ByNameIsLast(init, name);
      assert forall i | 0 <= i < |init| :: remote[i] == init[i];
      if last.serviceName != "" && last.serviceName == name {
        assert LastNamed(remote, name, |remote| - 1);
      } else {
        assert forall k: nat :: LastNamed(remote, name, k) <==> LastNamed(init, name, k);
      }
    }
  }

  lemma {:induction false} ByPortIsLast(remote: seq<RemoteForward>, port: int)
    ensures ByPort(remote, port).Some? <==> exists k: nat :: LastOnPort(remote, port, k)
    ensures forall k: nat | LastOnPort(remote, port, k) :: ByPort(remote, port) == Some(remote[k])
  {
    if remote != [] {
      var init, last := remote[..|remote| - 1], remote[|remote| - 1];
      ByPortIsLast(init, port);
      assert forall i | 0 <= i < |init| :: remote[i] == init[i];
      assert PortOf(last) > 0 && PortOf(last) == port <==> OnPort(last, port);
      if OnPort(last, port) {
        assert LastOnPort(remote, port, |remote| - 1);
      } else {
        assert forall k: nat :: LastOnPort(remote, port, k) <==> LastOnPort(init, port, k);
      }
    }
  }

  lemma ClaimIsTheOwners(svc: ServiceConfig, remote: seq<RemoteForward>)
    ensures Claim(svc, remote).Some? <==> exists k: nat :: Owns(remote, svc, k)
    ensures forall k: nat | Owns(remote, svc, k) :: Claim(svc, remote) == Some(remote[k])
  {
    ByNameIsLast(remote, svc.name);
    ByPortIsLast(remote, svc.localPort);
    if Claim(svc, remote).Some? {
      if k: nat :| LastNamed(remote, svc.name, k) {
        assert Owns(remote, svc, k);
      } else {
        var k: nat :| LastOnPort(remote, svc.localPort, k);
        assert Owns(remote, svc, k);
      }
    }
  }

  /** svc is the first service of its name that is owned elsewhere. */
  ghost predicate FirstOwned(services: seq<ServiceConfig>, remote: seq<RemoteForward>, svc: ServiceConfig) {
    exists i :: 0 <= i < |services| && services[i] == svc
                && forall j | 0 <= j < i && services[j].name == svc.name :: Claim(services[j], remote).None?
  }

  lemma {:induction false} ReportsAreFirst(services: seq<ServiceConfig>, remote: seq<RemoteForward>)
    ensures forall e | e in Conflicts(services, remote) :: FirstOwned(services, remote, e.service)
  {
    if services != [] {
      var init, svc := services[..|services| - 1], services[|services| - 1];
      ReportsAreFirst(init, remote);
      ClaimedAreReported(init, remote);
      assert forall i | 0 <= i < |init| :: services[i] == init[i];
      forall e | e in Conflicts(init, remote) ensures FirstOwned(services, remote, e.service) {
        var i :| 0 <= i < |init| && init[i] == e.service
                 && forall j | 0 <= j < i && init[j].name == e.service.name :: Claim(init[j], remote).None?;
        assert services[i] == e.service;
      }
      if !Reported(Conflicts(init, remote), svc.name) {
        forall j | 0 <= j < |init| && init[j].name == svc.name ensures Claim(init[j], remote).None? {
          assert init[j] in init;
        }
        assert services[|init|] == svc;
      }
    }
  }

  /** Every report names the instance that owns the service it is of, by name
      first, and a name is reported exactly when some service of that name is
      owned elsewhere. */
  lemma ReportsNameTheOwner(services: seq<ServiceConfig>, remote: seq<RemoteForward>)
    ensures forall e | e in Conflicts(services, remote) ::
              && FirstOwned(services, remote, e.service)
              && exists k: nat :: Owns(remote, e.service, k)
                                  && e.instance == remote[k].instance && e.pid == remote[k].pid
                                  && e.configFile == remote[k].configFile && e.actualPort == remote[k].actualPort
    ensures forall name :: Reported(Conflicts(services, remote), name) <==>
                           exists svc, k: nat :: svc in services && svc.name == name && Owns(remote, svc, k)
  {
    ConflictsAreOwned(services, remote);
    ClaimedAreReported(services, remote);
    ReportsAreFirst(services, remote);
    forall svc ensures Claim(svc, remote).Some? <==> exists k: nat :: Owns(remote, svc, k)
               ensures forall k: nat | Owns(remote, svc, k) :: Claim(svc, remote) == Some(remote[k])
    {
      ClaimIsTheOwners(svc, remote);
    }
    forall name | Reported(Conflicts(services, remote), name)
      ensures exists svc, k: nat :: svc in services && svc.name == name && Owns(remote, svc, k)
    {
      var i :| 0 <= i < |Conflicts(services, remote)| && Conflicts(services, remote)[i].service.name == name;
      assert IsReport(Conflicts(services, remote)[i], services, remote);
    }
  }
}
