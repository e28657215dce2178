// Configuration entities and the structural check of a single service.
module ConfigTypes {
  import opened Wrappers

  datatype PortSelector = PortSelector(name: string, port: int, localPort: int)

  datatype PortsConfig = PortsConfig(all: bool, selectors: seq<PortSelector>)

  datatype NetworkConfig = NetworkConfig(latency: string, jitter: string, bandwidth: string)

  /** enabled is None when the file does not set it. */
  datatype ChaosConfig = ChaosConfig(
    enabled: Option<bool>, errorRate: real, spikeProbability: real, spikeDuration: string)

  datatype ServiceConfig = ServiceConfig(
    name: string, service: string, pod: string, localPort: int, remotePort: int, namespace: string,
    ports: PortsConfig, excludePorts: seq<string>, localPortOffset: int,
    network: NetworkConfig, chaos: ChaosConfig, isLazy: bool, connectionMode: string,
    parentName: string, portName: string, sourceConfig: string)
  {
    predicate IsMultiPort() { ports.all || |ports.selectors| > 0 }

    /** The Kubernetes resource a mapping names; a service before a pod. */
    function Target(): string { if service != "" then service else pod }
  }

  datatype WebhookConfig = WebhookConfig(url: string, headers: map<string, string>, bodyTemplate: string)

  datatype HookConfig = HookConfig(
    name: string, kind: string, events: seq<string>, timeout: string, failMode: string, shell: map<string, string>,
    webhook: Option<WebhookConfig>, exec: Option<seq<string>>, filterServices: seq<string>)

  datatype SupervisorConfig = SupervisorConfig(
    maxRestarts: int, healthCheckInterval: string, healthCheckThreshold: int, readyTimeout: string,
    backoffInitial: string, backoffMax: string, maxConnectionAge: string, connectionMode: string)

  datatype ProxyServerConfig = ProxyServerConfig(
    enabled: Option<bool>, listen: string, username: string, password: string, fuzzyMatch: Option<bool>)

  /** filePath and format are set at run time and are not part of the file. */
  datatype Config = Config(
    extendsPath: string, context: string, namespace: string, logFilePath: string, logLevel: string, listen: string,
    apiKey: string, keyID: string, host: string, services: seq<ServiceConfig>, hooks: seq<HookConfig>,
    supervisor: SupervisorConfig, network: NetworkConfig, chaos: ChaosConfig,
    socks: ProxyServerConfig, httpProxy: ProxyServerConfig, filePath: string, format: string)

  /** svc is the last service of its name. */
  ghost predicate LastOfItsName(services: seq<ServiceConfig>, svc: ServiceConfig) {
    exists i :: 0 <= i < |services| && services[i] == svc
                && forall j | i < j < |services| :: services[j].name != svc.name
  }

  /** A port selector that says something, in the range of ports. */
  predicate ValidSelector(sel: PortSelector) {
    !(sel.name == "" && sel.port == 0) && 0 <= sel.port <= 65535 && 0 <= sel.localPort <= 65535
  }

  /** ValidateService, without the parsing of the network and chaos settings. */
  predicate ValidService(svc: ServiceConfig) {
    && svc.name != ""
    && (svc.service == "" <==> svc.pod != "")
    && (if svc.IsMultiPort() then
          && svc.remotePort == 0 && svc.localPort == 0
          && (|svc.excludePorts| > 0 ==> svc.ports.all)
          && svc.localPortOffset >= 0
          && (forall i | 0 <= i < |svc.ports.selectors| :: ValidSelector(svc.ports.selectors[i]))
        else
          && svc.excludePorts == [] && svc.localPortOffset == 0
          && 0 <= svc.localPort <= 65535 && 0 < svc.remotePort <= 65535)
    && svc.connectionMode in {"", "mux", "isolated"}
    && !(svc.connectionMode == "isolated" && svc.IsMultiPort())
  }

  /** A valid service has one target, a service or a pod, and is as valid with the
      other kind of target of that name. */
  lemma OneTarget(svc: ServiceConfig)
    ensures ValidService(svc) ==> (svc.service != "") != (svc.pod != "") && svc.Target() != ""
    ensures ValidService(svc) <==> ValidService(svc.(service := svc.pod, pod := svc.service))
  {
    var other := svc.(service := svc.pod, pod := svc.service);
    assert other.IsMultiPort() == svc.IsMultiPort();
  }

  datatype ServiceError =
    | NameMissing | TargetMissing | TwoTargets
    | RemotePortSet | LocalPortSet | ExcludeWithoutAll | NegativeOffset
    | SelectorEmpty(j: nat) | SelectorPort(j: nat) | SelectorLocalPort(j: nat)
    | ExcludeInSingle | OffsetInSingle | LocalPortRange | RemotePortRange
    | UnknownMode | IsolatedMulti

  method ValidateSelectors(selectors: seq<PortSelector>) returns (error: Option<ServiceError>)
    ensures error.None? <==> forall i | 0 <= i < |selectors| :: ValidSelector(selectors[i])
  {
    for j := 0 to |selectors|
      invariant forall i | 0 <= i < j :: ValidSelector(selectors[i])
    {
      var sel := selectors[j];
      if sel.name == "" && sel.port == 0 { return Some(SelectorEmpty(j)); }
      if sel.port < 0 || sel.port > 65535 { return Some(SelectorPort(j)); }
      if sel.localPort < 0 || sel.localPort > 65535 { return Some(SelectorLocalPort(j)); }
    }
    return None;
  }

  /** The checks in their order; the first that fails is the error. */
  method ValidateService(svc: ServiceConfig) returns (error: Option<ServiceError>)
    ensures error.None? <==> ValidService(svc)
  {
    if svc.name == "" { return Some(NameMissing); }
    if svc.service == "" && svc.pod == "" { return Some(TargetMissing); }
    if svc.service != "" && svc.pod != "" { return Some(TwoTargets); }
    if svc.IsMultiPort() {
      if svc.remotePort != 0 { return Some(RemotePortSet); }
      if svc.localPort != 0 { return Some(LocalPortSet); }
      if |svc.excludePorts| > 0 && !svc.ports.all { return Some(ExcludeWithoutAll); }
      if svc.localPortOffset < 0 { return Some(NegativeOffset); }
      error := ValidateSelectors(svc.ports.selectors);
      if error.Some? { return; }
    } else {
      if |svc.excludePorts| > 0 { return Some(ExcludeInSingle); }
      if svc.localPortOffset != 0 { return Some(OffsetInSingle); }
      if svc.localPort < 0 || svc.localPort > 65535 { return Some(LocalPortRange); }
      if svc.remotePort <= 0 || svc.remotePort > 65535 { return Some(RemotePortRange); }
    }
    if svc.connectionMode != "" && svc.connectionMode != "mux" && svc.connectionMode != "isolated" {
      return Some(UnknownMode);
    }
    if svc.connectionMode == "isolated" && svc.IsMultiPort() { return Some(IsolatedMulti); }
    return None;
  }
}
