/** The DockerContainer reconciler's calls on a Docker host, in the order of the source. */
module ContainerController {
  import opened Wrappers
  import opened GoStrings
  import opened ContainerSync
  import Decimal

  class DockerHost {
    var boxes: seq<Box>
    var nextId: nat
    var created: seq<string>
    var started: seq<nat>
    var removed: seq<nat>

    ghost function Value(): Host
      reads this
    {
      Host(boxes, nextId, created, started, removed)
    }

    method ContainerStart(id: nat)
      modifies this`boxes, this`started
      ensures Value() == StartIn(old(Value()), id)
    {
      boxes := InState(boxes, id, "running");
      started := started + [id];
    }

    method ContainerStop(id: nat)
      modifies this`boxes
      ensures Value() == StopIn(old(Value()), id)
    {
      boxes := InState(boxes, id, "exited");
    }

    method ContainerRemove(id: nat)
      modifies this`boxes, this`removed
      ensures Value() == RemoveIn(old(Value()), id)
    {
      boxes := Removed(boxes, id);
      removed := removed + [id];
    }

    /** Fails when the name is taken. */
    method ContainerCreate(spec: Spec, config: Config, d: Daemon) returns (id: Option<nat>)
      requires config == Desired(spec, d)
      modifies this`boxes, this`nextId, this`created
      ensures Find(old(boxes), NameGiven(spec, d)).Some? ==> id == None && Value() == old(Value())
      ensures Find(old(boxes), NameGiven(spec, d)).None? ==>
                id == Some(old(nextId)) && Value() == CreateIn(old(Value()), spec, d)
    {
      if Find(boxes, NameGiven(spec, d)).Some? {
        return None;
      }
      boxes := boxes + [Box(nextId, [NameGiven(spec, d)], "created", config)];
      created := created + [spec.name];
      id := Some(nextId);
      nextId := nextId + 1;
    }
  }

  /** The nested search over containers and their names. */
  method FindByName(containers: seq<Box>, expectedName: string) returns (target: Option<Box>)
    ensures target == Find(containers, expectedName)
  {
    for i := 0 to |containers|
      invariant Find(containers, expectedName) == Find(containers[i..], expectedName)
    {
      var c := containers[i];
      var found := false;
      for j := 0 to |c.names|
        invariant !found && expectedName !in c.names[..j]
      {
        if c.names[j] == expectedName {
          found := true;
          break;
        }
      }
      assert found ==> Named(c, expectedName);
      assert !found ==> c.names[..|c.names|] == c.names;
      if found {
        return Some(c);
      }
      assert containers[i..][1..] == containers[i + 1..];
    }
    target := None;
  }

  /** `needsRecreate`; an inspect result may lack the configuration or its host part. */
  method NeedsRecreate(inspected: Config, hasConfig: bool, hasHostConfig: bool, spec: Spec) returns (drifted: bool)
    ensures drifted <==>
            hasConfig && (ConfigDrifted(inspected, spec) || (hasHostConfig && HostConfigDrifted(inspected, spec)))
  {
    if !hasConfig {
      return false;
    }
    if inspected.image != spec.image {
      return true;
    }
    if |spec.command| > 0 && inspected.cmd != spec.command {
      return true;
    }
    var complete := ContainsAll(inspected.env, spec.env);
    if !complete {
      return true;
    }
    if spec.restartPolicy != "" && hasHostConfig {
      if ToLower(inspected.restart) != ToLower(spec.restartPolicy) {
        return true;
      }
    }
    if spec.resources.Some? && hasHostConfig {
      if spec.resources.value.nanoCPUs != inspected.nanoCPUs {
        return true;
      }
      if MemoryBytes(spec.resources.value) != inspected.memory {
        return true;
      }
    }
    return false;
  }

  /** The search for each wanted entry, in sorted order, among the actual ones. */
  method ContainsAll(actual: seq<string>, expected: seq<string>) returns (complete: bool)
    ensures complete <==> forall e :: e in expected ==> e in actual
  {
    var wanted := Sort(expected);
    SortSorts(expected);
    assert forall e :: e in expected <==> e in multiset(wanted);
    for i := 0 to |wanted|
      invariant forall k :: 0 <= k < i ==> wanted[k] in actual
    {
      var found := false;
      for j := 0 to |actual|
        invariant !found && wanted[i] !in actual[..j]
      {
        if actual[j] == wanted[i] {
          found := true;
          break;
        }
      }
      if !found {
        assert actual[..|actual|] == actual;
        assert wanted[i] in multiset(wanted);
        return false;
      }
    }
    return true;
  }

  method BuildHealthCheck(hc: Option<HealthCheck>) returns (config: Option<HealthConfig>)
    ensures config == HealthOf(hc)
  {
    if hc.None? {
      return None;
    }
    var h := HealthConfig(hc.value.test, 0, 0, 0);
    if hc.value.interval.Some? {
      h := h.(interval := hc.value.interval.value);
    }
    if hc.value.timeout.Some? {
      h := h.(timeout := hc.value.timeout.value);
    }
    if hc.value.retries > 0 {
      h := h.(retries := hc.value.retries);
    }
    return Some(h);
  }

  method BuildBinds(volumes: seq<Volume>) returns (binds: seq<string>)
    ensures binds == BindsOf(volumes)
  {
    binds := [];
    for i := 0 to |volumes|
      invariant |binds| == i && forall k :: 0 <= k < i ==> binds[k] == BindOf(volumes[k])
    {
      var bind := volumes[i].hostPath + ":" + volumes[i].containerPath;
      if volumes[i].readOnly {
        bind := bind + ":ro";
      }
      assert bind == BindOf(volumes[i]);
      binds := binds + [bind];
    }
  }

  /** Texts that are not "host:container" with a valid port are skipped. */
  method BuildPorts(ports: seq<string>, keys: map<string, string>) returns (bindings: map<string, string>)
    ensures bindings == PortBindings(ports, keys)
  {
    bindings := map[];
    for i := 0 to |ports|
      invariant bindings == PortBindings(ports[..i], keys)
    {
      assert Asked(ports[..i + 1], keys)[..i] == Asked(ports[..i], keys);
      var parts := Split(ports[i], ':');
      if |parts| == 2 {
        if parts[1] in keys {
          bindings := bindings[keys[parts[1]] := parts[0]];
        }
      }
    }
    assert ports[..|ports|] == ports;
  }

  method CreateAndStartContainer(host: DockerHost, spec: Spec, f: Calls, d: Daemon) returns (ok: bool)
    modifies host
    ensures (host.Value(), ok) == CreateAndStart(old(host.Value()), spec, f, d)
  {
    if !f.pull {
      return false;
    }
    var resolvedEnv := spec.env;
    for i := 0 to |spec.envVars|
      invariant resolvedEnv == spec.env + spec.envVars[..i]
    {
      resolvedEnv := resolvedEnv + [spec.envVars[i]];
    }
    assert spec.envVars[..|spec.envVars|] == spec.envVars;
    var health := BuildHealthCheck(spec.healthCheck);
    var binds := BuildBinds(spec.volumes);
    var ports := BuildPorts(spec.ports, d.portKeys);
    var config := Config(
      spec.image, CommandOf(spec, d), resolvedEnv + d.imageEnv, RestartOf(spec, d), 0, 0, binds, ports, health);
    if spec.resources.Some? {
      config := config.(nanoCPUs := spec.resources.value.nanoCPUs, memory := MemoryBytes(spec.resources.value));
    }
    if !f.create {
      return false;
    }
    var id := host.ContainerCreate(spec, config, d);
    if id.None? || !f.upload || !f.startNew {
      return false;
    }
    host.ContainerStart(id.value);
    return true;
  }

  /** `stored` is the object's status in the API server afterwards. */
  method SyncContainer(host: DockerHost, spec: Spec, status: Status, r: Report, f: Calls, d: Daemon)
    returns (ok: bool, stored: Status)
    modifies host
    ensures (host.Value(), ok) == Sync(old(host.Value()), spec, f, d)
    ensures stored == StatusAfter(old(host.Value()), status, spec, f, r)
  {
    stored := status;
    if !f.list {
      return false, stored;
    }
    var target := FindByName(host.boxes, "/" + spec.name);
    if target.None? {
      ok := CreateAndStartContainer(host, spec, f, d);
      return;
    }
    stored := UpdateStatus(target.value, status, r, f);
    ok := KeepRunning(host, target.value, spec, f, d);
  }

  /** Copies what was found and writes it if it changed; a failed write is only logged. */
  method UpdateStatus(box: Box, status: Status, r: Report, f: Calls) returns (stored: Status)
    ensures stored == if !f.report then status
                      else Status(Some(box.id), box.state, Update(status.health, r.health, f.inspect),
                                  Update(status.ipv4, r.ipv4, f.inspect))
  {
    var cr, statusChanged := status, false;
    if cr.id != Some(box.id) || cr.state != box.state {
      cr := cr.(id := Some(box.id), state := box.state);
      statusChanged := true;
    }
    if f.inspect && r.health.Some? && cr.health != r.health.value {
      cr := cr.(health := r.health.value);
      statusChanged := true;
    }
    if f.inspect && r.ipv4.Some? && cr.ipv4 != r.ipv4.value {
      cr := cr.(ipv4 := r.ipv4.value);
      statusChanged := true;
    }
    return if statusChanged && f.report then cr else status;
  }

  /** The second half of `syncContainer`, for the container that was found. */
  method KeepRunning(host: DockerHost, box: Box, spec: Spec, f: Calls, d: Daemon) returns (ok: bool)
    requires f.list && Find(host.boxes, "/" + spec.name) == Some(box)
    modifies host
    ensures (host.Value(), ok) == Sync(old(host.Value()), spec, f, d)
  {
    if box.state != "running" {
      if !f.start {
        return false;
      }
      host.ContainerStart(box.id);
    }
    if f.inspect {
      var drifted := NeedsRecreate(box.config, true, true, spec);
      if drifted {
        if f.stop {
          host.ContainerStop(box.id);
        }
        if !f.remove {
          return false;
        }
        host.ContainerRemove(box.id);
        ok := CreateAndStartContainer(host, spec, f, d);
        return;
      }
    }
    return true;
  }

  // Deletion

  function TunnelName(base: string, i: nat): string {
    base + "-tunnel-" + Decimal.Print(i)
  }

  /** The tunnel containers that deletion looks for. */
  function TunnelNames(containerName: string, objectName: string, ports: nat): set<string> {
    (set i | 0 <= i < ports :: TunnelName(containerName, i))
    + (set i | 0 <= i < ports :: TunnelName(objectName, i))
  }

  /** The names end in "-tunnel-" and the number of a port. */
  lemma TunnelNamesExactly(containerName: string, objectName: string, ports: nat, name: string)
    ensures name in TunnelNames(containerName, objectName, ports) <==>
            exists i :: 0 <= i < ports && (name == containerName + "-tunnel-" + Decimal.Print(i)
                                           || name == objectName + "-tunnel-" + Decimal.Print(i))
  {
    if i :| 0 <= i < ports && (name == containerName + "-tunnel-" + Decimal.Print(i)
                               || name == objectName + "-tunnel-" + Decimal.Print(i)) {
      assert name == TunnelName(containerName, i) || name == TunnelName(objectName, i);
    }
    if name in TunnelNames(containerName, objectName, ports) {
      var i :| 0 <= i < ports && (name == TunnelName(containerName, i) || name == TunnelName(objectName, i));
      assert Decimal.Print(i) == Decimal.Print(i);
    }
  }

  /** `deleteExternalResources` on the names present on the host. `failing` are the names whose removal
      the daemon refuses. The container itself must go; its tunnels are removed as far as possible. */
  method DeleteExternalResources(
    names: set<string>, containerName: string, objectName: string, services: nat, failing: set<string>)
    returns (left: set<string>, ok: bool)
    ensures ok <==> containerName !in failing
    ensures !ok ==> left == names
    ensures ok ==> containerName !in left
    ensures ok ==> left == names - {containerName}
                           - (TunnelNames(containerName, objectName, if services > 10 then services else 10) - failing)
                           - ({containerName + "-tunnel"} - failing)
  {
    if containerName in failing {
      return names, false;
    }
    left := names - {containerName};
    var maxPorts := 10;
    if services > maxPorts {
      maxPorts := services;
    }
    for i := 0 to maxPorts
      invariant left == names - {containerName} - (TunnelNames(containerName, objectName, i) - failing)
    {
      var a, b := TunnelName(containerName, i), TunnelName(objectName, i);
      assert TunnelNames(containerName, objectName, i + 1) == TunnelNames(containerName, objectName, i) + {a, b};
      if a !in failing {
        left := left - {a};
      }
      if b !in failing {
        left := left - {b};
      }
    }
    var legacy := containerName + "-tunnel";
    if legacy !in failing {
      left := left - {legacy};
    }
    ok := true;
  }
}
