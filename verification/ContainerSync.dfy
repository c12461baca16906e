/** `syncContainer` of internal/controller/dockercontainer/reconciler.go against a Docker host: find the
    container by name, start it, compare its configuration with the spec and replace it on drift. */
module ContainerSync {
  import opened Wrappers
  import opened GoStrings
  import MemoryLimit

  /** The CPU limit is taken as already converted to nano CPUs. */
  datatype Resources = Resources(nanoCPUs: int, memoryLimit: string)

  datatype Volume = Volume(hostPath: string, containerPath: string, readOnly: bool)

  /** A health check; a duration is None when its text is empty or does not parse. */
  datatype HealthCheck = HealthCheck(test: seq<string>, interval: Option<int>, timeout: Option<int>, retries: int)
  datatype HealthConfig = HealthConfig(test: seq<string>, interval: int, timeout: int, retries: int)

  /** `envVars` are the entries of spec.envVars with their secrets filled in. */
  datatype Spec = Spec(
    name: string,
    image: string,
    command: seq<string>,
    env: seq<string>,
    envVars: seq<string>,
    restartPolicy: string,
    resources: Option<Resources>,
    volumes: seq<Volume>,
    ports: seq<string>,
    healthCheck: Option<HealthCheck>)

  datatype Config = Config(
    image: string, cmd: seq<string>, env: seq<string>, restart: string, nanoCPUs: int, memory: int,
    binds: seq<string>, ports: map<string, string>, health: Option<HealthConfig>)

  datatype Box = Box(id: nat, names: seq<string>, state: string, config: Config)

  /** The host's containers and what was asked of it, as in the repository's mock client. */
  datatype Host = Host(boxes: seq<Box>, nextId: nat, created: seq<string>, started: seq<nat>, removed: seq<nat>)

  /** Which calls of one sync succeed. */
  datatype Calls = Calls(
    list: bool, inspect: bool, report: bool, start: bool, stop: bool, remove: bool,
    pull: bool, create: bool, upload: bool, startNew: bool)

  const ALL_OK := Calls(true, true, true, true, true, true, true, true, true, true)

  /** What the daemon adds on its own: the image's environment and command, a restart policy when none is
      asked for, and a name for an unnamed container. `portKeys` are the keys of valid port numbers. */
  datatype Daemon = Daemon(
    imageEnv: seq<string>, imageCmd: seq<string>, restart: string, generated: string,
    portKeys: map<string, string>)

  // Configuration

  function CommandOf(spec: Spec, d: Daemon): seq<string> {
    if spec.command == [] then d.imageCmd else spec.command
  }

  function RestartOf(spec: Spec, d: Daemon): string {
    if spec.restartPolicy == "" then d.restart else ToLower(spec.restartPolicy)
  }

  function BindOf(v: Volume): string {
    v.hostPath + ":" + v.containerPath + (if v.readOnly then ":ro" else "")
  }

  function BindsOf(volumes: seq<Volume>): (r: seq<string>)
    ensures |r| == |volumes| && forall i :: 0 <= i < |volumes| ==> r[i] == BindOf(volumes[i])
  {
    seq(|volumes|, i requires 0 <= i < |volumes| => BindOf(volumes[i]))
  }

  /** A container port and the host port it is bound to. */
  datatype Binding = Binding(key: string, host: string)

  /** What "host:container" asks for; None for any other text or an invalid container port. */
  function BindingOf(port: string, keys: map<string, string>): Option<Binding> {
    var parts := Split(port, ':');
    if |parts| == 2 && parts[1] in keys then Some(Binding(keys[parts[1]], parts[0])) else None
  }

  function Asked(ports: seq<string>, keys: map<string, string>): seq<Option<Binding>> {
    seq(|ports|, i requires 0 <= i < |ports| => BindingOf(ports[i], keys))
  }

  function Collect(asked: seq<Option<Binding>>): map<string, string> {
    if asked == [] then map[]
    else
      var earlier, last := Collect(asked[..|asked| - 1]), asked[|asked| - 1];
      if last.Some? then earlier[last.value.key := last.value.host] else earlier
  }

  function PortBindings(ports: seq<string>, keys: map<string, string>): map<string, string> {
    Collect(Asked(ports, keys))
  }

  function HealthOf(h: Option<HealthCheck>): Option<HealthConfig> {
    match h
    case None => None
    case Some(hc) =>
      Some(HealthConfig(
        hc.test,
        if hc.interval.Some? then hc.interval.value else 0,
        if hc.timeout.Some? then hc.timeout.value else 0,
        if hc.retries > 0 then hc.retries else 0))
  }

  /** The configuration the daemon reports for a container made from the spec. */
  function Desired(spec: Spec, d: Daemon): Config {
    Config(
      spec.image,
      CommandOf(spec, d),
      spec.env + spec.envVars + d.imageEnv,
      RestartOf(spec, d),
      if spec.resources.Some? then spec.resources.value.nanoCPUs else 0,
      if spec.resources.Some? then MemoryBytes(spec.resources.value) else 0,
      BindsOf(spec.volumes),
      PortBindings(spec.ports, d.portKeys),
      HealthOf(spec.healthCheck))
  }

  predicate Concerns(asked: Option<Binding>, key: string) {
    asked.Some? && asked.value.key == key
  }

  /** Entry i is the last valid one for this container port, and asks for that host port. */
  predicate LastFor(asked: seq<Option<Binding>>, key: string, host: string, i: nat)
    requires i < |asked|
  {
    asked[i] == Some(Binding(key, host)) && forall j :: i < j < |asked| ==> !Concerns(asked[j], key)
  }

  ghost predicate SomeLastFor(asked: seq<Option<Binding>>, key: string, host: string) {
    exists i: nat :: i < |asked| && LastFor(asked, key, host, i)
  }

  lemma OneMoreAsked(asked: seq<Option<Binding>>, last: Option<Binding>, key: string, host: string)
    ensures SomeLastFor(asked + [last], key, host) <==>
            if Concerns(last, key) then last.value.host == host else SomeLastFor(asked, key, host)
  {
    var all := asked + [last];
    if Concerns(last, key) {
      if last.value.host == host {
        assert LastFor(all, key, host, |asked|);
      }
      forall i: nat | i < |asked| ensures !LastFor(all, key, host, i) {
        assert Concerns(all[|asked|], key);
      }
    } else {
      forall i: nat | i < |asked| ensures LastFor(asked, key, host, i) <==> LastFor(all, key, host, i) {
        SameLast(asked, last, key, host, i);
      }
      if i: nat :| i < |asked| && LastFor(asked, key, host, i) {
        assert LastFor(all, key, host, i);
      }
    }
  }

  lemma SameLast(asked: seq<Option<Binding>>, last: Option<Binding>, key: string, host: string, i: nat)
    requires i < |asked| && !Concerns(last, key)
    ensures LastFor(asked, key, host, i) <==> LastFor(asked + [last], key, host, i)
  {
    var all := asked + [last];
    assert forall j :: 0 <= j < |asked| ==> all[j] == asked[j];
  }

  lemma {:induction false} CollectLast(asked: seq<Option<Binding>>, key: string, host: string)
    ensures key in Collect(asked) && Collect(asked)[key] == host <==> SomeLastFor(asked, key, host)
  {
    if asked != [] {
      var n := |asked| - 1;
      CollectLast(asked[..n], key, host);
      assert asked == asked[..n] + [asked[n]];
      OneMoreAsked(asked[..n], asked[n], key, host);
    }
  }

  /** The text is "host:container", and the container port is valid and has this key. */
  ghost predicate Asks(port: string, keys: map<string, string>, key: string, host: string) {
    exists c :: c in keys && keys[c] == key && ':' !in host && ':' !in c && port == host + [':'] + c
  }

  /** A text binds a container port to a host port exactly if it says "host:container". */
  lemma BindingExactly(port: string, keys: map<string, string>, key: string, host: string)
    ensures BindingOf(port, keys) == Some(Binding(key, host)) <==> Asks(port, keys, key, host)
  {
    var parts := Split(port, ':');
    if BindingOf(port, keys) == Some(Binding(key, host)) {
      assert parts == [parts[0], parts[1]];
      SplitInTwo(port, ':', parts[0], parts[1]);
    }
    if c :| c in keys && keys[c] == key && ':' !in host && ':' !in c && port == host + [':'] + c {
      SplitInTwo(port, ':', host, c);
    }
  }

  /** Entry i is the last valid one for this container port, as the texts say. */
  ghost predicate AsksLast(ports: seq<string>, keys: map<string, string>, key: string, host: string, i: nat)
    requires i < |ports|
  {
    Asks(ports[i], keys, key, host) && forall j, h :: i < j < |ports| ==> !Asks(ports[j], keys, key, h)
  }

  lemma LastOnTexts(ports: seq<string>, keys: map<string, string>, key: string, host: string, i: nat)
    requires i < |ports|
    ensures LastFor(Asked(ports, keys), key, host, i) <==> AsksLast(ports, keys, key, host, i)
  {
    var asked := Asked(ports, keys);
    BindingExactly(ports[i], keys, key, host);
    forall j | i < j < |ports| ensures Concerns(asked[j], key) <==> exists h :: Asks(ports[j], keys, key, h) {
      if Concerns(asked[j], key) {
        BindingExactly(ports[j], keys, key, asked[j].value.host);
      }
      if h :| Asks(ports[j], keys, key, h) {
        BindingExactly(ports[j], keys, key, h);
      }
    }
  }

  /** A container port is bound to a host port exactly if the last valid entry for it says so. */
  lemma LastMappingWins(ports: seq<string>, keys: map<string, string>, key: string, host: string)
    ensures key in PortBindings(ports, keys) && PortBindings(ports, keys)[key] == host <==>
            exists i: nat :: i < |ports| && AsksLast(ports, keys, key, host, i)
  {
    CollectLast(Asked(ports, keys), key, host);
    if i: nat :| i < |ports| && LastFor(Asked(ports, keys), key, host, i) {
      LastOnTexts(ports, keys, key, host, i);
    }
    if i: nat :| i < |ports| && AsksLast(ports, keys, key, host, i) {
      LastOnTexts(ports, keys, key, host, i);
    }
  }

  /** Paths without colons are found again in the bind's text, host first, and "ro" only if asked for. */
  lemma BindText(v: Volume)
    requires ':' !in v.hostPath && ':' !in v.containerPath
    ensures Split(BindOf(v), ':') == [v.hostPath, v.containerPath] + (if v.readOnly then ["ro"] else [])
  {
    if v.readOnly {
      assert BindOf(v) == v.hostPath + [':'] + (v.containerPath + [':'] + "ro");
      SplitPart(v.hostPath, v.containerPath + [':'] + "ro", ':');
      SplitPart(v.containerPath, "ro", ':');
      SplitPart("ro", "", ':');
    } else {
      assert BindOf(v) == v.hostPath + [':'] + v.containerPath;
      SplitPart(v.hostPath, v.containerPath, ':');
      SplitPart(v.containerPath, "", ':');
    }
  }

  /** A health check that is complete is taken over as it is; missing durations and retries count as zero. */
  lemma HealthExactly(test: seq<string>, interval: int, timeout: int, retries: int)
    ensures HealthOf(None) == None
    ensures retries > 0 ==> HealthOf(Some(HealthCheck(test, Some(interval), Some(timeout), retries)))
                            == Some(HealthConfig(test, interval, timeout, retries))
    ensures HealthOf(Some(HealthCheck(test, None, Some(timeout), retries))).value.interval == 0
    ensures HealthOf(Some(HealthCheck(test, Some(interval), None, retries))).value.timeout == 0
    ensures retries <= 0 ==> HealthOf(Some(HealthCheck(test, None, None, retries))).value.retries == 0
  {
  }

  /** A container is created with what the spec asks for, whatever the daemon adds. */
  lemma CreatedAsAsked(spec: Spec, d: Daemon)
    ensures var c := Desired(spec, d);
            && c.image == spec.image && (spec.command != [] ==> c.cmd == spec.command)
            && (forall e :: e in spec.env || e in spec.envVars ==> e in c.env)
            && spec.env + spec.envVars <= c.env
            && (spec.restartPolicy != "" ==> c.restart == ToLower(spec.restartPolicy))
            && (spec.resources.Some? ==> c.nanoCPUs == spec.resources.value.nanoCPUs)
            && (spec.resources.Some? && spec.resources.value.memoryLimit != "" ==>
                  c.memory == MemoryLimit.Strict(spec.resources.value.memoryLimit))
            && (spec.resources.None? || spec.resources.value.memoryLimit == "" ==> c.memory == 0)
            && (spec.resources.None? ==> c.nanoCPUs == 0)
            && |c.binds| == |spec.volumes|
            && (forall i :: 0 <= i < |c.binds| ==> c.binds[i] == BindOf(spec.volumes[i]))
            && c.ports == PortBindings(spec.ports, d.portKeys) && c.health == HealthOf(spec.healthCheck)
  {
  }

  function MemoryBytes(r: Resources): int {
    if r.memoryLimit == "" then 0 else MemoryLimit.Strict(r.memoryLimit)
  }

  predicate ConfigDrifted(config: Config, spec: Spec) {
    || config.image != spec.image
    || (spec.command != [] && config.cmd != spec.command)
    || exists e :: e in spec.env && e !in config.env
  }

  predicate HostConfigDrifted(config: Config, spec: Spec) {
    || (spec.restartPolicy != "" && ToLower(config.restart) != ToLower(spec.restartPolicy))
    || (spec.resources.Some? && spec.resources.value.nanoCPUs != config.nanoCPUs)
    || (spec.resources.Some? && MemoryBytes(spec.resources.value) != config.memory)
  }

  predicate Drifted(config: Config, spec: Spec) {
    ConfigDrifted(config, spec) || HostConfigDrifted(config, spec)
  }

  /** A container made from a spec does not drift from it, whatever the image adds. */
  lemma FreshDoesNotDrift(spec: Spec, d: Daemon)
    ensures !Drifted(Desired(spec, d), spec)
  {
    ToLowerTwice(spec.restartPolicy);
  }

  // The host

  predicate Named(b: Box, name: string) {
    name in b.names
  }

  function Find(boxes: seq<Box>, name: string): (r: Option<Box>)
    ensures r.Some? ==> r.value in boxes && Named(r.value, name)
    ensures r.None? ==> forall b :: b in boxes ==> !Named(b, name)
  {
    if boxes == [] then None
    else if Named(boxes[0], name) then Some(boxes[0])
    else Find(boxes[1..], name)
  }

  /** Identities are used once and names belong to one container; Docker gives no empty name. */
  ghost predicate ValidHost(h: Host) {
    && (forall b :: b in h.boxes ==> b.id < h.nextId && "/" !in b.names)
    && OneEach(h.boxes)
  }

  ghost predicate OneEach(boxes: seq<Box>) {
    forall i, j :: 0 <= i < j < |boxes| ==> boxes[i].id != boxes[j].id && Apart(boxes[i], boxes[j])
  }

  ghost predicate Apart(a: Box, b: Box) {
    forall n :: n in a.names ==> n !in b.names
  }

  /** The containers that do not carry the name. */
  function Others(boxes: seq<Box>, name: string): seq<Box> {
    if boxes == [] then []
    else (if Named(boxes[0], name) then [] else [boxes[0]]) + Others(boxes[1..], name)
  }

  function InState(boxes: seq<Box>, id: nat, state: string): seq<Box> {
    if boxes == [] then []
    else [if boxes[0].id == id then boxes[0].(state := state) else boxes[0]] + InState(boxes[1..], id, state)
  }

  function Removed(boxes: seq<Box>, id: nat): seq<Box> {
    if boxes == [] then []
    else (if boxes[0].id == id then [] else [boxes[0]]) + Removed(boxes[1..], id)
  }

  function StartIn(h: Host, id: nat): Host {
    h.(boxes := InState(h.boxes, id, "running"), started := h.started + [id])
  }

  function StopIn(h: Host, id: nat): Host {
    h.(boxes := InState(h.boxes, id, "exited"))
  }

  function RemoveIn(h: Host, id: nat): Host {
    h.(boxes := Removed(h.boxes, id), removed := h.removed + [id])
  }

  function NameGiven(spec: Spec, d: Daemon): string {
    "/" + (if spec.name == "" then d.generated else spec.name)
  }

  function CreateIn(h: Host, spec: Spec, d: Daemon): Host {
    h.(boxes := h.boxes + [Box(h.nextId, [NameGiven(spec, d)], "created", Desired(spec, d))],
       nextId := h.nextId + 1,
       created := h.created + [spec.name])
  }

  function CreateAndStart(h: Host, spec: Spec, f: Calls, d: Daemon): (Host, bool) {
    if !f.pull || !f.create || Find(h.boxes, NameGiven(spec, d)).Some? then (h, false)
    else
      var h1 := CreateIn(h, spec, d);
      if f.upload && f.startNew then (StartIn(h1, h.nextId), true) else (h1, false)
  }

  function Sync(h: Host, spec: Spec, f: Calls, d: Daemon): (Host, bool) {
    if !f.list then (h, false)
    else
      match Find(h.boxes, "/" + spec.name)
      case None => CreateAndStart(h, spec, f, d)
      case Some(b) => SyncFound(h, b, spec, f, d)
  }

  /** The host once the container that was found is running. */
  function Running(h: Host, b: Box): Host {
    if b.state != "running" then StartIn(h, b.id) else h
  }

  function SyncFound(h: Host, b: Box, spec: Spec, f: Calls, d: Daemon): (Host, bool) {
    if b.state != "running" && !f.start then (h, false)
    else if !(f.inspect && Drifted(b.config, spec)) then (Running(h, b), true)
    else
      var h1 := if f.stop then StopIn(Running(h, b), b.id) else Running(h, b);
      if !f.remove then (h1, false) else CreateAndStart(RemoveIn(h1, b.id), spec, f, d)
  }

  // The status of the object

  datatype Status = Status(id: Option<nat>, state: string, health: string, ipv4: string)

  /** What an inspection says; None where the daemon leaves it out. */
  datatype Report = Report(health: Option<string>, ipv4: Option<string>)

  function Update(known: string, seen: Option<string>, inspected: bool): string {
    if inspected && seen.Some? then seen.value else known
  }

  /** The stored status after a sync: what was found before anything was started or replaced. */
  function StatusAfter(h: Host, s: Status, spec: Spec, f: Calls, r: Report): Status {
    if !f.list || !f.report then s
    else
      match Find(h.boxes, "/" + spec.name)
      case None => s
      case Some(b) =>
        Status(Some(b.id), b.state, Update(s.health, r.health, f.inspect), Update(s.ipv4, r.ipv4, f.inspect))
  }

  // Lists of containers

  ghost predicate OnlyNamed(boxes: seq<Box>, id: nat, name: string) {
    forall b :: b in boxes && b.id == id ==> Named(b, name)
  }

  /** Starting or stopping the container of a name changes only its state. */
  lemma {:induction false} StateFacts(boxes: seq<Box>, id: nat, name: string, state: string)
    requires OnlyNamed(boxes, id, name)
    ensures Others(InState(boxes, id, state), name) == Others(boxes, name)
    ensures |InState(boxes, id, state)| == |boxes|
    ensures forall i :: 0 <= i < |boxes| ==>
              InState(boxes, id, state)[i] == if boxes[i].id == id then boxes[i].(state := state) else boxes[i]
  {
    if boxes != [] {
      assert boxes == [boxes[0]] + boxes[1..];
      StateFacts(boxes[1..], id, name, state);
      var rest := InState(boxes[1..], id, state);
      assert ([if boxes[0].id == id then boxes[0].(state := state) else boxes[0]] + rest)[1..] == rest;
    }
  }

  lemma {:induction false} RemovedOthers(boxes: seq<Box>, id: nat, name: string)
    requires OnlyNamed(boxes, id, name)
    ensures Others(Removed(boxes, id), name) == Others(boxes, name)
  {
    if boxes != [] {
      var h, rest := boxes[0], boxes[1..];
      assert h in boxes;
      RemovedOthers(rest, id, name);
      if h.id != id {
        assert ([h] + Removed(rest, id))[1..] == Removed(rest, id);
      } else {
        assert Removed(boxes, id) == Removed(rest, id);
      }
    }
  }

  lemma {:induction false} RemovedMembers(boxes: seq<Box>, id: nat)
    ensures forall b :: b in Removed(boxes, id) <==> b in boxes && b.id != id
    ensures OneEach(boxes) ==> OneEach(Removed(boxes, id))
  {
    if boxes != [] {
      var h, rest := boxes[0], boxes[1..];
      assert boxes == [h] + rest;
      RemovedMembers(rest, id);
      if h.id != id && OneEach(boxes) {
        forall b | b in Removed(rest, id) ensures h.id != b.id && Apart(h, b) {
          assert b in rest;
        }
      }
    }
  }

  lemma {:induction false} OthersSnoc(boxes: seq<Box>, b: Box, name: string)
    requires Named(b, name)
    ensures Others(boxes + [b], name) == Others(boxes, name)
  {
    if boxes == [] {
      assert boxes + [b] == [b];
      assert [b][1..] == [];
    } else {
      assert (boxes + [b])[1..] == boxes[1..] + [b];
      OthersSnoc(boxes[1..], b, name);
    }
  }

  lemma {:induction false} FindSnoc(boxes: seq<Box>, b: Box, name: string)
    requires Find(boxes, name).None? && Named(b, name)
    ensures Find(boxes + [b], name) == Some(b)
  {
    if boxes != [] {
      assert boxes[0] in boxes;
      assert (boxes + [b])[1..] == boxes[1..] + [b];
      FindSnoc(boxes[1..], b, name);
    }
  }

  /** A name or identity picks out one container. */
  lemma OneOfEach(h: Host, a: Box, b: Box, name: string)
    requires ValidHost(h) && a in h.boxes && b in h.boxes
    requires a.id == b.id || (Named(a, name) && Named(b, name))
    ensures a == b
  {
  }

  // One sync, whatever fails

  lemma StateKeeps(h: Host, b: Box, name: string, state: string)
    requires ValidHost(h) && b in h.boxes && Named(b, name)
    ensures var boxes := InState(h.boxes, b.id, state);
            && ValidHost(h.(boxes := boxes)) && Others(boxes, name) == Others(h.boxes, name)
            && Find(boxes, name) == Some(b.(state := state))
  {
    IdIsNamed(h, b, name);
    StateFacts(h.boxes, b.id, name, state);
    StateIsFound(h, b, name, state);
    StateIsValid(h, b, name, state);
  }

  lemma StartKeeps(h: Host, b: Box, name: string)
    requires ValidHost(h) && b in h.boxes && Named(b, name)
    ensures var t := StartIn(h, b.id);
            && ValidHost(t) && Others(t.boxes, name) == Others(h.boxes, name)
            && Find(t.boxes, name) == Some(b.(state := "running"))
  {
    StateKeeps(h, b, name, "running");
  }

  lemma RunningKeeps(h: Host, b: Box, name: string)
    requires ValidHost(h) && b in h.boxes && Named(b, name) && Find(h.boxes, name) == Some(b)
    ensures var t := Running(h, b);
            && ValidHost(t) && Others(t.boxes, name) == Others(h.boxes, name)
            && Find(t.boxes, name) == Some(b.(state := "running"))
  {
    StartKeeps(h, b, name);
  }

  /** Stopping, if it works, and removing. */
  lemma ReplaceKeeps(h: Host, b: Box, name: string, stopped: bool)
    requires ValidHost(h) && b in h.boxes && Named(b, name)
    ensures var t := if stopped then StopIn(h, b.id) else h;
            && ValidHost(t) && Others(t.boxes, name) == Others(h.boxes, name)
            && var u := RemoveIn(t, b.id);
               ValidHost(u) && Others(u.boxes, name) == Others(h.boxes, name) && Find(u.boxes, name).None?
  {
    if stopped {
      StateKeeps(h, b, name, "exited");
      RemoveKeeps(StopIn(h, b.id), b.(state := "exited"), name);
    } else {
      RemoveKeeps(h, b, name);
    }
  }

  lemma IdIsNamed(h: Host, b: Box, name: string)
    requires ValidHost(h) && b in h.boxes && Named(b, name)
    ensures OnlyNamed(h.boxes, b.id, name)
  {
    forall a | a in h.boxes && a.id == b.id ensures Named(a, name) {
      OneOfEach(h, a, b, name);
    }
  }

  lemma StateIsValid(h: Host, b: Box, name: string, state: string)
    requires ValidHost(h) && OnlyNamed(h.boxes, b.id, name)
    ensures ValidHost(h.(boxes := InState(h.boxes, b.id, state)))
  {
    StateFacts(h.boxes, b.id, name, state);
    var boxes := InState(h.boxes, b.id, state);
    forall i | 0 <= i < |boxes| ensures boxes[i].id < h.nextId && "/" !in boxes[i].names {
      assert h.boxes[i] in h.boxes;
    }
    forall i, j | 0 <= i < j < |boxes| ensures boxes[i].id != boxes[j].id && Apart(boxes[i], boxes[j]) {
      assert Apart(h.boxes[i], h.boxes[j]);
    }
  }

  lemma StateIsFound(h: Host, b: Box, name: string, state: string)
    requires ValidHost(h) && b in h.boxes && Named(b, name)
    ensures Find(InState(h.boxes, b.id, state), name) == Some(b.(state := state))
  {
    IdIsNamed(h, b, name);
    StateFacts(h.boxes, b.id, name, state);
    var boxes := InState(h.boxes, b.id, state);
    var i :| 0 <= i < |h.boxes| && h.boxes[i] == b;
    assert boxes[i] == b.(state := state) && boxes[i] in boxes;
    var r := Find(boxes, name);
    var j :| 0 <= j < |boxes| && boxes[j] == r.value;
    assert h.boxes[j] in h.boxes && Named(h.boxes[j], name);
    OneOfEach(h, h.boxes[j], b, name);
  }

  lemma RemoveKeeps(h: Host, b: Box, name: string)
    requires ValidHost(h) && b in h.boxes && Named(b, name)
    ensures var t := RemoveIn(h, b.id);
            && ValidHost(t) && Others(t.boxes, name) == Others(h.boxes, name) && Find(t.boxes, name).None?
  {
    IdIsNamed(h, b, name);
    RemovedOthers(h.boxes, b.id, name);
    RemovedMembers(h.boxes, b.id);
    var t := RemoveIn(h, b.id);
    if Find(t.boxes, name).Some? {
      OneOfEach(h, Find(t.boxes, name).value, b, name);
    }
  }

  lemma CreateKeeps(h: Host, spec: Spec, d: Daemon, name: string)
    requires ValidHost(h) && name == NameGiven(spec, d) != "/" && Find(h.boxes, name).None?
    ensures var t := CreateIn(h, spec, d);
            && ValidHost(t) && Others(t.boxes, name) == Others(h.boxes, name)
            && Find(t.boxes, name) == Some(Box(h.nextId, [name], "created", Desired(spec, d)))
  {
    var b := Box(h.nextId, [name], "created", Desired(spec, d));
    OthersSnoc(h.boxes, b, name);
    FindSnoc(h.boxes, b, name);
    OneMoreIsValid(h, b, name);
  }

  lemma OneMoreIsValid(h: Host, b: Box, name: string)
    requires ValidHost(h) && b.id == h.nextId && b.names == [name] && name != "/" && Find(h.boxes, name).None?
    ensures ValidHost(h.(boxes := h.boxes + [b], nextId := h.nextId + 1))
  {
    forall a | a in h.boxes ensures a.id != b.id && Apart(a, b) {
    }
  }

  /** A created and started container is running and does not drift. */
  lemma CreateAndStartWorks(h: Host, spec: Spec, d: Daemon, name: string)
    requires ValidHost(h) && name == NameGiven(spec, d) != "/" && Find(h.boxes, name).None?
    ensures var (t, ok) := CreateAndStart(h, spec, ALL_OK, d);
            && ok && InSync(t, spec, name) && Others(t.boxes, name) == Others(h.boxes, name)
            && |t.boxes| == |h.boxes| + 1
  {
    CreateKeeps(h, spec, d, name);
    var h1 := CreateIn(h, spec, d);
    var b := Find(h1.boxes, name).value;
    StartKeeps(h1, b, name);
    IdIsNamed(h1, b, name);
    StateFacts(h1.boxes, b.id, name, "running");
    FreshDoesNotDrift(spec, d);
  }

  // The fixpoint

  /** The host runs one container of that name, as the spec wants it. */
  ghost predicate InSync(h: Host, spec: Spec, name: string) {
    && ValidHost(h)
    && var r := Find(h.boxes, name);
       r.Some? && r.value.state == "running" && !Drifted(r.value.config, spec)
  }

  /** From every host state, one sync without errors reaches a state in sync and touches no other
      container. */
  lemma SyncReachesSpec(h: Host, spec: Spec, d: Daemon)
    requires ValidHost(h) && spec.name != ""
    ensures var (t, ok) := Sync(h, spec, ALL_OK, d);
            && ok && InSync(t, spec, "/" + spec.name)
            && Others(t.boxes, "/" + spec.name) == Others(h.boxes, "/" + spec.name)
  {
    var name := "/" + spec.name;
    match Find(h.boxes, name) {
      case None => CreateAndStartWorks(h, spec, d, name);
      case Some(b) =>
        RunningKeeps(h, b, name);
        if Drifted(b.config, spec) {
          ReplaceKeeps(Running(h, b), b.(state := "running"), name, true);
          CreateAndStartWorks(RemoveIn(StopIn(Running(h, b), b.id), b.id), spec, d, name);
        }
    }
  }

  /** Success means what it says: a sync that reports success left the container running, and in sync with
      the spec if it could inspect it; one that reports failure had a call that failed. */
  lemma SuccessIsReal(h: Host, spec: Spec, f: Calls, d: Daemon)
    requires ValidHost(h) && spec.name != ""
    ensures var (t, ok) := Sync(h, spec, f, d);
            && (ok ==> Find(t.boxes, "/" + spec.name).Some? && Find(t.boxes, "/" + spec.name).value.state == "running")
            && (ok && f.inspect ==> InSync(t, spec, "/" + spec.name))
            && (!ok ==> !(f.list && f.start && f.remove && f.pull && f.create && f.upload && f.startNew))
  {
    var name := "/" + spec.name;
    match Find(h.boxes, name) {
      case None => SuccessfulCreate(h, spec, f, d);
      case Some(b) =>
        RunningKeeps(h, b, name);
        if f.inspect && Drifted(b.config, spec) {
          var h1 := Running(h, b);
          ReplaceKeeps(h1, b.(state := "running"), name, f.stop);
          SuccessfulCreate(RemoveIn(if f.stop then StopIn(h1, b.id) else h1, b.id), spec, f, d);
        }
    }
  }

  lemma SuccessfulCreate(h: Host, spec: Spec, f: Calls, d: Daemon)
    requires ValidHost(h) && spec.name != "" && Find(h.boxes, "/" + spec.name).None?
    ensures var (t, ok) := CreateAndStart(h, spec, f, d);
            && (ok <==> f.pull && f.create && f.upload && f.startNew)
            && (ok ==> InSync(t, spec, "/" + spec.name))
            && (ok ==> t.created == h.created + [spec.name] && t.started == h.started + [h.nextId]
                       && t.removed == h.removed)
  {
    CreateAndStartWorks(h, spec, d, "/" + spec.name);
  }

  /** A host in sync is left exactly as it is: nothing is created, started or removed. */
  lemma SyncedIsFixpoint(h: Host, spec: Spec, f: Calls, d: Daemon)
    requires InSync(h, spec, "/" + spec.name)
    ensures Sync(h, spec, f, d).0 == h
  {
  }

  /** The stored status is the identity and state of the container as it was found, before the sync started
      or replaced it; without a container, a listing or a write it stays as it was. */
  lemma StatusIsWhatWasFound(h: Host, s: Status, spec: Spec, f: Calls, r: Report)
    ensures var t, b := StatusAfter(h, s, spec, f, r), Find(h.boxes, "/" + spec.name);
            if b.Some? && f.list && f.report
            then t.id == Some(b.value.id) && t.state == b.value.state
                 && (!f.inspect ==> t.health == s.health && t.ipv4 == s.ipv4)
            else t == s
  {
  }

  /** A drifted container that cannot be removed is left behind, stopped exactly if the stop succeeded. */
  lemma FailedReplacement(h: Host, b: Box, spec: Spec, f: Calls, d: Daemon)
    requires ValidHost(h) && Find(h.boxes, "/" + spec.name) == Some(b) && b.state == "running"
    requires f.list && f.inspect && Drifted(b.config, spec) && !f.remove
    ensures var (t, ok) := Sync(h, spec, f, d);
            && !ok
            && Find(t.boxes, "/" + spec.name) == Some(if f.stop then b.(state := "exited") else b)
  {
    StateKeeps(h, b, "/" + spec.name, "exited");
  }

  /** The status lags one sync behind: after two error-free syncs it shows the running container. */
  lemma StatusCatchesUp(h: Host, spec: Spec, d: Daemon, e: Daemon, s: Status, r: Report)
    requires ValidHost(h) && spec.name != ""
    ensures var h1 := Sync(h, spec, ALL_OK, d).0;
            var h2, s2 := Sync(h1, spec, ALL_OK, e).0, StatusAfter(h1, s, spec, ALL_OK, r);
            var b := Find(h2.boxes, "/" + spec.name);
            && b.Some? && s2.id == Some(b.value.id) && s2.state == b.value.state == "running"
            && s2.health == (if r.health.Some? then r.health.value else s.health)
            && s2.ipv4 == (if r.ipv4.Some? then r.ipv4.value else s.ipv4)
  {
    SyncReachesSpec(h, spec, d);
    SyncedIsFixpoint(Sync(h, spec, ALL_OK, d).0, spec, ALL_OK, e);
  }

  /** What of a changed spec is noticed on a container made from the old one. Dropped environment entries,
      a cleared command, restart policy or resources, and all changes of `envVars`, volumes, ports and
      health check are not. */
  predicate Noticed(before: Spec, after: Spec, d: Daemon) {
    || after.image != before.image
    || (after.command != [] && after.command != CommandOf(before, d))
    || (exists e :: e in after.env && e !in before.env && e !in before.envVars && e !in d.imageEnv)
    || (after.restartPolicy != "" && ToLower(after.restartPolicy) != ToLower(RestartOf(before, d)))
    || (after.resources.Some? && LimitsOf(after.resources) != LimitsOf(before.resources))
  }

  function LimitsOf(r: Option<Resources>): (int, int) {
    if r.Some? then (r.value.nanoCPUs, MemoryBytes(r.value)) else (0, 0)
  }

  lemma DriftIsNoticed(before: Spec, after: Spec, d: Daemon)
    ensures Drifted(Desired(before, d), after) <==> Noticed(before, after, d)
  {
    forall e ensures e in Desired(before, d).env <==> e in before.env || e in before.envVars || e in d.imageEnv {
    }
  }

  /** A host that runs the old spec is left exactly as it is by an error-free sync of the new one if and
      only if nothing of the change is noticed. */
  lemma ChangeAppliedExactly(h: Host, b: Box, before: Spec, after: Spec, d: Daemon, e: Daemon)
    requires Find(h.boxes, "/" + after.name) == Some(b)
    requires b.state == "running" && b.config == Desired(before, d)
    ensures Sync(h, after, ALL_OK, e).0 == h <==> !Noticed(before, after, d)
  {
    DriftIsNoticed(before, after, d);
    if Drifted(b.config, after) {
      var h2 := RemoveIn(StopIn(h, b.id), b.id);
      assert |CreateAndStart(h2, after, ALL_OK, e).0.removed| == |h.removed| + 1;
    }
  }

  /** An unnamed spec is never found again, so every sync makes one more container. */
  lemma UnnamedLeaks(h: Host, spec: Spec, d: Daemon)
    requires ValidHost(h) && spec.name == "" && d.generated != "" && Find(h.boxes, "/" + d.generated).None?
    ensures var (t, ok) := Sync(h, spec, ALL_OK, d); ok && ValidHost(t) && |t.boxes| == |h.boxes| + 1
  {
    assert "/" + spec.name == "/";
    assert Find(h.boxes, "/").None?;
    CreateAndStartWorks(h, spec, d, "/" + d.generated);
  }

  /** Two syncs do what one does exactly when the spec names its container. */
  lemma FixpointExactly(h: Host, spec: Spec, d: Daemon, e: Daemon)
    requires ValidHost(h)
    requires d.generated != "" && Find(h.boxes, "/" + d.generated).None?
    requires e.generated != "" && Find(Sync(h, spec, ALL_OK, d).0.boxes, "/" + e.generated).None?
    ensures Sync(Sync(h, spec, ALL_OK, d).0, spec, ALL_OK, e).0 == Sync(h, spec, ALL_OK, d).0 <==> spec.name != ""
  {
    var t := Sync(h, spec, ALL_OK, d).0;
    if spec.name != "" {
      SyncReachesSpec(h, spec, d);
      SyncedIsFixpoint(t, spec, ALL_OK, e);
    } else {
      UnnamedLeaks(h, spec, d);
      UnnamedLeaks(t, spec, e);
    }
  }

  /** Even a sync in which calls fail leaves a well-formed host and touches no other container. */
  lemma FailedSyncIsContained(h: Host, spec: Spec, f: Calls, d: Daemon)
    requires ValidHost(h) && spec.name != ""
    ensures var t := Sync(h, spec, f, d).0;
            ValidHost(t) && Others(t.boxes, "/" + spec.name) == Others(h.boxes, "/" + spec.name)
  {
    var name := "/" + spec.name;
    match Find(h.boxes, name) {
      case None => FailedCreateIsContained(h, spec, f, d);
      case Some(b) =>
        RunningKeeps(h, b, name);
        var h1 := Running(h, b);
        ReplaceKeeps(h1, b.(state := "running"), name, f.stop);
        FailedCreateIsContained(RemoveIn(if f.stop then StopIn(h1, b.id) else h1, b.id), spec, f, d);
    }
  }

  lemma FailedCreateIsContained(h: Host, spec: Spec, f: Calls, d: Daemon)
    requires ValidHost(h) && spec.name != ""
    ensures var t := CreateAndStart(h, spec, f, d).0;
            ValidHost(t) && Others(t.boxes, "/" + spec.name) == Others(h.boxes, "/" + spec.name)
  {
    var name := "/" + spec.name;
    if Find(h.boxes, name).None? {
      CreateKeeps(h, spec, d, name);
      var h1 := CreateIn(h, spec, d);
      StartKeeps(h1, Find(h1.boxes, name).value, name);
    }
  }
}
