/** Deletion on the Docker host: the finalizer protocol of `Finalizer` joined to the containers of
    `ContainerSync`. Deletion removes by the name in the spec, which may be empty. */
module Orphans {
  import opened Wrappers
  import opened ContainerSync
  import opened Finalizer

  /** `mine` are the containers that the reconciler made for this object. */
  datatype Site = Site(core: World, host: Host, mine: set<nat>)

  datatype Move =
    | Core(step: Finalizer.Step)
    | SyncHost(calls: ContainerSync.Calls, daemon: Daemon)
    | RemoveHost(ok: bool)   // ok also when the daemon finds no such container
    | Outside(host: Host)

  predicate OwnLeft(host: Host, mine: set<nat>) {
    exists b :: b in host.boxes && b.id in mine
  }

  /** No container carries the empty name, so nothing is removed by it. */
  function Deleted(host: Host, spec: Spec): Host {
    match Find(host.boxes, "/" + spec.name)
    case Some(b) => if spec.name == "" then host else RemoveIn(host, b.id)
    case None => host
  }

  /** Others use the host as they like, but make no container in the reconciler's name and rename none. */
  ghost predicate OutsideMay(s: Site, host: Host) {
    && ValidHost(host) && s.host.nextId <= host.nextId
    && forall b :: b in host.boxes && b.id in s.mine ==>
         exists a :: a in s.host.boxes && a.id == b.id && a.names == b.names
  }

  predicate OnHost(step: Finalizer.Step) {
    step.SyncCreates? || step.SyncRemoves? || step.RemoveContainer?
  }

  ghost function Go(s: Site, spec: Spec, move: Move): Site {
    match move
    case Core(step) => if OnHost(step) then s else s.(core := Apply(s.core, true, step))
    case SyncHost(f, d) =>
      if s.core.worker != Syncing then s
      else
        var host := Sync(s.host, spec, f, d).0;
        var mine := s.mine + NewIds(s.host, host);
        Site(Apply(s.core, true, if OwnLeft(host, mine) then SyncCreates else SyncRemoves), host, mine)
    case RemoveHost(ok) =>
      if !s.core.worker.Deleting? then s
      else Site(Apply(s.core, true, RemoveContainer(ok)), if ok then Deleted(s.host, spec) else s.host, s.mine)
    case Outside(host) => if OutsideMay(s, host) then s.(host := host) else s
  }

  /** The containers made since. */
  function NewIds(before: Host, after: Host): set<nat> {
    set b | b in after.boxes && b.id >= before.nextId :: b.id
  }

  ghost function GoAll(s: Site, spec: Spec, moves: seq<Move>): Site {
    if moves == [] then s else Go(GoAll(s, spec, moves[..|moves| - 1]), spec, moves[|moves| - 1])
  }

  function Start(host: Host): Site {
    Site(INIT, host, {})
  }

  // Named containers

  ghost predicate OwnNamed(host: Host, mine: set<nat>, name: string) {
    && (forall i :: i in mine ==> i < host.nextId)
    && forall b :: b in host.boxes && b.id in mine ==> Named(b, name)
  }

  ghost predicate Kept(s: Site, spec: Spec) {
    && Inv(s.core) && ValidHost(s.host) && OwnNamed(s.host, s.mine, "/" + spec.name)
    && (OwnLeft(s.host, s.mine) ==> s.core.container)
  }

  lemma {:induction false} OthersMembers(boxes: seq<Box>, name: string, b: Box)
    ensures b in Others(boxes, name) <==> b in boxes && !Named(b, name)
  {
    if boxes != [] {
      OthersMembers(boxes[1..], name, b);
      assert boxes == [boxes[0]] + boxes[1..];
    }
  }

  lemma SyncKeepsOwn(host: Host, mine: set<nat>, spec: Spec, f: ContainerSync.Calls, d: Daemon)
    requires ValidHost(host) && spec.name != "" && OwnNamed(host, mine, "/" + spec.name)
    ensures var t := Sync(host, spec, f, d).0; ValidHost(t) && OwnNamed(t, mine + NewIds(host, t), "/" + spec.name)
  {
    var t, name := Sync(host, spec, f, d).0, "/" + spec.name;
    FailedSyncIsContained(host, spec, f, d);
    forall b | b in t.boxes && b.id in mine + NewIds(host, t) ensures Named(b, name) {
      OthersMembers(t.boxes, name, b);
      OthersMembers(host.boxes, name, b);
    }
  }

  lemma DeletedClears(host: Host, mine: set<nat>, spec: Spec)
    requires ValidHost(host) && spec.name != "" && OwnNamed(host, mine, "/" + spec.name)
    ensures var t := Deleted(host, spec);
            ValidHost(t) && OwnNamed(t, mine, "/" + spec.name) && !OwnLeft(t, mine)
  {
    var name := "/" + spec.name;
    match Find(host.boxes, name) {
      case None =>
      case Some(b) =>
        RemoveKeeps(host, b, name);
        RemovedMembers(host.boxes, b.id);
    }
  }

  lemma OutsideKeeps(s: Site, spec: Spec, host: Host)
    requires Kept(s, spec) && OutsideMay(s, host)
    ensures Kept(s.(host := host), spec)
  {
  }

  lemma GoKeeps(s: Site, spec: Spec, move: Move)
    requires Kept(s, spec) && spec.name != ""
    ensures Kept(Go(s, spec, move), spec)
  {
    match move {
      case Core(step) => StepKeepsInv(s.core, true, step);
      case SyncHost(f, d) =>
        SyncKeepsOwn(s.host, s.mine, spec, f, d);
        StepKeepsInv(s.core, true, SyncCreates);
        StepKeepsInv(s.core, true, SyncRemoves);
      case RemoveHost(ok) =>
        DeletedClears(s.host, s.mine, spec);
        StepKeepsInv(s.core, true, RemoveContainer(ok));
      case Outside(host) =>
        if OutsideMay(s, host) {
          OutsideKeeps(s, spec, host);
        }
    }
  }

  lemma {:induction false} RunKeeps(s: Site, spec: Spec, moves: seq<Move>)
    requires Kept(s, spec) && spec.name != ""
    ensures Kept(GoAll(s, spec, moves), spec)
  {
    if moves != [] {
      RunKeeps(s, spec, moves[..|moves| - 1]);
      GoKeeps(GoAll(s, spec, moves[..|moves| - 1]), spec, moves[|moves| - 1]);
    }
  }

  // Unnamed containers

  lemma Extend(s: Site, spec: Spec, moves: seq<Move>, move: Move) returns (more: seq<Move>)
    ensures more == moves + [move] && GoAll(s, spec, more) == Go(GoAll(s, spec, moves), spec, move)
  {
    more := moves + [move];
    assert more[..|moves|] == moves;
  }

  lemma FirstSyncCreates(host: Host, spec: Spec, d: Daemon)
    requires ValidHost(host) && spec.name == "" && d.generated != "" && Find(host.boxes, "/" + d.generated).None?
    ensures var t := Sync(host, spec, ALL_OK, d).0;
            OwnLeft(t, NewIds(host, t)) && Deleted(t, spec) == t
  {
    var name := "/" + d.generated;
    assert "/" + spec.name == "/" && Find(host.boxes, "/").None?;
    CreateKeeps(host, spec, d, name);
    var h1 := CreateIn(host, spec, d);
    StartKeeps(h1, Find(h1.boxes, name).value, name);
    var t := StartIn(h1, host.nextId);
    assert Find(t.boxes, name).value.id == host.nextId;
  }

  /** A run that ends without the object, but with its container. */
  lemma UnnamedIsOrphaned(host: Host, spec: Spec, d: Daemon) returns (moves: seq<Move>)
    requires ValidHost(host) && spec.name == "" && d.generated != "" && Find(host.boxes, "/" + d.generated).None?
    ensures var t := GoAll(Start(host), spec, moves); t.core.obj == Gone && OwnLeft(t.host, t.mine)
  {
    var s := Start(host);
    moves := CreateRun(host, spec);
    moves := Extend(s, spec, moves, SyncHost(ALL_OK, d));
    FirstSyncCreates(host, spec, d);
    var t := GoAll(s, spec, moves);
    assert t.mine == NewIds(host, t.host);
    moves := DeleteRun(s, spec, moves);
  }

  lemma CreateRun(host: Host, spec: Spec) returns (moves: seq<Move>)
    ensures var t := GoAll(Start(host), spec, moves);
            Guarded(t.core.obj) && t.core.worker == Syncing && t.host == host && t.mine == {}
  {
    moves := Extend(Start(host), spec, [], Core(UserCreates));
    moves := Extend(Start(host), spec, moves, Core(Fetch(true)));
    moves := Extend(Start(host), spec, moves, Core(AddFinalizer(true)));
  }

  lemma DeleteRun(s: Site, spec: Spec, before: seq<Move>) returns (moves: seq<Move>)
    requires var t := GoAll(s, spec, before);
             Guarded(t.core.obj) && t.core.worker == Syncing && Deleted(t.host, spec) == t.host
    ensures var t, u := GoAll(s, spec, before), GoAll(s, spec, moves);
            u.core.obj == Gone && u.host == t.host && u.mine == t.mine
  {
    moves := Extend(s, spec, before, Core(SyncEnds));
    moves := Extend(s, spec, moves, Core(UserDeletes));
    moves := Extend(s, spec, moves, Core(Fetch(true)));
    moves := Extend(s, spec, moves, RemoveHost(true));
    moves := Extend(s, spec, moves, Core(DropFinalizer(true)));
  }

  ghost predicate Has(host: Host, i: nat) {
    exists b :: b in host.boxes && b.id == i
  }

  lemma StartKeepsIds(host: Host, b: Box, name: string, i: nat)
    requires ValidHost(host) && b in host.boxes && Named(b, name) && Has(host, i)
    ensures Has(StartIn(host, b.id), i)
  {
    IdIsNamed(host, b, name);
    StateFacts(host.boxes, b.id, name, "running");
    var k :| 0 <= k < |host.boxes| && host.boxes[k].id == i;
    assert StartIn(host, b.id).boxes[k].id == i;
  }

  /** A sync of an unnamed spec only adds. */
  lemma UnnamedSyncAdds(host: Host, spec: Spec, f: ContainerSync.Calls, d: Daemon)
    requires ValidHost(host) && spec.name == "" && d.generated != ""
    ensures var t := Sync(host, spec, f, d).0; ValidHost(t) && forall i :: Has(host, i) ==> Has(t, i)
  {
    var name := "/" + d.generated;
    assert "/" + spec.name == "/" && Find(host.boxes, "/").None?;
    if Find(host.boxes, name).None? {
      CreateKeeps(host, spec, d, name);
      var h1 := CreateIn(host, spec, d);
      var b := Find(h1.boxes, name).value;
      StartKeeps(h1, b, name);
      forall i | Has(host, i) ensures Has(h1, i) && Has(StartIn(h1, b.id), i) {
        var a :| a in host.boxes && a.id == i;
        assert a in h1.boxes;
        StartKeepsIds(h1, b, name, i);
      }
    }
  }

  ghost predicate AllThere(s: Site) {
    ValidHost(s.host) && forall i :: i in s.mine ==> Has(s.host, i)
  }

  /** Nobody else removes containers, and the daemon gives names. */
  predicate Undisturbed(move: Move) {
    !move.Outside? && (move.SyncHost? ==> move.daemon.generated != "")
  }

  /** Whatever the daemon answers, the containers of an unnamed spec are never removed again. */
  lemma {:induction false} UnnamedIsNeverRemoved(s: Site, spec: Spec, moves: seq<Move>)
    requires AllThere(s) && spec.name == "" && forall i :: 0 <= i < |moves| ==> Undisturbed(moves[i])
    ensures AllThere(GoAll(s, spec, moves))
  {
    if moves != [] {
      var n := |moves| - 1;
      UnnamedIsNeverRemoved(s, spec, moves[..n]);
      var p := GoAll(s, spec, moves[..n]);
      assert Undisturbed(moves[n]);
      if moves[n].SyncHost? {
        UnnamedSyncAdds(p.host, spec, moves[n].calls, moves[n].daemon);
      }
    }
  }

  /** In all runs, with failing calls, interfering users and other containers coming and going on the
      host, the containers made for an object are gone when its finalizer is, if and only if the spec
      names its container. */
  lemma NoOrphanExactly(host: Host, spec: Spec, d: Daemon)
    requires ValidHost(host) && d.generated != "" && Find(host.boxes, "/" + d.generated).None?
    ensures spec.name != "" <==>
            forall moves :: var t := GoAll(Start(host), spec, moves); OwnLeft(t.host, t.mine) ==> Guarded(t.core.obj)
  {
    if spec.name != "" {
      forall moves ensures var t := GoAll(Start(host), spec, moves); OwnLeft(t.host, t.mine) ==> Guarded(t.core.obj) {
        RunKeeps(Start(host), spec, moves);
      }
    } else {
      var moves := UnnamedIsOrphaned(host, spec, d);
    }
  }
}
