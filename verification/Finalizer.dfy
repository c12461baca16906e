/** Finalizers: an object with a finalizer stays until its controller has cleaned up. The DockerContainer
    reconciler is strict (a failed removal keeps the finalizer), the DockerJob reconciler is not. One
    worker runs the reconciler; users delete, change and recreate objects at any moment in between. */
module Finalizer {

  /** Every write gives the object a new version; an update with an older copy is refused. */
  datatype Object = Gone | Present(version: nat, deleting: bool, finalizer: bool)

  /** Where the worker is in `Reconcile`. */
  datatype Worker =
    | Idle
    | AddingFinalizer(version: nat)
    | Syncing
    | Deleting(version: nat)
    | DroppingFinalizer(version: nat)

  /** `container` says whether a container made by the controller exists. */
  datatype World = World(obj: Object, container: bool, worker: Worker, nextVersion: nat)

  datatype Step =
    | Fetch(clientOk: bool)
    | AddFinalizer(ok: bool)
    | SyncCreates
    | SyncRemoves
    | SyncEnds
    | RemoveContainer(ok: bool)   // ok also when there is none
    | DropFinalizer(ok: bool)
    | UserCreates
    | UserDeletes
    | SomebodyWrites

  const INIT := World(Gone, false, Idle, 0)

  predicate Current(w: World, version: nat) {
    w.obj.Present? && w.obj.version == version
  }

  function Write(w: World, deleting: bool, finalizer: bool): World {
    w.(obj := Present(w.nextVersion, deleting, finalizer), nextVersion := w.nextVersion + 1)
  }

  function AfterFetch(w: World): Worker {
    match w.obj
    case Gone => Idle
    case Present(v, deleting, finalizer) =>
      if !deleting then (if finalizer then Syncing else AddingFinalizer(v))
      else if finalizer then Deleting(v)
      else Idle
  }

  function Apply(w: World, strict: bool, step: Step): World {
    match step
    case Fetch(clientOk) => if w.worker == Idle && clientOk then w.(worker := AfterFetch(w)) else w
    case AddFinalizer(ok) =>
      if !w.worker.AddingFinalizer? then w
      else if ok && Current(w, w.worker.version) then Write(w, w.obj.deleting, true).(worker := Syncing)
      else w.(worker := Idle)
    case SyncCreates => if w.worker == Syncing then w.(container := true) else w
    case SyncRemoves => if w.worker == Syncing then w.(container := false) else w
    case SyncEnds => if w.worker == Syncing then w.(worker := Idle) else w
    case RemoveContainer(ok) =>
      if !w.worker.Deleting? then w
      else if ok then w.(container := false, worker := DroppingFinalizer(w.worker.version))
      else if strict then w.(worker := Idle)
      else w.(worker := DroppingFinalizer(w.worker.version))
    case DropFinalizer(ok) =>
      if !w.worker.DroppingFinalizer? then w
      else if ok && Current(w, w.worker.version) then w.(obj := Gone, worker := Idle)
      else w.(worker := Idle)
    case UserCreates => if w.obj.Gone? then Write(w, false, false) else w
    case UserDeletes =>
      if w.obj.Gone? then w
      else if w.obj.finalizer then Write(w, true, true)
      else w.(obj := Gone)
    case SomebodyWrites => if w.obj.Gone? then w else Write(w, w.obj.deleting, w.obj.finalizer)
  }

  function Exec(w: World, strict: bool, steps: seq<Step>): World {
    if steps == [] then w else Apply(Exec(w, strict, steps[..|steps| - 1]), strict, steps[|steps| - 1])
  }

  predicate Guarded(o: Object) {
    o.Present? && o.finalizer
  }

  ghost predicate Inv(w: World) {
    && (w.container || w.worker == Syncing ==> Guarded(w.obj))
    && (w.worker.DroppingFinalizer? ==> !w.container)
  }

  /** The calls on which the finalizer's promise rests succeed. */
  predicate Reliable(strict: bool, step: Step) {
    strict || step != RemoveContainer(false)
  }

  lemma StepKeepsInv(w: World, strict: bool, step: Step)
    requires Inv(w) && Reliable(strict, step)
    ensures Inv(Apply(w, strict, step))
    ensures Guarded(w.obj) && !Guarded(Apply(w, strict, step).obj) ==> !w.container
  {
  }

  lemma {:induction false} RunKeepsInv(w: World, strict: bool, steps: seq<Step>)
    requires Inv(w)
    requires forall i :: 0 <= i < |steps| ==> Reliable(strict, steps[i])
    ensures Inv(Exec(w, strict, steps))
  {
    if steps != [] {
      var n := |steps| - 1;
      RunKeepsInv(w, strict, steps[..n]);
      StepKeepsInv(Exec(w, strict, steps[..n]), strict, steps[n]);
    }
  }

  /** No orphans: in every run of the DockerContainer controller, with any calls failing and users
      interfering at any point, a container it made and can find by name exists only while the object carries the
      finalizer, and the finalizer is dropped only when no such container is left. */
  lemma NoOrphan(steps: seq<Step>, next: Step)
    ensures var w := Exec(INIT, true, steps);
            && (w.container ==> Guarded(w.obj))
            && (Guarded(w.obj) && !Guarded(Apply(w, true, next).obj) ==> !w.container)
  {
    RunKeepsInv(INIT, true, steps);
    StepKeepsInv(Exec(INIT, true, steps), true, next);
  }

  /** The DockerJob controller keeps the same promise as long as its removals do not fail. */
  lemma JobNoOrphan(steps: seq<Step>)
    requires forall i :: 0 <= i < |steps| ==> steps[i] != RemoveContainer(false)
    ensures var w := Exec(INIT, false, steps); w.container ==> Guarded(w.obj)
  {
    RunKeepsInv(INIT, false, steps);
  }

  // Orphans of the DockerJob controller

  predicate Orphaned(w: World) {
    w.container && !Guarded(w.obj)
  }

  /** The world before step k of a DockerJob's run. */
  function At(steps: seq<Step>, k: nat): World
    requires k <= |steps|
  {
    Exec(INIT, false, steps[..k])
  }

  predicate DroppingAt(steps: seq<Step>, k: nat)
    requires k <= |steps|
  {
    At(steps, k).worker.DroppingFinalizer?
  }

  /** Step j failed to remove a container, and up to the world before step i the finalizer was not yet
      dropped. */
  ghost predicate RemovalFailed(steps: seq<Step>, j: nat, i: nat)
    requires i <= |steps|
  {
    && j < i && steps[j] == RemoveContainer(false) && At(steps, j).worker.Deleting? && At(steps, j).container
    && forall k :: j < k <= i ==> DroppingAt(steps, k)
  }

  predicate DropsAt(steps: seq<Step>, i: nat)
    requires i < |steps|
  {
    var w := At(steps, i);
    w.worker.DroppingFinalizer? && steps[i] == DropFinalizer(true) && Current(w, w.worker.version)
  }

  /** After that failure step i dropped the finalizer, and no finalizer has been set since. */
  ghost predicate DroppedInVain(steps: seq<Step>, j: nat, i: nat) {
    && i < |steps| && RemovalFailed(steps, j, i) && DropsAt(steps, i)
    && forall k :: i < k <= |steps| ==> UnguardedAt(steps, k)
  }

  predicate UnguardedAt(steps: seq<Step>, k: nat)
    requires k <= |steps|
  {
    !Guarded(At(steps, k).obj)
  }

  /** While the worker syncs or deletes, the object carries the finalizer. */
  predicate BusyIsGuarded(w: World) {
    w.worker.Syncing? || w.worker.Deleting? || w.worker.DroppingFinalizer? ==> Guarded(w.obj)
  }

  lemma StepBusy(w: World, step: Step)
    requires BusyIsGuarded(w)
    ensures BusyIsGuarded(Apply(w, false, step))
    ensures !w.worker.Syncing? && !w.worker.Deleting? ==> Apply(w, false, step).container == w.container
  {
  }

  lemma {:induction false} RunBusy(steps: seq<Step>, k: nat)
    requires k <= |steps|
    ensures BusyIsGuarded(At(steps, k))
  {
    if k > 0 {
      RunBusy(steps, k - 1);
      NextWorld(steps, k - 1);
      StepBusy(At(steps, k - 1), steps[k - 1]);
    }
  }

  lemma NextWorld(steps: seq<Step>, k: nat)
    requires k < |steps|
    ensures At(steps, k + 1) == Apply(At(steps, k), false, steps[k])
  {
    assert steps[..k + 1][..k] == steps[..k];
  }

  lemma {:induction false} DroppingHasFailed(steps: seq<Step>, k: nat) returns (j: nat)
    requires k <= |steps| && DroppingAt(steps, k) && At(steps, k).container
    ensures RemovalFailed(steps, j, k)
  {
    NextWorld(steps, k - 1);
    StepBusy(At(steps, k - 1), steps[k - 1]) by {
      RunBusy(steps, k - 1);
    }
    if DroppingAt(steps, k - 1) {
      j := DroppingHasFailed(steps, k - 1);
    } else {
      j := k - 1;
    }
  }

  lemma {:induction false} OrphanWasDropped(steps: seq<Step>, k: nat) returns (j: nat, i: nat)
    requires k <= |steps| && Orphaned(At(steps, k))
    ensures i < k && RemovalFailed(steps, j, i) && DropsAt(steps, i)
    ensures forall l :: i < l <= k ==> UnguardedAt(steps, l)
  {
    NextWorld(steps, k - 1);
    RunBusy(steps, k - 1);
    StepBusy(At(steps, k - 1), steps[k - 1]);
    if Orphaned(At(steps, k - 1)) {
      j, i := OrphanWasDropped(steps, k - 1);
    } else {
      i := k - 1;
      j := DroppingHasFailed(steps, i);
    }
    assert UnguardedAt(steps, k);
  }

  lemma {:induction false} FailureKeepsContainer(steps: seq<Step>, j: nat, k: nat)
    requires k <= |steps| && RemovalFailed(steps, j, k)
    ensures At(steps, k).container
  {
    NextWorld(steps, k - 1);
    if k > j + 1 {
      assert DroppingAt(steps, k - 1);
      FailureKeepsContainer(steps, j, k - 1);
    }
  }

  lemma {:induction false} UnguardedKeepsContainer(steps: seq<Step>, i: nat, k: nat)
    requires i <= k <= |steps| && At(steps, i).container && forall l :: i <= l <= k ==> UnguardedAt(steps, l)
    ensures At(steps, k).container
  {
    if k > i {
      UnguardedKeepsContainer(steps, i, k - 1);
      NextWorld(steps, k - 1);
      RunBusy(steps, k - 1);
      assert UnguardedAt(steps, k - 1);
      StepBusy(At(steps, k - 1), steps[k - 1]);
    }
  }

  /** Over every run of the DockerJob controller: there is a container without a guarded object exactly if
      a removal failed, the finalizer was dropped all the same, and no later object of the name has been
      given one since. */
  lemma JobOrphanExactly(steps: seq<Step>)
    ensures Orphaned(Exec(INIT, false, steps)) <==> exists j, i :: DroppedInVain(steps, j, i)
  {
    var n := |steps|;
    assert steps[..n] == steps;
    if Orphaned(Exec(INIT, false, steps)) {
      var j, i := OrphanWasDropped(steps, n);
      assert DroppedInVain(steps, j, i);
    }
    if j: nat, i: nat :| DroppedInVain(steps, j, i) {
      FailureKeepsContainer(steps, j, i);
      NextWorld(steps, i);
      UnguardedKeepsContainer(steps, i + 1, n);
      assert UnguardedAt(steps, n);
    }
  }

  /** Such a state is reachable, so the DockerJob controller can orphan a container. */
  lemma JobCanOrphan() returns (steps: seq<Step>)
    ensures var w := Exec(INIT, false, steps); w.obj == Gone && w.container
  {
    steps := [UserCreates];
    assert steps[..0] == [];
    assert Exec(INIT, false, steps) == World(Present(0, false, false), false, Idle, 1);
    steps := Extend(INIT, false, steps, Fetch(true));
    steps := Extend(INIT, false, steps, AddFinalizer(true));
    steps := Extend(INIT, false, steps, SyncCreates);
    steps := Extend(INIT, false, steps, SyncEnds);
    steps := Extend(INIT, false, steps, UserDeletes);
    steps := Extend(INIT, false, steps, Fetch(true));
    steps := Extend(INIT, false, steps, RemoveContainer(false));
    steps := Extend(INIT, false, steps, DropFinalizer(true));
  }

  lemma Extend(w: World, strict: bool, steps: seq<Step>, step: Step) returns (more: seq<Step>)
    ensures more == steps + [step] && Exec(w, strict, more) == Apply(Exec(w, strict, steps), strict, step)
  {
    more := steps + [step];
    assert more[..|steps|] == steps;
  }

  // The code

  /** What the calls of one reconcile do; `leaves` is whether a container exists after the sync. */
  datatype Calls = Calls(clientOk: bool, addOk: bool, leaves: bool, syncOk: bool, removeOk: bool, dropOk: bool)

  class Reconciler {
    const strict: bool
    var obj: Object
    var container: bool
    var nextVersion: nat
    ghost var worker: Worker
    ghost var steps: seq<Step>   // the steps of the model taken so far

    constructor (strict: bool)
      ensures this.strict == strict && steps == [] && Value() == INIT
    {
      this.strict := strict;
      obj, container, nextVersion, worker, steps := Gone, false, 0, Idle, [];
    }

    ghost function Value(): World
      reads this
    {
      World(obj, container, worker, nextVersion)
    }

    /** So far the code has done what the model does. */
    ghost predicate OnModel()
      reads this
    {
      Value() == Exec(INIT, strict, steps)
    }

    ghost method Note(step: Step)
      requires Value() == Apply(Exec(INIT, strict, steps), strict, step)
      modifies this`steps
      ensures OnModel() && steps == old(steps) + [step]
    {
      steps := Extend(INIT, strict, steps, step);
    }

    /** The finalizer logic of `Reconcile`, uninterrupted. It takes steps of the model. A successful
        reconcile of a deleted object leaves no object, and no container unless a removal failed and was
        ignored; one of a live object leaves it guarded. */
    method Reconcile(f: Calls) returns (ok: bool)
      requires OnModel() && worker == Idle
      modifies this
      ensures OnModel() && worker == Idle && old(steps) <= steps
      ensures ok <==> match old(obj)
                      case Gone => true
                      case Present(_, deleting, finalizer) =>
                        && f.clientOk
                        && if !deleting then (finalizer || f.addOk) && f.syncOk
                           else finalizer ==> f.dropOk && (f.removeOk || !strict)
      ensures old(obj).Gone? || !f.clientOk ==> obj == old(obj) && container == old(container)
      ensures ok && Guarded(old(obj)) && old(obj).deleting ==>
                obj == Gone && (container ==> !strict && !f.removeOk)
      ensures !ok && old(obj).Present? && old(obj).deleting ==> obj == old(obj)
      ensures ok && old(obj).Present? && !old(obj).deleting ==> Guarded(obj) && container == f.leaves
    {
      if obj.Gone? {
        return true;
      }
      if !f.clientOk {
        return false;
      }
      var copy := obj;
      worker := AfterFetch(Value());
      Note(Fetch(true));
      if !copy.deleting {
        ok := SyncObject(copy, f);
        return;
      }
      if copy.finalizer {
        ok := DeleteObject(copy, f);
        return;
      }
      return true;
    }

    /** The branch of a live object: the finalizer comes before anything is created. */
    method SyncObject(copy: Object, f: Calls) returns (ok: bool)
      requires OnModel() && obj == copy && copy.Present? && !copy.deleting
      requires worker == if copy.finalizer then Syncing else AddingFinalizer(copy.version)
      modifies this
      ensures OnModel() && worker == Idle && old(steps) <= steps
      ensures ok <==> (copy.finalizer || f.addOk) && f.syncOk
      ensures if copy.finalizer || f.addOk then Guarded(obj) && container == f.leaves
              else obj == copy && container == old(container)
    {
      if !copy.finalizer {
        var added := WriteFinalizer(copy, f);
        if !added {
          return false;
        }
      }
      container := f.leaves;
      Note(if f.leaves then SyncCreates else SyncRemoves);
      worker := Idle;
      Note(SyncEnds);
      return f.syncOk;
    }

    method WriteFinalizer(copy: Object, f: Calls) returns (ok: bool)
      requires OnModel() && obj == copy && copy.Present? && worker == AddingFinalizer(copy.version)
      modifies this
      ensures OnModel() && old(steps) <= steps && container == old(container)
      ensures ok == f.addOk && worker == if ok then Syncing else Idle
      ensures obj == if ok then Present(old(nextVersion), copy.deleting, true) else copy
    {
      if !f.addOk {
        worker := Idle;
        Note(AddFinalizer(false));
        return false;
      }
      obj := Present(nextVersion, copy.deleting, true);
      nextVersion := nextVersion + 1;
      worker := Syncing;
      Note(AddFinalizer(true));
      return true;
    }

    /** The deletion branch. */
    method DeleteObject(copy: Object, f: Calls) returns (ok: bool)
      requires OnModel() && obj == copy && copy.Present? && worker == Deleting(copy.version)
      modifies this
      ensures OnModel() && worker == Idle && old(steps) <= steps
      ensures ok <==> f.dropOk && (f.removeOk || !strict)
      ensures obj == if ok then Gone else copy
      ensures container == (old(container) && !f.removeOk)
    {
      if f.removeOk {
        container := false;
        worker := DroppingFinalizer(copy.version);
        Note(RemoveContainer(true));
      } else {
        worker := if strict then Idle else DroppingFinalizer(copy.version);
        Note(RemoveContainer(false));
        if strict {
          return false;
        }
      }
      worker := Idle;
      if !f.dropOk {
        Note(DropFinalizer(false));
        return false;
      }
      obj := Gone;
      Note(DropFinalizer(true));
      return true;
    }
  }
}
