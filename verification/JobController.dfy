/** The DockerJob reconciler (internal/controller/dockerjob/reconciler.go), which fetches a job,
    changes the fetched copy field by field and writes it back, with the calls in the source's order. */
module JobController {
  import opened Wrappers
  import opened GoInts
  import opened JobModel

  class Controller {
    const spec: Spec
    var stored: Status   // what the API server holds
    var job: Status      // the fetched copy
    var box: Box
    var now: int
    ghost var starts: nat
    ghost var retries: nat
    ghost var lostStarts: nat

    constructor (spec: Spec, now: int)
      ensures this.spec == spec && State() == Init(now)
    {
      this.spec, this.now := spec, now;
      stored, job, box := NEW_STATUS, NEW_STATUS, Missing;
      starts, retries, lostStarts := 0, 0, 0;
    }

    ghost function State(): World
      reads this
    {
      World(stored, box, now, starts, retries, lostStarts)
    }

    method Reconcile(f: Faults) returns (r: Result)
      modifies this
      ensures (State(), r) == JobModel.Reconcile(spec, old(State()), f)
    {
      job := stored;
      if !f.clientOk {
        return Error;
      }
      if job.phase == Succeeded || job.phase == Failed {
        r := HandleTTLCleanup(f);
        return;
      }
      r := SyncJob(f);
    }

    /** The reconcile carried out this action of the model. */
    twostate predicate Did(a: Action, f: Faults, r: Result)
      reads this
    {
      State() == Act(spec, old(State()), a, f) && r == NewResult(spec, old(State()), a, f)
    }

    method SyncJob(f: Faults) returns (r: Result)
      requires job == stored && f.clientOk && !Terminal(stored)
      modifies this
      ensures (State(), r) == JobModel.Reconcile(spec, old(State()), f)
    {
      if f.inspect == InspectError {
        return Error;
      }
      if box == Missing {
        r := StartJob(f);
        return;
      }
      if f.inspect == NoState {
        return Requeue(REQUEUE);
      }
      if box == Up {
        r := WatchJob(f);
        return;
      }
      if box.Exited? {
        r := AfterExit(Wrap32(box.code), f);
        return;
      }
      return Requeue(REQUEUE);
    }

    /** The container was not found. */
    method StartJob(f: Faults) returns (r: Result)
      requires job == stored && box == Missing
      modifies this
      ensures Did(Start, f, r)
    {
      var ok := CreateAndStartContainer(f);
      now := now + f.busy;
      if !ok {
        SetStatus(Failed, None, CreateFailed, f);
        return Error;
      }
      job := job.(phase := Running);
      job := job.(startTime := Some(now));
      job := job.(attempts := Wrap32(job.attempts + 1));
      job := job.(message := Started);
      StatusUpdate(f);
      NoteStart(false, f);
      return Requeue(REQUEUE);
    }

    /** The container is running. */
    method WatchJob(f: Faults) returns (r: Result)
      requires job == stored && box == Up
      modifies this
      ensures Did(Decide(spec, old(stored), Up, old(now)), f, r)
    {
      if spec.deadlineSeconds.Some? && job.startTime.Some? {
        var deadline := job.startTime.value + Seconds(spec.deadlineSeconds.value);
        if now > deadline {
          ContainerStop(f);
          ContainerRemove(f);
          now := now + f.busy;
          SetStatus(Failed, None, DeadlineExceeded, f);
          return Done;
        }
      }
      if job.phase != Running {
        job := job.(phase := Running);
        job := job.(message := StillRunning);
        StatusUpdate(f);
      }
      return Requeue(REQUEUE);
    }

    /** The container has exited. */
    method AfterExit(exitCode: int32, f: Faults) returns (r: Result)
      requires job == stored && box.Exited? && exitCode == Wrap32(box.code)
      modifies this
      ensures Did(Decide(spec, old(stored), old(box), old(now)), f, r)
    {
      job := job.(exitCode := Some(exitCode));
      job := job.(completionTime := Some(now));
      if exitCode == 0 {
        r := Conclude(Succeeded, Completed, f);
        return;
      }
      if job.attempts <= spec.backoffLimit {
        r := RetryJob(exitCode, f);
        return;
      }
      r := Conclude(Failed, FailedAfter(exitCode, job.attempts), f);
    }

    /** The last steps of a job whose container has exited for good. */
    method Conclude(phase: Phase, message: Message, f: Faults) returns (r: Result)
      requires job.completionTime == Some(now)
      modifies this
      ensures var s := old(job).(phase := phase, message := message);
              stored == if f.writeOk then Store(s) else old(stored)
      ensures box == if Expired(spec, Refreshed(old(now), f), now) then Remove(old(box), f) else old(box)
      ensures r == CleanupResult(spec, Some(Refreshed(old(now), f)), now) && now == old(now) + f.writing
      ensures starts == old(starts) && retries == old(retries) && lostStarts == old(lostStarts)
    {
      job := job.(phase := phase);
      job := job.(message := message);
      StatusUpdate(f);
      r := HandleTTLCleanup(f);
    }

    /** The retry after a failed exit. */
    method RetryJob(exitCode: int32, f: Faults) returns (r: Result)
      requires job == stored.(exitCode := Some(exitCode), completionTime := Some(now)) && box.Exited?
      modifies this
      ensures Did(Retry(exitCode), f, r)
    {
      ContainerRemove(f);
      var ok := CreateAndStartContainer(f);
      now := now + f.busy;
      if !ok {
        SetStatus(Failed, Some(exitCode), RetryFailed, f);
        return Error;
      }
      job := job.(attempts := Wrap32(job.attempts + 1));
      job := job.(phase := Running);
      job := job.(message := Retrying(job.attempts));
      job := job.(exitCode := None);
      job := job.(completionTime := None);
      StatusUpdate(f);
      NoteStart(true, f);
      return Requeue(REQUEUE);
    }

    method HandleTTLCleanup(f: Faults) returns (r: Result)
      modifies this`box
      ensures r == CleanupResult(spec, job.completionTime, now)
      ensures box == if job.completionTime.Some? && Expired(spec, job.completionTime.value, now)
                     then Remove(old(box), f) else old(box)
    {
      if spec.ttlSeconds.None? || job.completionTime.None? {
        return Done;
      }
      var ttl := Seconds(spec.ttlSeconds.value);
      var elapsed := Since(now, job.completionTime.value);
      if elapsed < ttl {
        return Requeue(Wrap64(ttl as int - elapsed as int));
      }
      ContainerRemove(f);
      return Done;
    }

    method SetStatus(phase: Phase, exitCode: Option<int32>, message: Message, f: Faults)
      modifies this`job, this`stored, this`now
      ensures var s := Status(
                phase,
                old(job.startTime),
                if phase == Failed || phase == Succeeded then Some(old(now)) else old(job.completionTime),
                if exitCode.Some? then exitCode else old(job.exitCode),
                old(job.attempts),
                message);
              job == (if f.writeOk then Store(s) else s) && stored == (if f.writeOk then Store(s) else old(stored))
      ensures now == old(now) + f.writing
    {
      job := job.(phase := phase);
      job := job.(message := message);
      if exitCode.Some? {
        job := job.(exitCode := exitCode);
      }
      if phase == Failed || phase == Succeeded {
        job := job.(completionTime := Some(now));
      }
      StatusUpdate(f);
    }

    /** `r.Status().Update`, whose failure the reconciler only logs or ignores. The answer of the API
        server replaces the fetched copy. */
    method StatusUpdate(f: Faults)
      modifies this`job, this`stored, this`now
      ensures stored == if f.writeOk then Store(old(job)) else old(stored)
      ensures job == if f.writeOk then Store(old(job)) else old(job)
      ensures now == old(now) + f.writing
    {
      if f.writeOk {
        stored := Store(job);
        job := stored;
      }
      now := now + f.writing;
    }

    /** `createAndStartContainer`: a name that is taken cannot be created again. */
    method CreateAndStartContainer(f: Faults) returns (ok: bool)
      modifies this`box
      ensures ok <==> old(box) == Missing && f.create == StartedOk
      ensures box == if old(box) == Missing then BoxAfterCreate(f) else old(box)
    {
      if box != Missing || f.create == NotCreated {
        return false;
      }
      box := Created;
      if f.create == NotStarted {
        return false;
      }
      box := Up;
      return true;
    }

    /** `ContainerStop` of a running container; a failure is ignored. */
    method ContainerStop(f: Faults)
      requires box == Up
      modifies this`box
      ensures box == if f.stop.Some? then Exited(f.stop.value) else Up
    {
      if f.stop.Some? {
        box := Exited(f.stop.value);
      }
    }

    method ContainerRemove(f: Faults)
      modifies this`box
      ensures box == Remove(old(box), f)
    {
      if f.removeOk {
        box := Missing;
      }
    }

    ghost method NoteStart(retry: bool, f: Faults)
      modifies this`starts, this`retries, this`lostStarts
      ensures starts == old(starts) + 1
      ensures retries == old(retries) + (if retry then 1 else 0)
      ensures lostStarts == old(lostStarts) + (if f.writeOk then 0 else 1)
    {
      starts := starts + 1;
      if retry {
        retries := retries + 1;
      }
      if !f.writeOk {
        lostStarts := lostStarts + 1;
      }
    }
  }
}
