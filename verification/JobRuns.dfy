/** What the DockerJob controller guarantees over whole runs. */
module JobRuns {
  import opened Wrappers
  import opened GoInts
  import opened JobModel

  // Status consistency, whatever fails

  ghost predicate Consistent(s: Status) {
    match s.phase
    case Succeeded => s.exitCode == Some(0) && s.completionTime.Some?
    case Failed => s.exitCode != Some(0) && s.completionTime.Some?
    case _ => s.exitCode.None? && s.completionTime.None?
  }

  lemma ActKeepsConsistent(spec: Spec, w: World, f: Faults)
    requires Consistent(w.status) && !Terminal(w.status)
    ensures Consistent(Act(spec, w, Decide(spec, w.status, w.box, w.now), f).status)
  {
  }

  lemma {:induction false} RunIsConsistent(spec: Spec, w: World, steps: seq<Step>)
    requires Consistent(w.status)
    ensures Consistent(Exec(spec, w, steps).status)
  {
    if steps != [] {
      var p := Exec(spec, w, steps[..|steps| - 1]);
      RunIsConsistent(spec, w, steps[..|steps| - 1]);
      if !Terminal(p.status) && steps[|steps| - 1].Sync? {
        ActKeepsConsistent(spec, p, steps[|steps| - 1].faults);
      }
    }
  }

  /** In every run, with any calls failing and any status writes lost: Succeeded means exit code 0,
      Failed never carries exit code 0, both carry a completion time, and an unfinished job carries
      neither. */
  lemma StatusConsistency(spec: Spec, start: int, steps: seq<Step>)
    ensures Consistent(Exec(spec, Init(start), steps).status)
  {
    RunIsConsistent(spec, Init(start), steps);
  }

  /** Once finished, nothing changes the status and no container is started. */
  lemma {:induction false} FinishedForGood(spec: Spec, w: World, steps: seq<Step>)
    requires Terminal(w.status)
    ensures var t := Exec(spec, w, steps);
            t.status == w.status && t.starts == w.starts && t.retries == w.retries
  {
    if steps != [] {
      FinishedForGood(spec, w, steps[..|steps| - 1]);
    }
  }

  // What is stored when a job ends

  /** In every run, the reconcile that ends a job stores the exit code of the container it found exited, and
      none otherwise; success means code 0; the failure message carries the same code and the number of
      attempts; the completion time is when the exit was seen, or when the failing calls had returned. */
  lemma EndIsStored(spec: Spec, start: int, steps: seq<Step>, f: Faults)
    requires var w := Exec(spec, Init(start), steps);
             !Terminal(w.status) && Terminal(Apply(spec, w, Sync(f)).status)
    ensures var w := Exec(spec, Init(start), steps);
            var t := Apply(spec, w, Sync(f)).status;
            && t.exitCode == (if w.box.Exited? then Some(Wrap32(w.box.code)) else None)
            && (t.phase == Succeeded <==> w.box.Exited? && Wrap32(w.box.code) == 0)
            && (t.message.FailedAfter? ==>
                  w.box.Exited? && t.message == FailedAfter(Wrap32(w.box.code), w.status.attempts))
            && t.attempts == w.status.attempts
            && t.completionTime == Some(Truncate(if t.message == Completed || t.message.FailedAfter? then w.now
                                                 else w.now + f.busy))
  {
    RunIsConsistent(spec, Init(start), steps);
  }

  /** Some container of the run exited with this code. */
  ghost predicate ExitSeen(spec: Spec, w: World, steps: seq<Step>, code: int32) {
    exists k :: 0 <= k <= |steps| && ExitedAt(spec, w, steps, k, code)
  }

  predicate ExitedAt(spec: Spec, w: World, steps: seq<Step>, k: nat, code: int32)
    requires k <= |steps|
  {
    var box := Exec(spec, w, steps[..k]).box;
    box.Exited? && Wrap32(box.code) == code
  }

  lemma SeenStays(spec: Spec, w: World, steps: seq<Step>, code: int32)
    requires steps != [] && ExitSeen(spec, w, steps[..|steps| - 1], code)
    ensures ExitSeen(spec, w, steps, code)
  {
    var n := |steps| - 1;
    var k :| 0 <= k <= n && ExitedAt(spec, w, steps[..n], k, code);
    assert steps[..n][..k] == steps[..k];
    assert ExitedAt(spec, w, steps, k, code);
  }

  /** Over whole runs: a stored exit code is that of a container of this run. */
  lemma {:induction false} ExitCodeIsReal(spec: Spec, start: int, steps: seq<Step>)
    ensures var s := Exec(spec, Init(start), steps).status;
            s.exitCode.Some? ==> ExitSeen(spec, Init(start), steps, s.exitCode.value)
  {
    if steps != [] {
      var n := |steps| - 1;
      var p := Exec(spec, Init(start), steps[..n]);
      ExitCodeIsReal(spec, start, steps[..n]);
      RunIsConsistent(spec, Init(start), steps[..n]);
      var s := Exec(spec, Init(start), steps).status;
      if s.exitCode.Some? {
        if s.exitCode == p.status.exitCode {
          SeenStays(spec, Init(start), steps, s.exitCode.value);
        } else {
          assert ExitedAt(spec, Init(start), steps, n, s.exitCode.value);
        }
      }
    }
  }

  // What one reconcile returns

  /** Without a client or an inspection a reconcile changes nothing; nor does it when the state is unknown,
      or the container is neither running nor exited. */
  lemma NothingDone(spec: Spec, w: World, f: Faults)
    ensures !f.clientOk ==> Reconcile(spec, w, f) == (w, Error)
    ensures f.clientOk && !Terminal(w.status) && f.inspect == InspectError ==> Reconcile(spec, w, f) == (w, Error)
    ensures f.clientOk && !Terminal(w.status) && f.inspect == NoState && w.box != Missing ==>
              Reconcile(spec, w, f) == (w, Requeue(5_000_000_000))
    ensures f.clientOk && !Terminal(w.status) && f.inspect == Seen && (w.box == Created || w.box == Paused) ==>
              Reconcile(spec, w, f) == (w, Requeue(5_000_000_000))
  {
  }

  /** A retry is due. */
  predicate RetryDue(spec: Spec, w: World) {
    w.box.Exited? && Wrap32(w.box.code) != 0 && w.status.attempts <= spec.backoffLimit
  }

  /** A reconcile reports an error exactly if it has no client or inspection, or a container that was due
      did not start. */
  lemma ErrorExactly(spec: Spec, w: World, f: Faults)
    ensures Reconcile(spec, w, f).1 == Error <==>
            || !f.clientOk
            || (!Terminal(w.status)
                && (|| f.inspect == InspectError
                    || (w.box == Missing && f.create != StartedOk)
                    || (f.inspect == Seen && RetryDue(spec, w) && !(f.removeOk && f.create == StartedOk))))
  {
  }

  /** A job that goes on is looked at again after five seconds. */
  lemma PolledWhileRunning(spec: Spec, w: World, f: Faults)
    requires !Terminal(w.status) && Reconcile(spec, w, f).1 != Error
    requires w.box == Missing || (w.box == Up && !Overdue(spec, w.status, w.now)) || RetryDue(spec, w)
    ensures Reconcile(spec, w, f).1 == Requeue(5_000_000_000)
  {
  }

  /** After a deadline kill nothing more is asked for. */
  lemma KillIsFinal(spec: Spec, w: World, f: Faults)
    requires StillUp(w) && f.clientOk && f.inspect == Seen && Overdue(spec, w.status, w.now)
    ensures Reconcile(spec, w, f).1 == Done
  {
  }

  /** A running container that is not overdue is left running; if its job is not stored as running, that is
      written. */
  lemma AdoptExactly(spec: Spec, w: World, f: Faults)
    requires StillUp(w) && f.clientOk && f.inspect == Seen && !Overdue(spec, w.status, w.now) && StoredTime(w.status)
    requires Consistent(w.status)
    ensures var t := Reconcile(spec, w, f).0;
            && t.box == Up && t.starts == w.starts
            && t.status == (if w.status.phase == Running || !f.writeOk then w.status
                            else w.status.(phase := Running, message := StillRunning))
  {
  }

  /** A retry that is due, with its write: the new container runs and is counted, the old result is
      cleared, the start time kept; or the job fails because the old one could not be replaced. */
  lemma RetryExactly(spec: Spec, w: World, f: Faults)
    requires !Terminal(w.status) && f.clientOk && f.inspect == Seen && f.writeOk && RetryDue(spec, w)
    requires StoredTime(w.status)
    ensures var t, n := Reconcile(spec, w, f).0, Wrap32(w.status.attempts + 1);
            if f.removeOk && f.create == StartedOk
            then t.box == Up && t.status == Status(Running, w.status.startTime, None, None, n, Retrying(n))
            else t.status.phase == Failed && t.status.message == RetryFailed && t.starts == w.starts
                 && t.box == if f.removeOk then (if f.create == NotStarted then Created else Missing) else w.box
  {
  }

  /** A first start, with its write. */
  lemma StartExactly(spec: Spec, w: World, f: Faults)
    requires !Terminal(w.status) && f.clientOk && f.inspect != InspectError && f.writeOk && w.box == Missing
    ensures var t := Reconcile(spec, w, f).0;
            if f.create == StartedOk
            then t.box == Up && t.status.phase == Running && t.status.startTime == Some(Truncate(w.now + f.busy))
                 && t.status.attempts == Wrap32(w.status.attempts + 1) && t.status.message == Started
            else t.status.phase == Failed && t.status.message == CreateFailed && t.starts == w.starts
                 && t.box == if f.create == NotStarted then Created else Missing
  {
  }

  /** Stored times are whole seconds, rounded down. */
  lemma TruncateIsSecond(t: int)
    ensures Truncate(t) % 1_000_000_000 == 0 && Truncate(t) <= t < Truncate(t) + 1_000_000_000
  {
  }

  // The retry bound

  function Max(a: int, b: int): int {
    if a >= b then a else b
  }

  predicate HasRun(box: Box) {
    box == Up || box == Paused || box.Exited?
  }

  ghost predicate Counted(spec: Spec, w: World) {
    && w.starts == w.status.attempts + w.lostStarts
    && w.status.attempts >= 0
    && w.retries <= Max(w.starts - 1, 0)
    && w.retries <= Max(spec.backoffLimit, 0) + w.lostStarts
    && (HasRun(w.box) ==> w.starts >= 1)
  }

  lemma StepKeepsCount(spec: Spec, w: World, step: Step)
    requires Counted(spec, w) && !step.Foreign?
    requires Apply(spec, w, step).starts <= MAX_INT32
    ensures Counted(spec, Apply(spec, w, step))
  {
  }

  lemma StartsGrow(spec: Spec, w: World, step: Step)
    ensures w.starts <= Apply(spec, w, step).starts
  {
  }

  lemma {:induction false} RunKeepsCount(spec: Spec, w: World, steps: seq<Step>)
    requires Counted(spec, w)
    requires forall i :: 0 <= i < |steps| ==> !steps[i].Foreign?
    requires Exec(spec, w, steps).starts <= MAX_INT32
    ensures Counted(spec, Exec(spec, w, steps))
  {
    if steps != [] {
      var n := |steps| - 1;
      StartsGrow(spec, Exec(spec, w, steps[..n]), steps[n]);
      RunKeepsCount(spec, w, steps[..n]);
      StepKeepsCount(spec, Exec(spec, w, steps[..n]), steps[n]);
    }
  }

  ghost predicate Balanced(w: World) {
    w.status.attempts == Wrap32(w.starts - w.lostStarts)
  }

  lemma CountStep(spec: Spec, w: World, step: Step)
    requires Balanced(w)
    ensures Balanced(Apply(spec, w, step))
  {
    WrapNext(w.starts - w.lostStarts);
  }

  lemma {:induction false} RunCounts(spec: Spec, w: World, steps: seq<Step>)
    requires Balanced(w)
    ensures Balanced(Exec(spec, w, steps))
  {
    if steps != [] {
      RunCounts(spec, w, steps[..|steps| - 1]);
      CountStep(spec, Exec(spec, w, steps[..|steps| - 1]), steps[|steps| - 1]);
    }
  }

  /** In every run, whatever fails: `attempts` is the number of containers the controller started, less
      the starts whose status write was lost, in int32 arithmetic. */
  lemma AttemptsCountStarts(spec: Spec, start: int, steps: seq<Step>)
    ensures var w := Exec(spec, Init(start), steps); w.status.attempts == Wrap32(w.starts - w.lostStarts)
  {
    RunCounts(spec, Init(start), steps);
  }

  /** In every run without a foreign container of the job's name, and while the number of starts fits
      an int32, every retry beyond BackoffLimit is paid for by a lost write. Failing calls and outside
      removals do not matter. */
  lemma RetryBound(spec: Spec, start: int, steps: seq<Step>)
    requires forall i :: 0 <= i < |steps| ==> !steps[i].Foreign?
    requires Exec(spec, Init(start), steps).starts <= MAX_INT32
    ensures var w := Exec(spec, Init(start), steps); w.retries <= Max(spec.backoffLimit, 0) + w.lostStarts
  {
    RunKeepsCount(spec, Init(start), steps);
  }

  /** Past that number the counter wraps and a job that had used up its retries gets new ones. */
  lemma WrapReopensRetries(spec: Spec, w: World)
    requires !Terminal(w.status) && w.status.attempts == MAX_INT32 && w.box == Missing
    requires spec.deadlineSeconds.None? && spec.backoffLimit >= 0
    ensures Exec(spec, w, [Sync(NO_FAULTS), Exit(1), Sync(NO_FAULTS)]).retries == w.retries + 1
  {
    var s1, s2 := [Sync(NO_FAULTS)], [Sync(NO_FAULTS), Exit(1)];
    assert s1[..0] == [] && s2[..1] == s1 && [Sync(NO_FAULTS), Exit(1), Sync(NO_FAULTS)][..2] == s2;
    assert Exec(spec, w, s1) == Apply(spec, w, Sync(NO_FAULTS));
    assert Exec(spec, w, s2) == Apply(spec, Exec(spec, w, s1), Exit(1));
    assert Exec(spec, w, s2).box == Exited(1) && Exec(spec, w, s2).status.attempts == MIN_INT32;
  }

  predicate Exhausted(w: World) {
    w.status.message.FailedAfter?
  }

  lemma {:induction false} LargestLimitNeverStops(spec: Spec, w: World, steps: seq<Step>)
    requires spec.backoffLimit == MAX_INT32 && !Exhausted(w)
    ensures !Exhausted(Exec(spec, w, steps))
  {
    if steps != [] {
      LargestLimitNeverStops(spec, w, steps[..|steps| - 1]);
    }
  }

  lemma Extend(spec: Spec, w: World, steps: seq<Step>, step: Step) returns (more: seq<Step>)
    ensures more == steps + [step] && Exec(spec, w, more) == Apply(spec, Exec(spec, w, steps), step)
  {
    more := steps + [step];
    assert more[..|steps|] == steps;
  }

  /** A run whose k containers all failed. */
  lemma {:induction false} FailedTimes(spec: Spec, start: int, k: nat) returns (steps: seq<Step>)
    requires 1 <= k <= Max(spec.backoffLimit, 0) + 1 && k <= MAX_INT32
    ensures var w := Exec(spec, Init(start), steps);
            !Terminal(w.status) && w.box == Exited(1) && w.status.attempts == k
  {
    if k == 1 {
      steps := Extend(spec, Init(start), [], Sync(NO_FAULTS));
    } else {
      steps := FailedTimes(spec, start, k - 1);
      steps := Extend(spec, Init(start), steps, Sync(NO_FAULTS));
    }
    steps := Extend(spec, Init(start), steps, Exit(1));
  }

  /** A job can ever fail by using up its retries exactly if BackoffLimit is below 2^31-1; at that value
      the counter wraps first and retrying goes on in every run, whatever happens. */
  lemma ExhaustionExactly(spec: Spec, start: int)
    ensures (exists steps :: Exhausted(Exec(spec, Init(start), steps))) <==> spec.backoffLimit < MAX_INT32
  {
    if spec.backoffLimit < MAX_INT32 {
      var steps := FailedTimes(spec, start, Max(spec.backoffLimit, 0) + 1);
      steps := Extend(spec, Init(start), steps, Sync(NO_FAULTS));
      assert Exhausted(Exec(spec, Init(start), steps));
    } else {
      forall steps ensures !Exhausted(Exec(spec, Init(start), steps)) {
        LargestLimitNeverStops(spec, Init(start), steps);
      }
    }
  }

  // Exact attempts and termination, when status writes land

  predicate Undisturbed(step: Step) {
    !step.Foreign? && !step.OutsideRemoval? && (step.Sync? ==> step.faults.writeOk)
  }

  /** How many containers an undisturbed job may start. */
  function Allowed(spec: Spec): nat {
    Max(spec.backoffLimit, 0) + 1
  }

  ghost predicate Tracked(spec: Spec, w: World) {
    && w.lostStarts == 0
    && w.status.attempts == w.starts <= Allowed(spec)
    && (w.status.message.FailedAfter? ==> w.starts == Allowed(spec) == w.status.message.attempts)
    && (!Terminal(w.status) && w.starts == 0 ==>
          w.box == Missing && w.status.phase == Pending && w.status.startTime.None?)
    && (!Terminal(w.status) && w.starts > 0 ==> HasRun(w.box) && w.status.phase == Running && w.status.startTime.Some?)
    && (!Terminal(w.status) ==> !w.status.message.FailedAfter?)
    && (w.status.phase == Succeeded ==> w.starts > 0)
  }

  lemma StepKeepsTracked(spec: Spec, w: World, step: Step)
    requires spec.backoffLimit < MAX_INT32 && Tracked(spec, w) && Undisturbed(step)
    ensures Tracked(spec, Apply(spec, w, step))
  {
  }

  lemma {:induction false} RunKeepsTracked(spec: Spec, w: World, steps: seq<Step>)
    requires spec.backoffLimit < MAX_INT32 && Tracked(spec, w)
    requires forall i :: 0 <= i < |steps| ==> Undisturbed(steps[i])
    ensures Tracked(spec, Exec(spec, w, steps))
  {
    if steps != [] {
      var n := |steps| - 1;
      RunKeepsTracked(spec, w, steps[..n]);
      StepKeepsTracked(spec, Exec(spec, w, steps[..n]), steps[n]);
    }
  }

  /** An undisturbed job never starts more than BackoffLimit + 1 containers, and one that fails by
      exhausting its retries has started exactly that many. */
  lemma ExactAttempts(spec: Spec, start: int, steps: seq<Step>)
    requires spec.backoffLimit < MAX_INT32
    requires forall i :: 0 <= i < |steps| ==> Undisturbed(steps[i])
    ensures var w := Exec(spec, Init(start), steps);
            && w.starts == w.status.attempts <= Allowed(spec)
            && (w.status.message.FailedAfter? ==> w.starts == w.status.message.attempts == Allowed(spec))
  {
    RunKeepsTracked(spec, Init(start), steps);
  }

  /** Containers that only go from running to exited. */
  predicate Simple(step: Step) {
    Undisturbed(step) && !step.Suspend? && !step.Resume?
  }

  /** Attempts that remain, then how far the current container is. Zero once finished. */
  function Remaining(spec: Spec, w: World): int {
    if Terminal(w.status) then 0
    else 2 * (Allowed(spec) - w.starts) + (if w.box == Up then 2 else 1)
  }

  /** The step changes an unfinished job or its container. */
  predicate Moves(spec: Spec, w: World, step: Step) {
    var t := Apply(spec, w, step);
    !Terminal(w.status) && (t.status != w.status || t.box != w.box)
  }

  function CountMoves(spec: Spec, w: World, steps: seq<Step>): nat {
    if steps == [] then 0
    else
      var n := |steps| - 1;
      CountMoves(spec, w, steps[..n]) + (if Moves(spec, Exec(spec, w, steps[..n]), steps[n]) then 1 else 0)
  }

  ghost predicate Progressing(spec: Spec, w: World) {
    && Tracked(spec, w) && Consistent(w.status)
    && (!Terminal(w.status) ==> w.box == Missing || w.box == Up || w.box.Exited?)
    && (w.status.startTime.Some? ==> Truncate(w.status.startTime.value) == w.status.startTime.value)
  }

  lemma SimpleStep(spec: Spec, w: World, step: Step)
    requires spec.backoffLimit < MAX_INT32 && Progressing(spec, w) && Simple(step)
    ensures Progressing(spec, Apply(spec, w, step))
    ensures 0 <= Remaining(spec, Apply(spec, w, step)) <= Remaining(spec, w) - (if Moves(spec, w, step) then 1 else 0)
    ensures !Terminal(w.status) ==> Remaining(spec, w) > 0
  {
    StepKeepsTracked(spec, w, step);
    RunIsConsistent(spec, w, [step]);
    assert [step][..0] == [];
    assert Exec(spec, w, [step]) == Apply(spec, w, step);
  }

  lemma {:induction false} SimpleRun(spec: Spec, w: World, steps: seq<Step>)
    requires spec.backoffLimit < MAX_INT32 && Progressing(spec, w)
    requires forall i :: 0 <= i < |steps| ==> Simple(steps[i])
    ensures Progressing(spec, Exec(spec, w, steps))
    ensures Remaining(spec, Exec(spec, w, steps)) + CountMoves(spec, w, steps) <= Remaining(spec, w)
    ensures 0 <= Remaining(spec, Exec(spec, w, steps))
  {
    if steps != [] {
      var n := |steps| - 1;
      SimpleRun(spec, w, steps[..n]);
      SimpleStep(spec, Exec(spec, w, steps[..n]), steps[n]);
    } else {
      SimpleStep(spec, w, Tick(0));
    }
  }

  /** Termination: a job whose status writes land and whose containers only run and exit makes at most
      two moves per allowed attempt and one more; after that many it has succeeded or failed. */
  lemma JobTerminates(spec: Spec, start: int, steps: seq<Step>)
    requires spec.backoffLimit < MAX_INT32
    requires forall i :: 0 <= i < |steps| ==> Simple(steps[i])
    ensures var moves, w := CountMoves(spec, Init(start), steps), Exec(spec, Init(start), steps);
            moves <= 2 * Allowed(spec) + 1 && (moves == 2 * Allowed(spec) + 1 ==> Terminal(w.status))
  {
    SimpleRun(spec, Init(start), steps);
    SimpleStep(spec, Exec(spec, Init(start), steps), Tick(0));
  }

  const NO_FAULTS := Faults(true, Seen, StartedOk, None, true, true, 0, 0)

  /** An unfinished job is never stuck: a faultless reconcile or the container's exit moves it. */
  lemma NeverStuck(spec: Spec, start: int, steps: seq<Step>)
    requires spec.backoffLimit < MAX_INT32
    requires forall i :: 0 <= i < |steps| ==> Simple(steps[i])
    ensures var w := Exec(spec, Init(start), steps);
            Terminal(w.status) || Moves(spec, w, Sync(NO_FAULTS)) || Moves(spec, w, Exit(0))
  {
    SimpleRun(spec, Init(start), steps);
  }

  /** Only the reconciler acts and time passes. */
  predicate Quiet(step: Step) {
    step.Sync? || step.Tick?
  }

  predicate AllQuiet(steps: seq<Step>) {
    forall i :: 0 <= i < |steps| ==> Quiet(steps[i])
  }

  /** A first start or a retry gets as far as creating the container, which then does not start. */
  predicate FailsToStart(spec: Spec, w: World, f: Faults) {
    && f.clientOk && !Terminal(w.status) && f.create == NotStarted
    && if w.box == Missing then f.inspect != InspectError
       else f.inspect == Seen && f.removeOk && Decide(spec, w.status, w.box, w.now).Retry?
  }

  lemma {:induction false} CreatedSticks(spec: Spec, w: World, steps: seq<Step>)
    requires !Terminal(w.status) && w.box == Created && AllQuiet(steps)
    ensures Exec(spec, w, steps).status == w.status && Exec(spec, w, steps).box == Created
  {
    if steps != [] {
      CreatedSticks(spec, w, steps[..|steps| - 1]);
      assert Quiet(steps[|steps| - 1]);
    }
  }

  /** Landing writes are needed: a job whose container did not start is ever seen to have failed exactly
      if that write lands. If it is lost, no later reconcile changes anything any more. */
  lemma LostFailureSticks(spec: Spec, w: World, f: Faults, steps: seq<Step>)
    requires FailsToStart(spec, w, f) && AllQuiet(steps)
    ensures var t := Exec(spec, Apply(spec, w, Sync(f)), steps);
            && (Terminal(t.status) <==> f.writeOk)
            && (!f.writeOk ==> t.status == w.status && t.box == Created)
  {
    var t := Apply(spec, w, Sync(f));
    if f.writeOk {
      FinishedForGood(spec, t, steps);
    } else {
      CreatedSticks(spec, t, steps);
    }
  }

  // Deadlines

  /** The product in nanoseconds is right exactly for up to 9223372036 seconds. */
  lemma SecondsExact(s: int64)
    ensures Seconds(s) == s * 1_000_000_000 <==> -9223372036 <= s <= 9223372036
  {
  }

  /** Every int32 time to live is in range. */
  lemma TtlNeverOverflows(s: int32)
    ensures Seconds(s) == s * 1_000_000_000
  {
    SecondsExact(s);
  }

  /** A running job is killed exactly when a start time is stored and its deadline has passed. */
  lemma DeadlineEnforced(spec: Spec, w: World, f: Faults)
    requires !Terminal(w.status) && w.box == Up && f.clientOk && f.inspect == Seen && f.writeOk
    requires spec.deadlineSeconds.Some? && -9223372036 <= spec.deadlineSeconds.value <= 9223372036
    ensures var t := Reconcile(spec, w, f).0;
            t.status.phase == Failed && t.status.message == DeadlineExceeded && t.box == AfterKill(f)
            <==> && w.status.startTime.Some?
                 && w.now > w.status.startTime.value + spec.deadlineSeconds.value * 1_000_000_000
  {
    SecondsExact(spec.deadlineSeconds.value);
  }

  /** The reconcile sees the container, and the stop, the removal or the write succeeds. */
  predicate CanKill(step: Step) {
    && step.Sync? && step.faults.clientOk && step.faults.inspect == Seen
    && (step.faults.stop.Some? || step.faults.removeOk || step.faults.writeOk)
  }

  /** Step i is such a reconcile, past the deadline. */
  predicate KillsAt(spec: Spec, w: World, steps: seq<Step>, i: nat)
    requires i < |steps|
  {
    CanKill(steps[i]) && Overdue(spec, w.status, Exec(spec, w, steps[..i]).now)
  }

  predicate StillUp(w: World) {
    w.box == Up && !Terminal(w.status)
  }

  predicate StillUpAt(spec: Spec, w: World, steps: seq<Step>, i: nat)
    requires i <= |steps|
  {
    StillUp(Exec(spec, w, steps[..i]))
  }

  lemma QuietStep(spec: Spec, w: World, step: Step)
    requires StillUp(w) && StoredTime(w.status) && Quiet(step)
    ensures var t := Apply(spec, w, step);
            && StoredTime(t.status)
            && (StillUp(t) ==> t.status.startTime == w.status.startTime)
            && (StillUp(t) <==> !(CanKill(step) && Overdue(spec, w.status, w.now)))
  {
  }

  lemma {:induction false} UnkilledRun(spec: Spec, w: World, steps: seq<Step>, n: nat)
    requires StillUp(w) && StoredTime(w.status) && AllQuiet(steps) && n <= |steps|
    requires forall i :: 0 <= i < n ==> !KillsAt(spec, w, steps, i)
    ensures var t := Exec(spec, w, steps[..n]);
            StillUp(t) && StoredTime(t.status) && t.status.startTime == w.status.startTime
  {
    if n > 0 {
      UnkilledRun(spec, w, steps, n - 1);
      assert Quiet(steps[n - 1]) && !KillsAt(spec, w, steps, n - 1);
      assert steps[..n][..n - 1] == steps[..n - 1];
      QuietStep(spec, Exec(spec, w, steps[..n - 1]), steps[n - 1]);
    }
  }

  /** Exactly when a deadline is enforced over a run: a container that keeps running is left alone by
      all reconciles if and only if none of them comes after the stored start time plus the deadline
      (with a stop, removal or write that succeeds). Without a stored start time that is always so. */
  lemma KilledExactly(spec: Spec, w: World, steps: seq<Step>)
    requires StillUp(w) && StoredTime(w.status) && AllQuiet(steps)
    ensures (forall i :: 0 <= i <= |steps| ==> StillUpAt(spec, w, steps, i))
            <==> (forall i :: 0 <= i < |steps| ==> !KillsAt(spec, w, steps, i))
  {
    if forall i :: 0 <= i < |steps| ==> !KillsAt(spec, w, steps, i) {
      forall i | 0 <= i <= |steps| ensures StillUpAt(spec, w, steps, i) {
        UnkilledRun(spec, w, steps, i);
      }
    } else {
      var i :| 0 <= i < |steps| && KillsAt(spec, w, steps, i);
      FirstKill(spec, w, steps, i);
    }
  }

  lemma {:induction false} FirstKill(spec: Spec, w: World, steps: seq<Step>, i: nat)
    requires StillUp(w) && StoredTime(w.status) && AllQuiet(steps)
    requires i < |steps| && KillsAt(spec, w, steps, i)
    ensures exists k :: 0 <= k <= |steps| && !StillUpAt(spec, w, steps, k)
    decreases i
  {
    if j: nat :| j < i && KillsAt(spec, w, steps, j) {
      FirstKill(spec, w, steps, j);
    } else {
      UnkilledRun(spec, w, steps, i);
      assert steps[..i + 1][..i] == steps[..i];
      assert Quiet(steps[i]);
      QuietStep(spec, Exec(spec, w, steps[..i]), steps[i]);
      assert !StillUpAt(spec, w, steps, i + 1);
    }
  }

  /** The kill leaves an exited container under a job stored as unfinished. */
  predicate LeavesExited(f: Faults) {
    !f.writeOk && !f.removeOk && f.stop.Some?
  }

  /** What a deadline kill leads to, exactly, once the next faultless reconcile has run. The job fails with
      the deadline's message if and only if the write lands or nothing at all succeeded (it is then killed
      again). Otherwise the overdue job is started again with a new start time if its container is gone;
      if it was only stopped, its exit code decides: the job succeeds, is retried or gives up. */
  lemma KillOutcome(spec: Spec, w: World, f: Faults, wait: nat)
    requires StillUp(w) && f.clientOk && f.inspect == Seen && Overdue(spec, w.status, w.now)
    ensures var u := Exec(spec, w, [Sync(f), Tick(wait), Sync(NO_FAULTS)]);
            && (u.status.phase == Failed && u.status.message == DeadlineExceeded
                <==> f.writeOk || (!f.removeOk && f.stop.None?))
            && (u.starts == w.starts + 1 && u.retries == w.retries <==> !f.writeOk && f.removeOk)
            && (!f.writeOk && f.removeOk ==>
                  u.status.startTime == Some(Truncate(w.now + f.busy + f.writing + wait)))
            && (u.retries == w.retries + 1
                <==> LeavesExited(f) && Wrap32(f.stop.value) != 0 && w.status.attempts <= spec.backoffLimit)
            && (u.status.phase == Succeeded <==> LeavesExited(f) && Wrap32(f.stop.value) == 0)
            && (u.status.phase == Failed && u.status.message.FailedAfter?
                <==> LeavesExited(f) && Wrap32(f.stop.value) != 0 && w.status.attempts > spec.backoffLimit)
  {
    var steps := Extend(spec, w, [], Sync(f));
    KillStep(spec, w, f);
    steps := Extend(spec, w, steps, Tick(wait));
    var t := Exec(spec, w, steps);
    steps := Extend(spec, w, steps, Sync(NO_FAULTS));
    assert steps == [Sync(f), Tick(wait), Sync(NO_FAULTS)];
    AfterKillStep(spec, t);
  }

  lemma KillStep(spec: Spec, w: World, f: Faults)
    requires StillUp(w) && f.clientOk && f.inspect == Seen && Overdue(spec, w.status, w.now)
    ensures var t := Apply(spec, w, Sync(f));
            && t.box == AfterKill(f) && t.now == w.now + f.busy + f.writing
            && t.starts == w.starts && t.retries == w.retries
            && if f.writeOk then t.status.phase == Failed && t.status.message == DeadlineExceeded
               else t.status == w.status
  {
  }

  /** A faultless reconcile that finds the container missing, exited or running too long. */
  lemma AfterKillStep(spec: Spec, t: World)
    requires t.box == Missing || t.box.Exited? || (t.box == Up && Overdue(spec, t.status, t.now)) || Terminal(t.status)
    ensures var u := Apply(spec, t, Sync(NO_FAULTS));
            if Terminal(t.status) then u.status == t.status && u.starts == t.starts && u.retries == t.retries
            else match t.box
              case Missing => u.status.startTime == Some(Truncate(t.now)) && u.starts == t.starts + 1
                              && u.retries == t.retries && u.status.phase == Running
              case Exited(c) =>
                if Wrap32(c) == 0 then u.status.phase == Succeeded && u.starts == t.starts && u.retries == t.retries
                else if t.status.attempts <= spec.backoffLimit
                then u.status.phase == Running && u.retries == t.retries + 1
                else u.status.phase == Failed && u.status.message.FailedAfter? && u.starts == t.starts
                     && u.retries == t.retries
              case _ => u.status.phase == Failed && u.status.message == DeadlineExceeded && u.starts == t.starts
                        && u.retries == t.retries
  {
  }

  /** So a job whose first start was written in vain is never killed, whatever its deadline. */
  lemma LostStartIsNeverKilled(spec: Spec, start: int, f: Faults, steps: seq<Step>)
    requires f.clientOk && f.inspect != InspectError && f.create == StartedOk && !f.writeOk && AllQuiet(steps)
    ensures StillUp(Exec(spec, Apply(spec, Init(start), Sync(f)), steps))
  {
    var w := Apply(spec, Init(start), Sync(f));
    UnkilledRun(spec, w, steps, |steps|);
    assert steps[..|steps|] == steps;
  }

  /** One second more than that and the job is killed as soon as it is seen running. */
  lemma DeadlineOverflow(w: World, f: Faults)
    requires !Terminal(w.status) && w.box == Up && f.clientOk && f.inspect == Seen && f.writeOk
    requires w.status.startTime == Some(w.now)
    ensures Reconcile(Spec(0, Some(9223372037), None), w, f).0.status.message == DeadlineExceeded
  {
  }

  /** The step starts a container that was missing, and the write lands. */
  predicate SetsStart(w: World, step: Step) {
    && step.Sync? && step.faults.clientOk && !Terminal(w.status) && w.box == Missing
    && step.faults.inspect != InspectError && step.faults.create == StartedOk && step.faults.writeOk
  }

  /** The step sets the stored start time to another second. */
  predicate MovesStart(w: World, step: Step) {
    SetsStart(w, step) && w.status.startTime != Some(Truncate(w.now + step.faults.busy))
  }

  /** Exactly the steps that start a missing container with a landed write set the start time. */
  lemma StartTimeStep(spec: Spec, w: World, step: Step)
    requires StoredTime(w.status)
    ensures Apply(spec, w, step).status.startTime
            == if SetsStart(w, step) then Some(Truncate(w.now + step.faults.busy)) else w.status.startTime
  {
  }

  ghost predicate StoredTime(s: Status) {
    s.startTime.Some? ==> Truncate(s.startTime.value) == s.startTime.value
  }

  lemma {:induction false} StartTimeIsStored(spec: Spec, w: World, steps: seq<Step>)
    requires StoredTime(w.status)
    ensures StoredTime(Exec(spec, w, steps).status)
  {
    if steps != [] {
      StartTimeIsStored(spec, w, steps[..|steps| - 1]);
    }
  }

  ghost predicate StartInPast(w: World) {
    StoredTime(w.status) && (w.status.startTime.Some? ==> w.status.startTime.value <= w.now)
  }

  lemma {:induction false} RunStartInPast(spec: Spec, w: World, steps: seq<Step>)
    requires StartInPast(w)
    ensures StartInPast(Exec(spec, w, steps))
  {
    if steps != [] {
      RunStartInPast(spec, w, steps[..|steps| - 1]);
    }
  }

  predicate MovesStartAt(spec: Spec, w: World, steps: seq<Step>, i: nat)
    requires i < |steps|
  {
    MovesStart(Exec(spec, w, steps[..i]), steps[i])
  }

  ghost predicate EverMovesStart(spec: Spec, w: World, steps: seq<Step>) {
    exists i :: 0 <= i < |steps| && MovesStartAt(spec, w, steps, i)
  }

  lemma TruncateGrows(a: int, b: int)
    requires a <= b && Truncate(a) == a
    ensures a <= Truncate(b)
  {
    assert a % SECOND == 0;
  }

  lemma StartOnlyGrows(spec: Spec, w: World, step: Step)
    requires StartInPast(w) && w.status.startTime.Some?
    ensures var t := Apply(spec, w, step).status.startTime;
            && t.Some? && w.status.startTime.value <= t.value
            && (MovesStart(w, step) <==> w.status.startTime.value < t.value)
  {
    StartTimeStep(spec, w, step);
    if SetsStart(w, step) {
      TruncateGrows(w.status.startTime.value, w.now + step.faults.busy);
    }
  }

  /** The start time of a started job survives a run exactly if no step of it starts a missing container
      in a later second and gets that written. */
  lemma {:induction false} StartTimeExactly(spec: Spec, w: World, steps: seq<Step>)
    requires StartInPast(w) && w.status.startTime.Some?
    ensures var t := Exec(spec, w, steps).status.startTime;
            && t.Some? && w.status.startTime.value <= t.value
            && (t == w.status.startTime <==> !EverMovesStart(spec, w, steps))
  {
    if steps != [] {
      var n := |steps| - 1;
      StartTimeExactly(spec, w, steps[..n]);
      RunStartInPast(spec, w, steps[..n]);
      StartOnlyGrows(spec, Exec(spec, w, steps[..n]), steps[n]);
      MovesLastOrEarlier(spec, w, steps);
    }
  }

  lemma MovesLastOrEarlier(spec: Spec, w: World, steps: seq<Step>)
    requires steps != []
    ensures EverMovesStart(spec, w, steps)
            <==> EverMovesStart(spec, w, steps[..|steps| - 1]) || MovesStartAt(spec, w, steps, |steps| - 1)
  {
    var n := |steps| - 1;
    forall i | 0 <= i < n ensures MovesStartAt(spec, w, steps, i) <==> MovesStartAt(spec, w, steps[..n], i) {
      assert steps[..n][..i] == steps[..i];
    }
    if EverMovesStart(spec, w, steps[..n]) {
      var i :| 0 <= i < n && MovesStartAt(spec, w, steps[..n], i);
      assert MovesStartAt(spec, w, steps, i);
    }
  }

  lemma UndisturbedKeepsStart(spec: Spec, w: World, steps: seq<Step>, i: nat)
    requires spec.backoffLimit < MAX_INT32 && Tracked(spec, w) && w.status.startTime.Some? && i < |steps|
    requires forall k :: 0 <= k < |steps| ==> Undisturbed(steps[k])
    requires StartInPast(w) && !EverMovesStart(spec, w, steps[..i])
    ensures !MovesStartAt(spec, w, steps, i)
  {
    RunKeepsTracked(spec, w, steps[..i]);
    StartTimeExactly(spec, w, steps[..i]);
  }

  /** The deadline covers the whole job: the start time written with the first container survives
      every retry of an undisturbed job. */
  lemma {:induction false} StartTimeStays(spec: Spec, w: World, steps: seq<Step>)
    requires spec.backoffLimit < MAX_INT32 && Tracked(spec, w) && StartInPast(w) && w.status.startTime.Some?
    requires forall i :: 0 <= i < |steps| ==> Undisturbed(steps[i])
    ensures !EverMovesStart(spec, w, steps)
  {
    if steps != [] {
      var n := |steps| - 1;
      StartTimeStays(spec, w, steps[..n]);
      MovesLastOrEarlier(spec, w, steps);
      UndisturbedKeepsStart(spec, w, steps, n);
    }
  }

  lemma StartTimeSurvives(spec: Spec, start: int, steps: seq<Step>, more: seq<Step>)
    requires spec.backoffLimit < MAX_INT32
    requires forall i :: 0 <= i < |steps| ==> Undisturbed(steps[i])
    requires forall i :: 0 <= i < |more| ==> Undisturbed(more[i])
    ensures var w := Exec(spec, Init(start), steps);
            w.status.startTime.Some? ==> Exec(spec, w, more).status.startTime == w.status.startTime
  {
    var w := Exec(spec, Init(start), steps);
    RunKeepsTracked(spec, Init(start), steps);
    RunStartInPast(spec, Init(start), steps);
    if w.status.startTime.Some? {
      StartTimeStays(spec, w, more);
      StartTimeExactly(spec, w, more);
    }
  }

  /** A container removed behind the controller's back restarts the clock. */
  lemma RemovalRestartsDeadline(spec: Spec, w: World)
    requires !Terminal(w.status)
    ensures var t := Exec(spec, w, [OutsideRemoval, Sync(NO_FAULTS)]);
            t.status.startTime == Some(Truncate(w.now)) && t.status.phase == Running
  {
    var steps := Extend(spec, w, [], OutsideRemoval);
    steps := Extend(spec, w, steps, Sync(NO_FAULTS));
  }

  /** So does a retry that removes the old container, cannot create a new one and loses that write. */
  lemma LostRetryRestartsDeadline(spec: Spec, w: World, code: int, f: Faults, wait: nat)
    requires !Terminal(w.status) && w.box == Exited(code) && Wrap32(code) != 0
    requires w.status.attempts <= spec.backoffLimit
    requires f.clientOk && f.inspect == Seen && f.removeOk && f.create == NotCreated && !f.writeOk
    ensures var t := Exec(spec, w, [Sync(f), Tick(wait), Sync(NO_FAULTS)]);
            t.status.startTime == Some(Truncate(w.now + f.busy + f.writing + wait)) && t.status.phase == Running
  {
    var steps := Extend(spec, w, [], Sync(f));
    steps := Extend(spec, w, steps, Tick(wait));
    steps := Extend(spec, w, steps, Sync(NO_FAULTS));
    assert steps == [Sync(f), Tick(wait), Sync(NO_FAULTS)];
  }

  // Time to live

  /** The reconcile removes the container of a finished job. */
  predicate CleansUp(spec: Spec, w: World, f: Faults) {
    && f.clientOk && f.inspect == Seen && w.box != Missing && Reconcile(spec, w, f).0.box == Missing
    && (Terminal(w.status) || (var a := Decide(spec, w.status, w.box, w.now); a.Finish? || a.GiveUp?))
  }

  /** The stored completion time is known and its time to live has passed. */
  predicate TtlPassed(spec: Spec, s: Status, now: int) {
    && spec.ttlSeconds.Some? && s.completionTime.Some?
    && now >= s.completionTime.value + spec.ttlSeconds.value * 1_000_000_000
  }

  /** A container is cleaned up after its stored completion time plus the time to live, exactly if the
      job was stored as finished before or the write that finishes it lands. */
  lemma CleanupTiming(spec: Spec, w: World, f: Faults)
    requires Consistent(w.status) && CleansUp(spec, w, f)
    ensures var t := Reconcile(spec, w, f).0;
            TtlPassed(spec, t.status, t.now) <==> Terminal(w.status) || f.writeOk
  {
    TtlNeverOverflows(spec.ttlSeconds.value);
  }

  /** The reconcile finds the container exited for good. */
  predicate Concludes(spec: Spec, w: World, f: Faults) {
    && f.clientOk && f.inspect == Seen && !Terminal(w.status) && w.box.Exited?
    && !Decide(spec, w.status, w.box, w.now).Retry?
  }

  /** The write is lost after at least the time to live. */
  predicate LostTooLate(spec: Spec, f: Faults) {
    !f.writeOk && spec.ttlSeconds.Some? && f.writing >= spec.ttlSeconds.value * 1_000_000_000
  }

  /** The container of a job still stored as unfinished is removed exactly if the write that finishes it
      is lost and took at least the time to live. */
  lemma RemovedUnfinishedExactly(spec: Spec, w: World, f: Faults)
    requires Concludes(spec, w, f) && f.removeOk
    ensures var t := Reconcile(spec, w, f).0;
            t.box == Missing && !Terminal(t.status) <==> LostTooLate(spec, f)
  {
    if spec.ttlSeconds.Some? {
      TtlNeverOverflows(spec.ttlSeconds.value);
    }
  }

  /** In that case, and in no other, the next reconcile runs the job again, although it was over. */
  lemma LostSuccessRunsAgain(spec: Spec, w: World, f: Faults)
    requires Concludes(spec, w, f) && f.removeOk
    ensures var t := Exec(spec, w, [Sync(f), Sync(NO_FAULTS)]);
            && (t.starts == w.starts + 1 <==> LostTooLate(spec, f))
            && (LostTooLate(spec, f) ==>
                  t.box == Up && t.status.phase == Running
                  && t.status.startTime == Some(Truncate(w.now + f.writing)))
  {
    RemovedUnfinishedExactly(spec, w, f);
    var steps := Extend(spec, w, [], Sync(f));
    steps := Extend(spec, w, steps, Sync(NO_FAULTS));
  }

  ghost predicate CompletedInPast(w: World) {
    w.status.completionTime.Some? ==> w.status.completionTime.value <= w.now
  }

  lemma {:induction false} RunCompletedInPast(spec: Spec, w: World, steps: seq<Step>)
    requires CompletedInPast(w)
    ensures CompletedInPast(Exec(spec, w, steps))
  {
    if steps != [] {
      RunCompletedInPast(spec, w, steps[..|steps| - 1]);
    }
  }

  /** In every run, a reconcile that finishes a job or finds it finished returns a delay after which a
      faultless reconcile always cleans up. */
  lemma WakeUpIsEnough(spec: Spec, start: int, steps: seq<Step>, f: Faults, later: int)
    requires f.clientOk
    requires var (t, r) := Reconcile(spec, Exec(spec, Init(start), steps), f);
             Terminal(t.status) && r.Requeue? && later >= t.now + r.after
    ensures var (t, r) := Reconcile(spec, Exec(spec, Init(start), steps), f);
            r.after > 0 && Reconcile(spec, t.(now := later), NO_FAULTS).0.box == Missing
  {
    var w := Exec(spec, Init(start), steps);
    RunIsConsistent(spec, Init(start), steps);
    RunCompletedInPast(spec, Init(start), steps);
    WakeUp(spec, w, f, later);
  }

  lemma WakeUp(spec: Spec, w: World, f: Faults, later: int)
    requires Consistent(w.status) && CompletedInPast(w) && f.clientOk
    requires var (t, r) := Reconcile(spec, w, f); Terminal(t.status) && r.Requeue? && later >= t.now + r.after
    ensures var (t, r) := Reconcile(spec, w, f);
            r.after > 0 && Reconcile(spec, t.(now := later), NO_FAULTS).0.box == Missing
  {
    TtlNeverOverflows(spec.ttlSeconds.value);
  }

  /** The delay is exact: in every run, a reconcile that finds a job finished, or finishes it with its write,
      asks to be called when the stored completion time plus the time to live is reached, and not later;
      from then on it asks for nothing. */
  lemma DelayExactly(spec: Spec, start: int, steps: seq<Step>, f: Faults)
    requires var w := Exec(spec, Init(start), steps);
             f.clientOk && (Terminal(w.status) || (Concludes(spec, w, f) && f.writeOk))
    ensures var (t, r) := Reconcile(spec, Exec(spec, Init(start), steps), f);
            && Terminal(t.status) && t.status.completionTime.Some?
            && r == if spec.ttlSeconds.None? || TtlPassed(spec, t.status, t.now) then Done
                    else Requeue(t.status.completionTime.value + spec.ttlSeconds.value * 1_000_000_000 - t.now)
  {
    var w := Exec(spec, Init(start), steps);
    RunIsConsistent(spec, Init(start), steps);
    RunCompletedInPast(spec, Init(start), steps);
    if Terminal(w.status) {
      DelayOf(spec, w.status.completionTime.value, w.now);
    } else {
      ConcludeDelay(spec, w, f);
    }
  }

  lemma ConcludeDelay(spec: Spec, w: World, f: Faults)
    requires Concludes(spec, w, f) && f.writeOk
    ensures var (t, r) := Reconcile(spec, w, f);
            && Terminal(t.status) && t.status.completionTime.Some?
            && r == if spec.ttlSeconds.None? || TtlPassed(spec, t.status, t.now) then Done
                    else Requeue(t.status.completionTime.value + spec.ttlSeconds.value * 1_000_000_000 - t.now)
  {
    var (t, r) := Reconcile(spec, w, f);
    assert t.status.completionTime == Some(Truncate(w.now)) && t.now == w.now + f.writing;
    assert r == CleanupResult(spec, Some(Truncate(w.now)), w.now + f.writing);
    TruncateIsSecond(w.now);
    DelayOf(spec, Truncate(w.now), w.now + f.writing);
  }

  lemma DelayOf(spec: Spec, completed: int, now: int)
    requires completed <= now
    ensures CleanupResult(spec, Some(completed), now)
            == if spec.ttlSeconds.None? || now >= completed + spec.ttlSeconds.value * 1_000_000_000 then Done
               else Requeue(completed + spec.ttlSeconds.value * 1_000_000_000 - now)
  {
    if spec.ttlSeconds.Some? {
      TtlNeverOverflows(spec.ttlSeconds.value);
    }
  }
}
