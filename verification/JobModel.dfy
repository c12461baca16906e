/** The DockerJob lifecycle as one decision and one effect per reconcile, together with the moves of
    its environment. `JobController` shows that the reconciler's step-by-step code does this. */
module JobModel {
  import opened Wrappers
  import opened GoInts

  /** Times and durations are in nanoseconds. */
  const SECOND := 1_000_000_000
  const REQUEUE := 5 * SECOND

  /** `time.Duration(s) * time.Second` */
  function Seconds(s: int64): int64 {
    Wrap64(s * SECOND)
  }

  /** `now.Sub(t)`, which saturates. */
  function Since(now: int, t: int): int64 {
    var d := now - t;
    if d > MAX_INT64 then MAX_INT64 else if d < MIN_INT64 then MIN_INT64 else d
  }

  /** The API server keeps timestamps to the second. */
  function Truncate(t: int): int {
    t - t % SECOND
  }

  datatype Phase = Pending | Running | Succeeded | Failed

  datatype Message =
    | NoMessage
    | Started
    | StillRunning
    | Completed
    | Retrying(attempt: int32)
    | FailedAfter(code: int32, attempts: int32)
    | CreateFailed
    | RetryFailed
    | DeadlineExceeded

  datatype Status = Status(
    phase: Phase,
    startTime: Option<int>,
    completionTime: Option<int>,
    exitCode: Option<int32>,
    attempts: int32,
    message: Message)

  datatype Spec = Spec(backoffLimit: int32, deadlineSeconds: Option<int64>, ttlSeconds: Option<int32>)

  /** The job's container on the Docker host. */
  datatype Box = Missing | Created | Up | Paused | Exited(code: int)

  /** What the calls of one reconcile answer. */
  datatype Inspect = Seen | InspectError | NoState
  datatype Create = StartedOk | NotCreated | NotStarted

  /** `stop` is the code with which the container exits when it is asked to stop, if it does. `busy` is
      the time the calls to the host take before the status is stamped, `writing` the time the status
      write takes. */
  datatype Faults = Faults(
    clientOk: bool, inspect: Inspect, create: Create, stop: Option<int>, removeOk: bool, writeOk: bool,
    busy: nat, writing: nat)

  datatype Result = Done | Requeue(after: int) | Error

  /** The stored status, the host, the clock, and what has happened so far: containers the controller
      started, those started as a retry, and starts whose status write was lost. */
  datatype World = World(status: Status, box: Box, now: int, starts: nat, retries: nat, lostStarts: nat)

  const NEW_STATUS := Status(Pending, None, None, None, 0, NoMessage)

  function Init(now: int): World {
    World(NEW_STATUS, Missing, now, 0, 0, 0)
  }

  predicate Terminal(s: Status) {
    s.phase == Succeeded || s.phase == Failed
  }

  function Store(s: Status): Status {
    s.(startTime := if s.startTime.Some? then Some(Truncate(s.startTime.value)) else None,
       completionTime := if s.completionTime.Some? then Some(Truncate(s.completionTime.value)) else None)
  }

  // Deciding

  datatype Action = Wait | Start | Adopt | Kill | Finish | Retry(code: int32) | GiveUp(code: int32)

  predicate Overdue(spec: Spec, s: Status, now: int) {
    && spec.deadlineSeconds.Some? && s.startTime.Some?
    && now > s.startTime.value + Seconds(spec.deadlineSeconds.value)
  }

  function Decide(spec: Spec, s: Status, box: Box, now: int): Action {
    match box
    case Missing => Start
    case Up => if Overdue(spec, s, now) then Kill else if s.phase != Running then Adopt else Wait
    case Exited(c) =>
      if Wrap32(c) == 0 then Finish
      else if s.attempts <= spec.backoffLimit then Retry(Wrap32(c))
      else GiveUp(Wrap32(c))
    case _ => Wait
  }

  // Acting

  function Fail(s: Status, now: int, message: Message): Status {
    s.(phase := Failed, completionTime := Some(now), message := message)
  }

  function BoxAfterCreate(f: Faults): Box {
    match f.create
    case StartedOk => Up
    case NotStarted => Created
    case NotCreated => Missing
  }

  predicate StartsBox(a: Action, f: Faults) {
    f.create == StartedOk && (a == Start || (a.Retry? && f.removeOk))
  }

  /** When the status is stamped: a finished container is stamped as soon as it is seen. */
  function Stamp(a: Action, now: int, f: Faults): int {
    if a == Start || a == Kill || a.Retry? then now + f.busy else now
  }

  function EndOf(a: Action, now: int, f: Faults): int {
    if a == Wait then now else Stamp(a, now, f) + f.writing
  }

  /** The status after an action, before it is written. */
  function NewStatus(s: Status, a: Action, now: int, f: Faults): Status {
    var at := Stamp(a, now, f);
    match a
    case Wait => s
    case Start =>
      if StartsBox(a, f)
      then s.(phase := Running, startTime := Some(at), attempts := Wrap32(s.attempts + 1), message := Started)
      else Fail(s, at, CreateFailed)
    case Adopt => s.(phase := Running, message := StillRunning)
    case Kill => Fail(s, at, DeadlineExceeded)
    case Finish => s.(phase := Succeeded, exitCode := Some(0), completionTime := Some(at), message := Completed)
    case Retry(code) =>
      var n := Wrap32(s.attempts + 1);
      if StartsBox(a, f)
      then s.(phase := Running, attempts := n, exitCode := None, completionTime := None, message := Retrying(n))
      else Fail(s, at, RetryFailed).(exitCode := Some(code))
    case GiveUp(code) => Fail(s, at, FailedAfter(code, s.attempts)).(exitCode := Some(code))
  }

  /** A write that lands also gives the writer the times as the API server keeps them. */
  function Refreshed(t: int, f: Faults): int {
    if f.writeOk then Truncate(t) else t
  }

  /** Has the time to live passed for a job that completed at the given time? */
  predicate Expired(spec: Spec, completed: int, now: int) {
    spec.ttlSeconds.Some? && Since(now, completed) >= Seconds(spec.ttlSeconds.value)
  }

  function Remove(box: Box, f: Faults): Box {
    if f.removeOk then Missing else box
  }

  /** A running container that is stopped and then removed. */
  function AfterKill(f: Faults): Box {
    if f.removeOk then Missing else if f.stop.Some? then Exited(f.stop.value) else Up
  }

  /** The time to live of a job that just finished passes while its status is written. */
  predicate ExpiresAtOnce(spec: Spec, w: World, a: Action, f: Faults) {
    (a.Finish? || a.GiveUp?) && Expired(spec, Refreshed(w.now, f), w.now + f.writing)
  }

  function NewBox(spec: Spec, w: World, a: Action, f: Faults): Box {
    match a
    case Start => BoxAfterCreate(f)
    case Kill => AfterKill(f)
    case Retry(_) => if f.removeOk then BoxAfterCreate(f) else w.box
    case _ => if ExpiresAtOnce(spec, w, a, f) then Remove(w.box, f) else w.box
  }

  function CleanupResult(spec: Spec, completed: Option<int>, now: int): Result {
    if spec.ttlSeconds.None? || completed.None? || Expired(spec, completed.value, now) then Done
    else Requeue(Wrap64(Seconds(spec.ttlSeconds.value) - Since(now, completed.value)))
  }

  function NewResult(spec: Spec, w: World, a: Action, f: Faults): Result {
    match a
    case Start => if StartsBox(a, f) then Requeue(REQUEUE) else Error
    case Retry(_) => if StartsBox(a, f) then Requeue(REQUEUE) else Error
    case Kill => Done
    case Finish => CleanupResult(spec, Some(Refreshed(w.now, f)), w.now + f.writing)
    case GiveUp(_) => CleanupResult(spec, Some(Refreshed(w.now, f)), w.now + f.writing)
    case _ => Requeue(REQUEUE)
  }

  function Act(spec: Spec, w: World, a: Action, f: Faults): World {
    var started := StartsBox(a, f);
    World(
      if f.writeOk && a != Wait then Store(NewStatus(w.status, a, w.now, f)) else w.status,
      NewBox(spec, w, a, f),
      EndOf(a, w.now, f),
      w.starts + (if started then 1 else 0),
      w.retries + (if started && a.Retry? then 1 else 0),
      w.lostStarts + (if started && !f.writeOk then 1 else 0))
  }

  function CleanUp(spec: Spec, w: World, f: Faults): World {
    if w.status.completionTime.Some? && Expired(spec, w.status.completionTime.value, w.now)
    then w.(box := Remove(w.box, f))
    else w
  }

  function Reconcile(spec: Spec, w: World, f: Faults): (World, Result) {
    if !f.clientOk then (w, Error)
    else if Terminal(w.status) then (CleanUp(spec, w, f), CleanupResult(spec, w.status.completionTime, w.now))
    else if f.inspect == InspectError then (w, Error)
    else if w.box != Missing && f.inspect == NoState then (w, Requeue(REQUEUE))
    else
      var a := Decide(spec, w.status, w.box, w.now);
      (Act(spec, w, a, f), NewResult(spec, w, a, f))
  }

  // Runs

  datatype Step =
    | Sync(faults: Faults)
    | Tick(elapsed: nat)
    | Exit(code: int)
    | Suspend
    | Resume
    | OutsideRemoval
    | Foreign(box: Box)   // somebody else's container takes the name

  function Apply(spec: Spec, w: World, step: Step): World {
    match step
    case Sync(f) => Reconcile(spec, w, f).0
    case Tick(d) => w.(now := w.now + d)
    case Exit(code) => if w.box == Up then w.(box := Exited(code)) else w
    case Suspend => if w.box == Up then w.(box := Paused) else w
    case Resume => if w.box == Paused then w.(box := Up) else w
    case OutsideRemoval => w.(box := Missing)
    case Foreign(box) => if w.box == Missing then w.(box := box) else w
  }

  function Exec(spec: Spec, w: World, steps: seq<Step>): World {
    if steps == [] then w else Apply(spec, Exec(spec, w, steps[..|steps| - 1]), steps[|steps| - 1])
  }
}
