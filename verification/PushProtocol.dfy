/** Target distribution as a whole: the DockerService reconciler writes one list to a ConfigMap and
    pushes it; the kubelet mounts the ConfigMap as a file some time later; pushes may be lost,
    repeated or reordered; the server reads the file outside its lock and commits later. */
module PushProtocol {
  import opened Wrappers
  import opened GoStrings
  import opened TargetList
  import opened TunnelServer

  /** One successful selection, with the lists it was made from. */
  datatype Pick = Pick(targets: seq<string>, sessions: seq<Session>, choice: Choice)

  datatype System = System(
    server: State,
    now: int,
    configMap: Option<string>,
    file: Option<string>,     // what the mounted file holds; None while it cannot be read
    inFlight: seq<string>,    // contents read by loads that have not committed yet
    sent: set<string>,        // pushes that were sent
    published: set<string>,   // every list the ConfigMap ever held
    picks: seq<Pick>)

  datatype Step =
    | Tick(elapsed: nat)
    | Accept
    | Connect(session: Session)
    | Disconnect(session: Session)
    | Reconcile(targetIPs: seq<string>, podRunning: bool, touched: bool)
    | Mount(version: string)
    | Deliver(csv: string)
    | ReadFile
    | CommitFile(load: nat)

  function Init(targets: seq<string>, now: int): System {
    System(State([], targets, [], None, 0), now, None, None, [], {}, {}, [])
  }

  /** The ConfigMap is created silently; only a changed ConfigMap is pushed. `touched` says that it has to
      be written for another reason, such as a missing owner reference. */
  function ReconcileTargets(s: System, targetIPs: seq<string>, podRunning: bool, touched: bool): System {
    var csv := Csv(targetIPs);
    if s.configMap == Some(csv) && !touched then s
    else
      s.(configMap := Some(csv),
         published := s.published + {csv},
         sent := if s.configMap.Some? && podRunning then s.sent + {csv} else s.sent)
  }

  function BeginLoad(s: System): System {
    if s.file.None? then s else s.(inFlight := s.inFlight + [s.file.value])
  }

  function Apply(s: System, step: Step): System {
    match step
    case Tick(d) => s.(now := s.now + d)
    case Accept =>
      var choice := Choose(s.server);
      s.(server := AfterAccept(s.server),
         picks := if choice.Chosen? then s.picks + [Pick(s.server.targets, s.server.sessions, choice)] else s.picks)
    case Connect(x) =>
      if x in s.server.sessions then s else s.(server := s.server.(sessions := s.server.sessions + [x]))
    case Disconnect(x) => s.(server := s.server.(sessions := Without(s.server.sessions, x)))
    case Reconcile(ips, podRunning, touched) => ReconcileTargets(s, ips, podRunning, touched)
    case Mount(version) => if version in s.published then s.(file := Some(version)) else s
    case Deliver(csv) =>
      if csv !in s.sent then s
      else if csv == "" then BeginLoad(s)
      else s.(server := AfterPush(s.server, Parse(csv), s.now))
    case ReadFile => BeginLoad(s)
    case CommitFile(i) =>
      if i >= |s.inFlight| then s
      else
        s.(server := AfterFile(s.server, Parse(s.inFlight[i]), s.now),
           inFlight := s.inFlight[..i] + s.inFlight[i + 1..])
  }

  function Exec(s: System, steps: seq<Step>): System {
    if steps == [] then s else Apply(Exec(s, steps[..|steps| - 1]), steps[|steps| - 1])
  }

  lemma {:induction false} ExecConcat(s: System, a: seq<Step>, b: seq<Step>)
    ensures Exec(s, a + b) == Exec(Exec(s, a), b)
  {
    if b == [] {
      assert a + b == a;
    } else {
      assert (a + b)[..|a + b| - 1] == a + b[..|b| - 1];
      ExecConcat(s, a, b[..|b| - 1]);
    }
  }

  // What every run keeps

  /** While a push is recent, its list is the one in force. */
  ghost predicate PushInForce(s: System) {
    RecentPush(s.server, s.now) ==> s.server.targets == s.server.pushTargets
  }

  /** Every list in force was the initial one or was published by the reconciler at some time. */
  ghost predicate Published(s: System, list: seq<string>) {
    exists csv :: csv in s.published && list == Parse(csv)
  }

  ghost predicate NothingInvented(s: System, initial: seq<string>) {
    (s.server.targets == initial || Published(s, s.server.targets)) && TextsPublished(s)
  }

  ghost predicate TextsPublished(s: System) {
    && s.sent <= s.published
    && (s.file.Some? ==> s.file.value in s.published)
    && (forall i :: 0 <= i < |s.inFlight| ==> s.inFlight[i] in s.published)
  }

  /** Entry k of the log was chosen with the shared counter at k. */
  ghost predicate PickedInTurn(p: Pick, k: nat) {
    && p.targets != [] && p.sessions != []
    && p.choice == Chosen((k % UINT64) % |p.targets|, (k % UINT64) % |p.sessions|)
  }

  ghost predicate CountersAgree(s: System) {
    && s.server.rrIndex == |s.picks| % UINT64
    && forall k :: 0 <= k < |s.picks| ==> PickedInTurn(s.picks[k], k)
  }

  ghost predicate Inv(s: System, initial: seq<string>) {
    PushInForce(s) && NothingInvented(s, initial) && CountersAgree(s) && Distinct(s.server.sessions)
  }

  lemma NextCounter(k: nat)
    ensures (k + 1) % UINT64 == (k % UINT64 + 1) % UINT64
  {
  }

  lemma StepKeepsTexts(s: System, step: Step)
    requires TextsPublished(s)
    ensures TextsPublished(Apply(s, step)) && s.published <= Apply(s, step).published
  {
  }

  lemma StepTakesPublished(s: System, step: Step)
    requires TextsPublished(s)
    ensures var t := Apply(s, step); t.server.targets == s.server.targets || Published(s, t.server.targets)
  {
    match step {
      case Deliver(csv) => assert csv in s.sent ==> csv in s.published;
      case CommitFile(i) => assert i < |s.inFlight| ==> s.inFlight[i] in s.published;
      case _ =>
    }
  }

  lemma StepKeepsPublished(s: System, step: Step, initial: seq<string>)
    requires NothingInvented(s, initial)
    ensures NothingInvented(Apply(s, step), initial)
  {
    var t := Apply(s, step);
    StepKeepsTexts(s, step);
    StepTakesPublished(s, step);
    if Published(s, t.server.targets) {
      var csv :| csv in s.published && t.server.targets == Parse(csv);
      assert csv in t.published;
    }
  }

  lemma StepKeepsCounters(s: System, step: Step)
    requires CountersAgree(s)
    ensures CountersAgree(Apply(s, step))
  {
    if step.Accept? {
      NextCounter(|s.picks|);
    }
  }

  lemma StepKeepsInv(s: System, step: Step, initial: seq<string>)
    requires Inv(s, initial)
    ensures Inv(Apply(s, step), initial)
  {
    StepKeepsPublished(s, step, initial);
    StepKeepsCounters(s, step);
    if step.Disconnect? {
      WithoutKeepsDistinct(s.server.sessions, step.session);
    }
  }

  lemma {:induction false} RunKeepsInv(s: System, steps: seq<Step>, initial: seq<string>)
    requires Inv(s, initial)
    ensures Inv(Exec(s, steps), initial)
  {
    if steps != [] {
      RunKeepsInv(s, steps[..|steps| - 1], initial);
      StepKeepsInv(Exec(s, steps[..|steps| - 1]), steps[|steps| - 1], initial);
    }
  }

  /** Push priority: in every reachable state less than two minutes after the last push, the pushed
      list is in force, whatever stale file contents are in flight. */
  lemma PushPriority(initial: seq<string>, start: int, steps: seq<Step>)
    ensures var s := Exec(Init(initial, start), steps);
            s.server.lastPush.Some? && s.now - s.server.lastPush.value < 2 * MINUTE ==>
              s.server.targets == s.server.pushTargets
  {
    RunKeepsInv(Init(initial, start), steps, initial);
  }

  /** The server never forwards to a list nobody published. */
  lemma OnlyPublishedTargets(initial: seq<string>, start: int, steps: seq<Step>)
    ensures var s := Exec(Init(initial, start), steps);
            s.server.targets == initial || Published(s, s.server.targets)
  {
    RunKeepsInv(Init(initial, start), steps, initial);
  }

  /** Dropped connections do not advance the counter: it is the number of successful selections. */
  lemma CounterIsSelections(initial: seq<string>, start: int, steps: seq<Step>)
    ensures var s := Exec(Init(initial, start), steps);
            s.server.rrIndex == |s.picks| % UINT64
  {
    RunKeepsInv(Init(initial, start), steps, initial);
  }

  // How long a push holds

  predicate IsPush(step: Step) {
    step.Deliver? && step.csv != ""
  }

  lemma {:induction false} WithoutPush(s: System, steps: seq<Step>)
    requires forall i :: 0 <= i < |steps| ==> !IsPush(steps[i])
    ensures var t := Exec(s, steps);
            t.server.lastPush == s.server.lastPush && t.server.pushTargets == s.server.pushTargets && t.now >= s.now
  {
    if steps != [] {
      assert !IsPush(steps[|steps| - 1]);
      WithoutPush(s, steps[..|steps| - 1]);
    }
  }

  /** A push is the source of truth for two minutes: until then only another push can change the
      targets. In particular the push that announces an empty list is only a request to read the
      file, so a service scaled to zero keeps forwarding to the last pushed targets meanwhile. */
  lemma PushHolds(initial: seq<string>, start: int, before: seq<Step>, csv: string, after: seq<Step>)
    requires csv in Exec(Init(initial, start), before).sent && csv != ""
    requires forall i :: 0 <= i < |after| ==> !IsPush(after[i])
    ensures var s := Exec(Init(initial, start), before);
            var t := Exec(Apply(s, Deliver(csv)), after);
            t.now - s.now < 2 * MINUTE ==> t.server.targets == Parse(csv)
  {
    var s := Exec(Init(initial, start), before);
    RunKeepsInv(Init(initial, start), before, initial);
    PushTakesEffect(s, csv, initial);
    HoldsUntilExpiry(Apply(s, Deliver(csv)), after, initial);
  }

  lemma PushTakesEffect(s: System, csv: string, initial: seq<string>)
    requires Inv(s, initial) && csv in s.sent && csv != ""
    ensures var t := Apply(s, Deliver(csv));
            Inv(t, initial) && t.server.pushTargets == Parse(csv) && t.server.lastPush == Some(s.now) && t.now == s.now
  {
    StepKeepsInv(s, Deliver(csv), initial);
  }

  lemma HoldsUntilExpiry(s: System, after: seq<Step>, initial: seq<string>)
    requires Inv(s, initial)
    requires forall i :: 0 <= i < |after| ==> !IsPush(after[i])
    ensures var t := Exec(s, after);
            s.server.lastPush.Some? && t.now - s.server.lastPush.value < PUSH_WINDOW ==>
              t.server.targets == s.server.pushTargets
  {
    RunKeepsInv(s, after, initial);
    WithoutPush(s, after);
  }

  // What is sent

  /** Exactly when a list goes out: a pod runs, and a ConfigMap that existed held another text or had to be
      written for another reason. Nothing else is sent. */
  lemma SentExactly(s: System, targets: seq<string>, podRunning: bool, touched: bool, text: string)
    ensures text in Apply(s, Reconcile(targets, podRunning, touched)).sent <==>
            || text in s.sent
            || (text == Csv(targets) && podRunning && s.configMap.Some? && (s.configMap.value != text || touched))
  {
  }

  lemma CsvIsNotEmpty(targets: seq<string>)
    requires AllWellFormed(targets) && targets != []
    ensures Csv(targets) != ""
  {
    RoundTrip(targets);
    SortSorts(targets);
    assert |multiset(Sort(targets))| == |targets|;
    assert Compact([""][1..]) == [];
  }

  /** A changed list reaches the server at once: after any history in which the ConfigMap exists with
      another text, reconciling non-empty targets and delivering the push puts exactly them, sorted, in
      force. */
  lemma ChangeIsPushed(s: System, targets: seq<string>)
    requires AllWellFormed(targets) && targets != []
    requires s.configMap.Some? && s.configMap.value != Csv(targets)
    ensures Exec(s, [Reconcile(targets, true, false), Deliver(Csv(targets))]).server.targets == Sort(targets)
  {
    var steps := Extend(s, [], Reconcile(targets, true, false));
    steps := Extend(s, steps, Deliver(Csv(targets)));
    CsvIsNotEmpty(targets);
    RoundTrip(targets);
  }

  /** From the very start: the first list is written silently, a different second one is pushed. */
  lemma SecondListIsPushed(
    initial: seq<string>, start: int, a: seq<string>, b: seq<string>, podRunning: bool, touched: bool)
    requires AllWellFormed(a) && AllWellFormed(b) && b != [] && multiset(a) != multiset(b)
    ensures var first := Reconcile(a, podRunning, touched);
            && Exec(Init(initial, start), [first]).sent == {}
            && Exec(Init(initial, start), [first, Reconcile(b, true, false), Deliver(Csv(b))]).server.targets == Sort(b)
  {
    var s, first := Init(initial, start), Reconcile(a, podRunning, touched);
    var steps := Extend(s, [], first);
    var t := Exec(s, steps);
    CsvIsCanonical(a, b);
    ChangeIsPushed(t, b);
    var more := [Reconcile(b, true, false), Deliver(Csv(b))];
    ExecConcat(s, steps, more);
    assert steps + more == [first, Reconcile(b, true, false), Deliver(Csv(b))];
  }

  /** An empty list is announced by a request without targets, which only makes the server read the file
      (see `OneLoadSuffices`). */
  lemma EmptyPushReadsFile(s: System)
    requires "" in s.sent
    ensures Apply(s, Deliver("")) == Apply(s, ReadFile)
  {
  }

  lemma CommitTakes(s: System, i: nat, F: string)
    requires Settled(s, F) && i < |s.inFlight|
    ensures var t := Apply(s, CommitFile(i));
            t.server.targets == Parse(s.inFlight[i]) && t.inFlight == s.inFlight[..i] + s.inFlight[i + 1..]
  {
  }

  /** A connection is served exactly if there are sessions and targets, and a session that comes and goes
      leaves no trace. */
  lemma ServedExactly(s: System, x: Session)
    ensures |Apply(s, Accept).picks| == |s.picks| + (if s.server.sessions != [] && s.server.targets != [] then 1 else 0)
    ensures x !in s.server.sessions ==>
              && Apply(s, Connect(x)).server.sessions == s.server.sessions + [x]
              && Apply(Apply(s, Connect(x)), Disconnect(x)) == s
  {
    if x !in s.server.sessions {
      WithoutLast(s.server.sessions, x);
    }
  }

  /** Reconciling a reordered container list changes nothing and sends nothing. */
  lemma NoSpuriousPush(s: System, a: seq<string>, b: seq<string>, p: bool, q: bool, touched: bool)
    requires multiset(a) == multiset(b)
    ensures Apply(Apply(s, Reconcile(a, p, touched)), Reconcile(b, q, false)) == Apply(s, Reconcile(a, p, touched))
  {
    SortIgnoresOrder(a, b);
  }

  // Convergence

  /** No push arrives and the mounted file stays at F. */
  predicate Calm(step: Step, F: string) {
    !IsPush(step) && (step.Mount? ==> step.version == F)
  }

  predicate AllCalm(steps: seq<Step>, F: string) {
    forall i :: 0 <= i < |steps| ==> Calm(steps[i], F)
  }

  /** No load that has read but not yet committed holds a list other than F's. */
  predicate NoStaleLoad(s: System, F: string) {
    AllHold(s.inFlight, Parse(F))
  }

  predicate AllHold(contents: seq<string>, list: seq<string>) {
    forall i :: 0 <= i < |contents| ==> Parse(contents[i]) == list
  }

  /** The file holds F and the last push, if any, is at least two minutes old. */
  predicate Settled(s: System, F: string) {
    s.file == Some(F) && (s.server.lastPush.Some? ==> s.now - s.server.lastPush.value >= 2 * MINUTE)
  }

  predicate Commits(s: System, step: Step) {
    step.CommitFile? && step.load < |s.inFlight|
  }

  /** Some step of the run commits a load. */
  predicate RunCommits(s: System, steps: seq<Step>) {
    exists i :: 0 <= i < |steps| && CommitsAt(s, steps, i)
  }

  lemma LoadKeepsFile(s: System, F: string)
    requires s.file == Some(F) && NoStaleLoad(s, F)
    ensures BeginLoad(s).file == Some(F) && NoStaleLoad(BeginLoad(s), F)
  {
  }

  lemma OneLess(contents: seq<string>, i: nat, list: seq<string>)
    requires i < |contents| && AllHold(contents, list)
    ensures AllHold(contents[..i] + contents[i + 1..], list)
  {
  }

  lemma CalmStepKeepsFile(s: System, step: Step, F: string)
    requires s.file == Some(F) && NoStaleLoad(s, F) && Calm(step, F)
    ensures Apply(s, step).file == Some(F) && NoStaleLoad(Apply(s, step), F)
  {
    match step {
      case CommitFile(i) =>
        if i < |s.inFlight| {
          OneLess(s.inFlight, i, Parse(F));
        }
      case ReadFile => LoadKeepsFile(s, F);
      case Deliver(csv) => LoadKeepsFile(s, F);
      case _ => assert Apply(s, step).inFlight == s.inFlight;
    }
  }

  lemma CalmStepTargets(s: System, step: Step, F: string)
    requires Settled(s, F) && NoStaleLoad(s, F) && Calm(step, F)
    ensures var t := Apply(s, step);
            && (t.server.lastPush.Some? ==> t.now - t.server.lastPush.value >= 2 * MINUTE)
            && t.server.targets == if Commits(s, step) then Parse(F) else s.server.targets
  {
    match step {
      case CommitFile(i) => assert i < |s.inFlight| ==> Parse(s.inFlight[i]) == Parse(F);
      case _ =>
    }
  }

  lemma CalmStep(s: System, step: Step, F: string)
    requires Settled(s, F) && NoStaleLoad(s, F) && Calm(step, F)
    ensures var t := Apply(s, step);
            && Settled(t, F) && NoStaleLoad(t, F)
            && t.server.targets == if Commits(s, step) then Parse(F) else s.server.targets
  {
    CalmStepKeepsFile(s, step, F);
    CalmStepTargets(s, step, F);
  }

  /** Step i of the run commits a load. */
  predicate CommitsAt(s: System, steps: seq<Step>, i: nat)
    requires i < |steps|
  {
    Commits(Exec(s, steps[..i]), steps[i])
  }

  lemma LastOrEarlier(s: System, steps: seq<Step>)
    requires steps != [] && RunCommits(s, steps)
    ensures CommitsAt(s, steps, |steps| - 1) || RunCommits(s, steps[..|steps| - 1])
  {
    var n := |steps| - 1;
    var i :| 0 <= i < |steps| && CommitsAt(s, steps, i);
    if i < n {
      assert steps[..n][..i] == steps[..i];
      assert CommitsAt(s, steps[..n], i);
    }
  }

  lemma {:induction false} CalmRun(s: System, steps: seq<Step>, F: string)
    requires Settled(s, F) && NoStaleLoad(s, F) && AllCalm(steps, F)
    ensures var t := Exec(s, steps); Settled(t, F) && NoStaleLoad(t, F)
    ensures RunCommits(s, steps) || s.server.targets == Parse(F) ==> Exec(s, steps).server.targets == Parse(F)
  {
    if steps != [] {
      var n := |steps| - 1;
      CalmRun(s, steps[..n], F);
      CalmStep(Exec(s, steps[..n]), steps[n], F);
      if RunCommits(s, steps) {
        LastOrEarlier(s, steps);
      }
    }
  }

  lemma StaleLoadReverts(s: System, i: nat, F: string)
    requires Settled(s, F) && i < |s.inFlight|
    ensures RunCommits(s, [CommitFile(i)])
    ensures Exec(s, [CommitFile(i)]).server.targets == Parse(s.inFlight[i])
  {
    var steps := Extend(s, [], CommitFile(i));
    CommitTakes(s, i, F);
    assert steps[..0] == [];
    assert CommitsAt(s, steps, 0);
  }

  /** Convergence, exactly: once the file is stable and the push window has passed, every calm run
      that commits a load ends with the file's list if and only if no load still in flight read a
      different list before. */
  lemma ConvergesExactly(s: System, F: string)
    requires Settled(s, F)
    ensures NoStaleLoad(s, F) <==>
            forall steps :: AllCalm(steps, F) && RunCommits(s, steps) ==> Exec(s, steps).server.targets == Parse(F)
  {
    if NoStaleLoad(s, F) {
      forall steps | AllCalm(steps, F) && RunCommits(s, steps)
        ensures Exec(s, steps).server.targets == Parse(F)
      {
        CalmRun(s, steps, F);
      }
    } else {
      var i :| 0 <= i < |s.inFlight| && Parse(s.inFlight[i]) != Parse(F);
      StaleLoadReverts(s, i, F);
      assert AllCalm([CommitFile(i)], F);
    }
  }

  lemma Extend(s: System, steps: seq<Step>, step: Step) returns (more: seq<Step>)
    ensures more == steps + [step] && Exec(s, more) == Apply(Exec(s, steps), step)
  {
    more := steps + [step];
    assert more[..|steps|] == steps;
  }

  /** The reconciler publishes two lists one after the other, and a load reads the file in between. */
  lemma ReadBetween(s: System, a: seq<string>, b: seq<string>) returns (steps: seq<Step>)
    requires s.configMap.Some? ==> s.configMap.value in s.published
    ensures var t := Exec(s, steps);
            && t.server == s.server && t.now == s.now
            && t.file == Some(Csv(b)) && t.inFlight == s.inFlight + [Csv(a)]
  {
    steps := Extend(s, [], Reconcile(a, true, false));
    steps := Extend(s, steps, Mount(Csv(a)));
    steps := Extend(s, steps, ReadFile);
    steps := Extend(s, steps, Reconcile(b, true, false));
    steps := Extend(s, steps, Mount(Csv(b)));
  }

  /** A stale load is a real possibility: for any two different lists of targets there is a run from the
      start to a settled state in which the file holds the second and a load in flight the first. */
  lemma StaleLoadIsReachable(initial: seq<string>, start: int, a: seq<string>, b: seq<string>)
    returns (steps: seq<Step>)
    requires AllWellFormed(a) && AllWellFormed(b) && multiset(a) != multiset(b)
    ensures var s := Exec(Init(initial, start), steps); Settled(s, Csv(b)) && !NoStaleLoad(s, Csv(b))
  {
    steps := ReadBetween(Init(initial, start), a, b);
    RoundTrip(a);
    RoundTrip(b);
    SortSorts(a);
    SortSorts(b);
    var s := Exec(Init(initial, start), steps);
    assert s.inFlight[0] == Csv(a);
  }

  /** Waiting two minutes settles a stable file. */
  lemma WaitingSettles(s: System, F: string, d: nat)
    requires s.file == Some(F) && (s.server.lastPush.Some? ==> s.server.lastPush.value <= s.now) && d >= 2 * MINUTE
    ensures Settled(Apply(s, Tick(d)), F) && Apply(s, Tick(d)).now == s.now + d
  {
  }

  /** A load is always possible, so convergence is never out of reach. */
  lemma OneLoadSuffices(s: System, F: string)
    requires Settled(s, F)
    ensures Exec(s, [ReadFile, CommitFile(|s.inFlight|)]).server.targets == Parse(F)
  {
    var steps := Extend(s, [], ReadFile);
    var more := Extend(s, steps, CommitFile(|s.inFlight|));
    CommitTakes(BeginLoad(s), |s.inFlight|, F);
  }

  lemma {:induction false} CalmKeepsFile(s: System, steps: seq<Step>, F: string)
    requires s.file == Some(F) && NoStaleLoad(s, F) && AllCalm(steps, F)
    ensures Exec(s, steps).file == Some(F) && NoStaleLoad(Exec(s, steps), F)
  {
    if steps != [] {
      var n := |steps| - 1;
      CalmKeepsFile(s, steps[..n], F);
      CalmStepKeepsFile(Exec(s, steps[..n]), steps[n], F);
    }
  }

  /** Self-healing of the whole protocol. Take any history of reconciles, lost, repeated and
      reordered pushes, mounts and loads that leaves the reconciler's list for `targets` in the file
      and no older content in flight. After a calm period that reaches two minutes past the last push
      and one more committed load, the server forwards to exactly those targets, sorted. */
  lemma SelfHealing(
    initial: seq<string>, start: int, history: seq<Step>, waiting: seq<Step>, later: seq<Step>, targets: seq<string>)
    requires AllWellFormed(targets)
    requires var s := Exec(Init(initial, start), history);
             s.file == Some(Csv(targets)) && NoStaleLoad(s, Csv(targets))
    requires AllCalm(waiting + later, Csv(targets))
    requires var w := Exec(Init(initial, start), history + waiting);
             Settled(w, Csv(targets)) && RunCommits(w, later)
    ensures Exec(Init(initial, start), history + waiting + later).server.targets == Sort(targets)
  {
    var F := Csv(targets);
    ExecConcat(Init(initial, start), history, waiting);
    ExecConcat(Init(initial, start), history + waiting, later);
    assert AllCalm(waiting, F) by {
      assert forall i :: 0 <= i < |waiting| ==> waiting[i] == (waiting + later)[i];
    }
    assert AllCalm(later, F) by {
      assert forall i :: 0 <= i < |later| ==> later[i] == (waiting + later)[|waiting| + i];
    }
    CalmKeepsFile(Exec(Init(initial, start), history), waiting, F);
    CalmRun(Exec(Init(initial, start), history + waiting), later, F);
    RoundTrip(targets);
  }
}
