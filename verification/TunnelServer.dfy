/** The tunnel server's shared state (`Server` in internal/tunnel/server.go). Each method is one
    critical section under the server's mutex, so each is one atomic step of `PushProtocol`. */
module TunnelServer {
  import opened Wrappers
  import opened TargetList

  /** The identity of a yamux session. */
  type Session = nat

  /** Times and durations are in nanoseconds, as in Go. */
  const MINUTE := 60_000_000_000
  const PUSH_WINDOW := 2 * MINUTE
  const UINT64 := 0x1_0000_0000_0000_0000

  datatype State = State(
    sessions: seq<Session>,
    targets: seq<string>,
    pushTargets: seq<string>,
    lastPush: Option<int>,
    rrIndex: nat)

  /** What becomes of an accepted TCP connection. */
  datatype Choice = Dropped | Chosen(targetIdx: nat, sessionIdx: nat)

  ghost predicate Distinct(xs: seq<Session>) {
    forall i, j :: 0 <= i < j < |xs| ==> xs[i] != xs[j]
  }

  /** The list without x, the others in their old order. */
  function Without(xs: seq<Session>, x: Session): (r: seq<Session>)
    ensures forall y :: y in r <==> y in xs && y != x
  {
    if xs == [] then []
    else (if xs[0] == x then [] else [xs[0]]) + Without(xs[1..], x)
  }

  /** A push protects its list for two minutes. */
  predicate RecentPush(s: State, now: int) {
    s.lastPush.Some? && now - s.lastPush.value < PUSH_WINDOW
  }

  predicate CanServe(s: State) {
    s.sessions != [] && s.targets != []
  }

  function Choose(s: State): Choice {
    if CanServe(s) then Chosen(s.rrIndex % |s.targets|, s.rrIndex % |s.sessions|) else Dropped
  }

  function AfterAccept(s: State): State {
    if CanServe(s) then s.(rrIndex := (s.rrIndex + 1) % UINT64) else s
  }

  function AfterPush(s: State, list: seq<string>, now: int): State {
    s.(targets := list, pushTargets := list, lastPush := Some(now))
  }

  /** A list read from the file wins unless it contradicts a recent push. */
  function AfterFile(s: State, list: seq<string>, now: int): State {
    s.(targets := if RecentPush(s, now) && list != s.pushTargets then s.targets else list)
  }

  lemma {:induction false} WithoutKeepsDistinct(xs: seq<Session>, x: Session)
    requires Distinct(xs)
    ensures Distinct(Without(xs, x))
  {
    if xs != [] {
      WithoutKeepsDistinct(xs[1..], x);
      assert xs[0] !in xs[1..];
    }
  }

  lemma {:induction false} WithoutAbsent(xs: seq<Session>, x: Session)
    requires x !in xs
    ensures Without(xs, x) == xs
  {
    if xs != [] {
      assert xs[0] in xs;
      WithoutAbsent(xs[1..], x);
      assert xs == [xs[0]] + xs[1..];
    }
  }

  lemma {:induction false} WithoutLast(xs: seq<Session>, x: Session)
    requires x !in xs
    ensures Without(xs + [x], x) == xs
  {
    if xs == [] {
      assert xs + [x] == [x] && [x][1..] == [];
    } else {
      assert xs[0] in xs && (xs + [x])[1..] == xs[1..] + [x];
      WithoutLast(xs[1..], x);
    }
  }

  /** In a list without repetitions, cutting out the first match removes the session. */
  lemma {:induction false} CutIsWithout(xs: seq<Session>, i: nat)
    requires i < |xs| && Distinct(xs)
    ensures Without(xs, xs[i]) == xs[..i] + xs[i + 1..]
  {
    if i == 0 {
      WithoutAbsent(xs[1..], xs[0]);
    } else {
      CutIsWithout(xs[1..], i - 1);
      assert xs[..i] + xs[i + 1..] == [xs[0]] + (xs[1..][..i - 1] + xs[1..][i..]);
    }
  }

  class Server {
    var sessions: seq<Session>
    var targets: seq<string>
    var pushTargets: seq<string>
    var lastPushTime: Option<int>
    var rrIndex: nat

    ghost predicate Valid()
      reads this
    {
      Distinct(sessions) && rrIndex < UINT64
    }

    ghost function Value(): State
      reads this
    {
      State(sessions, targets, pushTargets, lastPushTime, rrIndex)
    }

    /** `NewServer` */
    constructor (targets: seq<string>)
      ensures Valid() && Value() == State([], targets, [], None, 0)
    {
      this.targets := targets;
      sessions, pushTargets, lastPushTime, rrIndex := [], [], None, 0;
    }

    /** The selection inside `handleTCP`. */
    method Accept() returns (target: Option<(string, Session)>)
      requires Valid()
      modifies this
      ensures Valid() && Value() == AfterAccept(old(Value()))
      ensures match Choose(old(Value()))
              case Dropped => target == None
              case Chosen(t, s) => target == Some((targets[t], sessions[s]))
      ensures sessions == old(sessions) && targets == old(targets)
      ensures target.None? <==> sessions == [] || targets == []
      ensures target.None? ==> rrIndex == old(rrIndex)
      ensures target.Some? ==>
                && target.value.0 == targets[old(rrIndex) % |targets|]
                && target.value.1 == sessions[old(rrIndex) % |sessions|]
                && rrIndex == if old(rrIndex) == 0xFFFF_FFFF_FFFF_FFFF then 0 else old(rrIndex) + 1
    {
      if |sessions| == 0 {
        return None;
      }
      if |targets| == 0 {
        return None;
      }
      var targetIdx := rrIndex % |targets|;
      var sessionIdx := rrIndex % |sessions|;
      target := Some((targets[targetIdx], sessions[sessionIdx]));
      rrIndex := (rrIndex + 1) % UINT64;
    }

    /** `handleWS` registers the session it has just made. */
    method Register(session: Session) returns (currentCount: nat)
      requires Valid() && session !in sessions
      modifies this`sessions
      ensures Valid() && sessions == old(sessions) + [session] && currentCount == |sessions|
    {
      sessions := sessions + [session];
      currentCount := |sessions|;
    }

    /** The clean-up of `handleWS`. */
    method Unregister(session: Session) returns (remaining: nat)
      requires Valid()
      modifies this`sessions
      ensures Valid() && sessions == Without(old(sessions), session) && remaining == |sessions|
    {
      WithoutKeepsDistinct(sessions, session);
      var i := 0;
      while i < |sessions| && sessions[i] != session
        invariant 0 <= i <= |sessions| && session !in sessions[..i]
      {
        i := i + 1;
      }
      if i < |sessions| {
        CutIsWithout(sessions, i);
        sessions := sessions[..i] + sessions[i + 1..];
      } else {
        WithoutAbsent(sessions, session);
      }
      remaining := |sessions|;
    }

    /** The push branch of `handleReload`. */
    method Push(csv: string, now: int)
      requires Valid()
      modifies this
      ensures Valid() && Value() == AfterPush(old(Value()), Parse(csv), now)
      ensures targets == pushTargets == Parse(csv) && lastPushTime == Some(now)
      ensures sessions == old(sessions) && rrIndex == old(rrIndex)
    {
      var newTargets := ParsePush(csv);
      targets := newTargets;
      pushTargets := newTargets;
      lastPushTime := Some(now);
    }

    /** `loadTargetsFromFile`. `data` was read before the lock was taken, so it may be old by now;
        it is None when the file could not be read. */
    method LoadTargetsFromFile(data: Option<string>, now: int)
      requires Valid()
      modifies this`targets
      ensures Valid()
      ensures Value() == match data
                         case None => old(Value())
                         case Some(content) => AfterFile(old(Value()), Parse(content), now)
      ensures data.Some? && targets != Parse(data.value) ==>
                && targets == old(targets) && Parse(data.value) != pushTargets
                && lastPushTime.Some? && now - lastPushTime.value < 2 * MINUTE
    {
      if data.None? {
        return;
      }
      var newTargets := ParseFile(data.value);
      if lastPushTime.Some? && now - lastPushTime.value < 2 * MINUTE {
        var same := TargetsEqual(newTargets, pushTargets);
        if !same {
          return;
        }
      }
      var same := TargetsEqual(newTargets, targets);
      if same {
        return;
      }
      targets := newTargets;
    }

    /** `handleReload`: a POST with a list is a push, one without is a request to load the file. */
    method HandleReload(isPost: bool, csv: string, data: Option<string>, now: int) returns (status: int)
      requires Valid()
      modifies this
      ensures Valid()
      ensures Value() == if !isPost then old(Value())
                         else if csv != "" then AfterPush(old(Value()), Parse(csv), now)
                         else if data.None? then old(Value())
                         else AfterFile(old(Value()), Parse(data.value), now)
      ensures status == if isPost then 200 else 405
    {
      if !isPost {
        return 405;
      }
      if csv != "" {
        Push(csv, now);
      } else {
        LoadTargetsFromFile(data, now);
      }
      return 200;
    }

    static method TargetsEqual(a: seq<string>, b: seq<string>) returns (equal: bool)
      ensures equal <==> a == b
    {
      if |a| != |b| {
        return false;
      }
      for i := 0 to |a|
        invariant a[..i] == b[..i]
      {
        if a[i] != b[i] {
          return false;
        }
      }
      return true;
    }
  }
}
