/** Load balancing over whole runs. One counter picks both the target and the session. */
module RoundRobin {
  import opened TunnelServer
  import opened PushProtocol
  import opened NumberTheory

  /** Picks lo..hi of the log were all made from lists of n targets. */
  ghost predicate SameTargets(picks: seq<Pick>, lo: nat, hi: nat, n: nat)
    requires lo <= hi <= |picks|
  {
    forall k :: lo <= k < hi ==> |picks[k].targets| == n
  }

  /** Picks lo..hi of the log were all made while m sessions were registered. */
  ghost predicate SameSessions(picks: seq<Pick>, lo: nat, hi: nat, m: nat)
    requires lo <= hi <= |picks|
  {
    forall k :: lo <= k < hi ==> |picks[k].sessions| == m
  }

  /** Every selection was made with the shared counter at its own position in the log. */
  ghost predicate AllInTurn(picks: seq<Pick>) {
    forall k :: 0 <= k < |picks| ==> PickedInTurn(picks[k], k)
  }

  /** The counter does not wrap inside the window. */
  predicate NoWrap(lo: nat, hi: nat) {
    lo < hi ==> lo / UINT64 == (hi - 1) / UINT64
  }

  /** How often picks lo..hi of the log chose target number i. */
  function CountPicks(picks: seq<Pick>, lo: nat, hi: nat, i: nat): nat
    requires lo <= hi <= |picks|
    decreases hi
  {
    if lo == hi then 0
    else
      var choice := picks[hi - 1].choice;
      CountPicks(picks, lo, hi - 1, i) + (if choice.Chosen? && choice.targetIdx == i then 1 else 0)
  }

  lemma CounterInWindow(lo: nat, hi: nat, k: nat)
    requires lo <= k < hi && NoWrap(lo, hi)
    ensures k % UINT64 == lo % UINT64 + (k - lo)
  {
    assert lo / UINT64 <= k / UINT64 <= (hi - 1) / UINT64;
  }

  /** The selection took the target with this counter value. */
  predicate TookTurn(p: Pick, x: nat, n: nat)
    requires n > 0
  {
    p.choice.Chosen? && p.choice.targetIdx == x % n
  }

  lemma PickTookTurn(picks: seq<Pick>, lo: nat, hi: nat, n: nat, k: nat)
    requires lo <= k < hi <= |picks| && n > 0 && AllInTurn(picks) && SameTargets(picks, lo, hi, n) && NoWrap(lo, hi)
    ensures TookTurn(picks[k], lo % UINT64 + (k - lo), n)
  {
    CounterInWindow(lo, hi, k);
    assert PickedInTurn(picks[k], k);
  }

  lemma {:induction false} CountTurns(picks: seq<Pick>, lo: nat, hi: nat, n: nat, i: nat, c: nat)
    requires lo <= hi <= |picks| && n > 0
    requires forall k :: lo <= k < hi ==> TookTurn(picks[k], c + (k - lo), n)
    ensures CountPicks(picks, lo, hi, i) == CountResidue(c, c + (hi - lo), n, i)
    decreases hi
  {
    if lo < hi {
      CountTurns(picks, lo, hi - 1, n, i, c);
      assert TookTurn(picks[hi - 1], c + (hi - 1 - lo), n);
    }
  }

  lemma CountIsResidues(picks: seq<Pick>, lo: nat, hi: nat, n: nat, i: nat)
    requires lo <= hi <= |picks| && n > 0
    requires AllInTurn(picks)
    requires SameTargets(picks, lo, hi, n) && NoWrap(lo, hi)
    ensures var c := lo % UINT64; CountPicks(picks, lo, hi, i) == CountResidue(c, c + (hi - lo), n, i)
  {
    forall k | lo <= k < hi ensures TookTurn(picks[k], lo % UINT64 + (k - lo), n) {
      PickTookTurn(picks, lo, hi, n, k);
    }
    CountTurns(picks, lo, hi, n, i, lo % UINT64);
  }

  lemma InTurn(initial: seq<string>, start: int, steps: seq<Step>)
    ensures AllInTurn(Exec(Init(initial, start), steps).picks)
  {
    RunKeepsInv(Init(initial, start), steps, initial);
  }

  /** Fairness: in every run, over any window of consecutive selections made from a list of n targets
      and without a counter wrap, any two targets are chosen equally often, up to one. Sessions may
      come and go and connections may be dropped in between. */
  lemma Fair(initial: seq<string>, start: int, steps: seq<Step>, lo: nat, hi: nat, n: nat, i: nat, j: nat)
    requires var picks := Exec(Init(initial, start), steps).picks;
             lo <= hi <= |picks| && SameTargets(picks, lo, hi, n) && NoWrap(lo, hi)
    requires i < n && j < n
    ensures var picks := Exec(Init(initial, start), steps).picks;
            -1 <= CountPicks(picks, lo, hi, i) - CountPicks(picks, lo, hi, j) <= 1
  {
    InTurn(initial, start, steps);
    FairLog(Exec(Init(initial, start), steps).picks, lo, hi, n, i, j);
  }

  lemma FairLog(picks: seq<Pick>, lo: nat, hi: nat, n: nat, i: nat, j: nat)
    requires AllInTurn(picks)
    requires lo <= hi <= |picks| && SameTargets(picks, lo, hi, n) && NoWrap(lo, hi)
    requires i < n && j < n
    ensures -1 <= CountPicks(picks, lo, hi, i) - CountPicks(picks, lo, hi, j) <= 1
  {
    CountIsResidues(picks, lo, hi, n, i);
    CountIsResidues(picks, lo, hi, n, j);
    var c := lo % UINT64;
    ResiduesAreFair(c, c + (hi - lo), n, i, j);
  }

  /** Selection k of the log paired target i with session j. */
  ghost predicate Paired(picks: seq<Pick>, k: nat, i: nat, j: nat)
    requires k < |picks|
  {
    picks[k].choice == Chosen(i, j)
  }

  lemma PairIsResidues(picks: seq<Pick>, lo: nat, hi: nat, k: nat, n: nat, m: nat)
    requires lo <= k < hi <= |picks| && n > 0 && m > 0
    requires AllInTurn(picks)
    requires SameTargets(picks, lo, hi, n) && SameSessions(picks, lo, hi, m) && NoWrap(lo, hi)
    ensures var c := lo % UINT64 + (k - lo); picks[k].choice == Chosen(c % n, c % m)
  {
    CounterInWindow(lo, hi, k);
    assert PickedInTurn(picks[k], k);
  }

  /** A window of lcm(n, m) selections: n targets and m sessions, unchanged, no wrap. */
  ghost predicate FullCycle(picks: seq<Pick>, lo: nat, n: nat, m: nat) {
    && n > 0 && m > 0
    && lo + Lcm(n, m) <= |picks|
    && SameTargets(picks, lo, lo + Lcm(n, m), n)
    && SameSessions(picks, lo, lo + Lcm(n, m), m)
    && NoWrap(lo, lo + Lcm(n, m))
  }

  /** The two indices agree modulo the gcd of the list lengths. */
  predicate Compatible(i: nat, j: nat, n: nat, m: nat)
    requires n > 0 && m > 0
  {
    i % Gcd(n, m) == j % Gcd(n, m)
  }

  /** Some selection of the cycle paired target i with session j. */
  ghost predicate PairedInCycle(picks: seq<Pick>, lo: nat, n: nat, m: nat, i: nat, j: nat)
    requires FullCycle(picks, lo, n, m)
  {
    exists k :: lo <= k < lo + Lcm(n, m) && Paired(picks, k, i, j)
  }

  /** Joint round robin. Because target and session come from one counter, a full cycle pairs target i
      with session j exactly when i and j agree modulo gcd(n, m)... */
  lemma JointRoundRobin(initial: seq<string>, start: int, steps: seq<Step>, lo: nat, n: nat, m: nat, i: nat, j: nat)
    requires FullCycle(Exec(Init(initial, start), steps).picks, lo, n, m)
    requires i < n && j < m
    ensures var picks := Exec(Init(initial, start), steps).picks;
            Compatible(i, j, n, m) <==> PairedInCycle(picks, lo, n, m, i, j)
  {
    var picks := Exec(Init(initial, start), steps).picks;
    InTurn(initial, start, steps);
    if Compatible(i, j, n, m) {
      PairOccurs(picks, lo, n, m, i, j);
    }
    if PairedInCycle(picks, lo, n, m, i, j) {
      var k :| lo <= k < lo + Lcm(n, m) && Paired(picks, k, i, j);
      PairAgrees(picks, lo, n, m, k);
    }
  }

  lemma PairOccurs(picks: seq<Pick>, lo: nat, n: nat, m: nat, i: nat, j: nat)
    requires AllInTurn(picks) && FullCycle(picks, lo, n, m)
    requires i < n && j < m && Compatible(i, j, n, m)
    ensures PairedInCycle(picks, lo, n, m, i, j)
  {
    var c := lo % UINT64;
    var x := WitnessInWindow(n, m, i, j, c);
    var k := lo + (x - c);
    PairIsResidues(picks, lo, lo + Lcm(n, m), k, n, m);
    assert Paired(picks, k, i, j);
  }

  lemma PairAgrees(picks: seq<Pick>, lo: nat, n: nat, m: nat, k: nat)
    requires AllInTurn(picks) && FullCycle(picks, lo, n, m) && lo <= k < lo + Lcm(n, m)
    ensures picks[k].choice.Chosen?
    ensures Compatible(picks[k].choice.targetIdx, picks[k].choice.sessionIdx, n, m)
  {
    PairIsResidues(picks, lo, lo + Lcm(n, m), k, n, m);
    ResiduesAgree(lo % UINT64 + (k - lo), n, m);
  }

  /** ...and never pairs the same two twice. */
  lemma PairedOnce(initial: seq<string>, start: int, steps: seq<Step>, lo: nat, n: nat, m: nat, k: nat, k': nat)
    requires FullCycle(Exec(Init(initial, start), steps).picks, lo, n, m)
    requires lo <= k <= k' < lo + Lcm(n, m)
    requires var picks := Exec(Init(initial, start), steps).picks; picks[k].choice == picks[k'].choice
    ensures k == k'
  {
    InTurn(initial, start, steps);
    PairedOnceInLog(Exec(Init(initial, start), steps).picks, lo, n, m, k, k');
  }

  lemma PairedOnceInLog(picks: seq<Pick>, lo: nat, n: nat, m: nat, k: nat, k': nat)
    requires AllInTurn(picks) && FullCycle(picks, lo, n, m)
    requires lo <= k <= k' < lo + Lcm(n, m) && picks[k].choice == picks[k'].choice
    ensures k == k'
  {
    var c := lo % UINT64;
    assert (c + (k - lo)) % n == (c + (k' - lo)) % n && (c + (k - lo)) % m == (c + (k' - lo)) % m by {
      PairIsResidues(picks, lo, lo + Lcm(n, m), k, n, m);
      PairIsResidues(picks, lo, lo + Lcm(n, m), k', n, m);
    }
    WitnessIsUnique(n, m, c + (k - lo), c + (k' - lo));
  }

  /** The target after counter value c is the next one in the list. */
  predicate NextInOrder(c: nat, n: nat)
    requires n > 0
  {
    ((c + 1) % UINT64) % n == (c % n + 1) % n
  }

  lemma SuccessorResidue(c: nat, n: nat)
    requires n > 0
    ensures (c + 1) % n == (c % n + 1) % n
  {
    assert c == n * (c / n) + c % n;
    ModShift(c % n + 1, n, c / n);
  }

  lemma InOrderExactly(c: nat, n: nat)
    requires n > 0 && c < UINT64
    ensures NextInOrder(c, n) <==> c < UINT64 - 1 || UINT64 % n == 0
  {
    SuccessorResidue(c, n);
    if c == UINT64 - 1 {
      assert (c + 1) % UINT64 == 0;
      QuotientIsUnique(0, n, 0, 0);
    } else {
      assert (c + 1) % UINT64 == c + 1;
    }
  }

  /** Where the counter wraps, the rotation goes on in order exactly when the number of targets
      divides 2^64. */
  lemma WrapKeepsOrder(n: nat)
    requires n > 0
    ensures UINT64 % n == 0 <==> forall c: nat :: c < UINT64 ==> NextInOrder(c, n)
  {
    if UINT64 % n == 0 {
      forall c: nat | c < UINT64 ensures NextInOrder(c, n) {
        InOrderExactly(c, n);
      }
    } else {
      InOrderExactly(UINT64 - 1, n);
    }
  }
}
