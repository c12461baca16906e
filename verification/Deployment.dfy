/** The DockerDeployment reconciler (internal/controller/dockerdeployment/controller.go): it lists the
    owned containers, sorts them by age and creates or deletes to reach the replica count. A deleted
    object stays listed, marked as terminating, until its own finalizer has run. */
module Deployment {
  import opened Wrappers

  type Name = nat

  datatype Child = Child(owner: Option<nat>, created: int, terminating: bool, running: bool)
  datatype Item = Item(name: Name, child: Child)

  type Children = map<Name, Child>

  function Live(children: Children): set<Name> {
    set n | n in children && !children[n].terminating
  }

  ghost predicate DistinctNames(order: seq<Name>) {
    forall i, j :: 0 <= i < j < |order| ==> order[i] != order[j]
  }

  /** A result `sort.Slice` may give: every child once, oldest first, equal ages in any order. */
  ghost predicate IsOrder(children: Children, order: seq<Name>) {
    && DistinctNames(order)
    && (forall n :: n in order <==> n in children)
    && (forall i, j :: 0 <= i < j < |order| ==> children[order[i]].created <= children[order[j]].created)
  }

  /** The newest children beyond the replica count, newest first. */
  function Victims(order: seq<Name>, replicas: nat): seq<Name> {
    if |order| <= replicas then [] else [order[|order| - 1]] + Victims(order[..|order| - 1], replicas)
  }

  function Terminate(children: Children, n: Name): Children
    requires n in children
  {
    children[n := children[n].(terminating := true)]
  }

  function WithStatus(children: Children, n: Name, running: bool): Children {
    if n in children then children[n := children[n].(running := running)] else children
  }

  /** The store after the given children were marked as terminating. */
  function TerminateAll(children: Children, victims: seq<Name>): Children {
    map n | n in children :: if n in victims then children[n].(terminating := true) else children[n]
  }

  lemma TerminateOneMore(children: Children, victims: seq<Name>, i: nat)
    requires i < |victims| && victims[i] in children
    ensures TerminateAll(children, victims[..i + 1]) == Terminate(TerminateAll(children, victims[..i]), victims[i])
  {
    assert victims[..i + 1] == victims[..i] + [victims[i]];
  }

  // The reconciler and the object store, one API call at a time

  datatype Work = Idle | Creating(left: nat) | Deleting(victims: seq<Name>)
  datatype Cluster = Cluster(children: Children, work: Work)

  datatype Step =
    | Begin(order: seq<Name>)
    | DeleteNext(ok: bool)
    | CreateNext(name: Name, child: Child, ok: bool)
    | Purge(name: Name)   // the finalizer of a terminating child has run
    | Report(name: Name, running: bool)   // the child's own reconciler updates its status

  ghost function Apply(c: Cluster, replicas: nat, step: Step): Cluster {
    match step
    case Begin(order) =>
      if c.work != Idle || !IsOrder(c.children, order) then c
      else if |order| < replicas then c.(work := Creating(replicas - |order|))
      else if |order| > replicas then c.(work := Deleting(Victims(order, replicas)))
      else c
    case DeleteNext(ok) =>
      if !c.work.Deleting? then c
      else if c.work.victims == [] || !ok || c.work.victims[0] !in c.children then c.(work := Idle)
      else Cluster(Terminate(c.children, c.work.victims[0]), Deleting(c.work.victims[1..]))
    case CreateNext(n, child, ok) =>
      if !c.work.Creating? then c
      else if c.work.left == 0 || !ok || n in c.children || child.terminating then c.(work := Idle)
      else Cluster(c.children[n := child], Creating(c.work.left - 1))
    case Purge(n) =>
      if n in c.children && c.children[n].terminating then c.(children := c.children - {n}) else c
    case Report(n, running) => c.(children := WithStatus(c.children, n, running))
  }

  ghost function Exec(c: Cluster, replicas: nat, steps: seq<Step>): Cluster {
    if steps == [] then c else Apply(Exec(c, replicas, steps[..|steps| - 1]), replicas, steps[|steps| - 1])
  }

  lemma {:induction false} ExecConcat(c: Cluster, replicas: nat, a: seq<Step>, b: seq<Step>)
    ensures Exec(c, replicas, a + b) == Exec(Exec(c, replicas, a), replicas, b)
  {
    if b == [] {
      assert a + b == a;
    } else {
      assert (a + b)[..|a + b| - 1] == a + b[..|b| - 1];
      ExecConcat(c, replicas, a, b[..|b| - 1]);
    }
  }

  // Which children are never victims

  /** Every child in `keep` is strictly older than every other child. */
  ghost predicate Older(children: Children, keep: set<Name>) {
    && keep <= children.Keys
    && forall k, v :: k in keep && v in children && v !in keep ==> children[k].created < children[v].created
  }

  function Names(order: seq<Name>): (r: set<Name>)
    ensures forall n :: n in r <==> n in order
  {
    set n | n in order
  }

  lemma {:induction false} NamesCount(order: seq<Name>)
    requires DistinctNames(order)
    ensures |Names(order)| == |order|
  {
    if order != [] {
      var n := |order| - 1;
      NamesCount(order[..n]);
      assert order[n] !in order[..n];
      assert Names(order) == Names(order[..n]) + {order[n]};
    }
  }

  lemma {:induction false} VictimsAreRest(order: seq<Name>, replicas: nat)
    ensures |Victims(order, replicas)| == if |order| <= replicas then 0 else |order| - replicas
    ensures forall k :: 0 <= k < |Victims(order, replicas)| ==> Victims(order, replicas)[k] == order[|order| - 1 - k]
  {
    if |order| > replicas {
      VictimsAreRest(order[..|order| - 1], replicas);
    }
  }

  /** Whatever order the sort gives to equal ages, the children strictly older than all others come
      first. */
  lemma OldestComeFirst(children: Children, keep: set<Name>, order: seq<Name>, i: nat)
    requires IsOrder(children, order) && Older(children, keep) && |keep| <= i < |order|
    ensures order[i] !in keep
  {
    if order[i] in keep {
      forall j | 0 <= j <= i ensures order[j] in keep {
        assert order[j] in order;
      }
      NamesCount(order[..i + 1]);
      SubsetIsSmaller(Names(order[..i + 1]), keep);
    }
  }

  lemma {:induction false} SubsetIsSmaller(a: set<Name>, b: set<Name>)
    requires a <= b
    ensures |a| <= |b|
  {
    if a != {} {
      var x :| x in a;
      SubsetIsSmaller(a - {x}, b - {x});
    }
  }

  // Safety over runs

  /** The replicas to keep when there are enough of them; victims never touch these. */
  ghost predicate ScalingDown(c: Cluster, replicas: nat, keep: set<Name>) {
    && |keep| == replicas
    && Older(c.children, keep) && keep <= Live(c.children)
    && !c.work.Creating?
    && (c.work.Deleting? ==> forall n :: n in c.work.victims ==> n !in keep)
  }

  /** Too few replicas: only creation happens. */
  ghost predicate ScalingUp(c: Cluster, replicas: nat, keep: set<Name>) {
    && keep <= c.children.Keys == Live(c.children)
    && |c.children| + (if c.work.Creating? then c.work.left else 0) <= replicas
    && !c.work.Deleting?
  }

  ghost predicate Safe(c: Cluster, replicas: nat, keep: set<Name>) {
    ScalingDown(c, replicas, keep) || ScalingUp(c, replicas, keep)
  }

  lemma OrderCount(children: Children, order: seq<Name>)
    requires IsOrder(children, order)
    ensures |order| == |children|
  {
    NamesCount(order);
    assert Names(order) == children.Keys;
  }

  lemma DownStep(c: Cluster, replicas: nat, keep: set<Name>, step: Step)
    requires ScalingDown(c, replicas, keep)
    ensures ScalingDown(Apply(c, replicas, step), replicas, keep)
  {
    match step {
      case Begin(order) =>
        if c.work == Idle && IsOrder(c.children, order) {
          OrderCount(c.children, order);
          SubsetIsSmaller(keep, c.children.Keys);
          VictimsAreRest(order, replicas);
          forall n | n in Victims(order, replicas) ensures n !in keep {
            var k :| 0 <= k < |Victims(order, replicas)| && Victims(order, replicas)[k] == n;
            OldestComeFirst(c.children, keep, order, |order| - 1 - k);
          }
        }
      case _ =>
    }
  }

  lemma UpStep(c: Cluster, replicas: nat, keep: set<Name>, step: Step)
    requires ScalingUp(c, replicas, keep)
    ensures ScalingUp(Apply(c, replicas, step), replicas, keep)
  {
    match step {
      case Begin(order) =>
        if IsOrder(c.children, order) {
          OrderCount(c.children, order);
        }
      case CreateNext(n, child, ok) =>
        assert n !in c.children ==> |c.children[n := child]| == |c.children| + 1;
      case Purge(n) => assert n in c.children ==> n in Live(c.children);
      case DeleteNext(_) =>
      case Report(n, running) =>
        assert Live(WithStatus(c.children, n, running)) == Live(c.children);
        assert WithStatus(c.children, n, running).Keys == c.children.Keys;
    }
  }

  lemma {:induction false} RunIsSafe(c: Cluster, replicas: nat, keep: set<Name>, steps: seq<Step>)
    requires Safe(c, replicas, keep)
    ensures Safe(Exec(c, replicas, steps), replicas, keep)
  {
    if steps != [] {
      var n := |steps| - 1;
      RunIsSafe(c, replicas, keep, steps[..n]);
      var p := Exec(c, replicas, steps[..n]);
      if ScalingDown(p, replicas, keep) {
        DownStep(p, replicas, keep, steps[n]);
      } else {
        UpStep(p, replicas, keep, steps[n]);
      }
    }
  }

  /** Nothing is terminating and no reconcile is under way. */
  ghost predicate AtRest(c: Cluster) {
    c.work == Idle && Live(c.children) == c.children.Keys
  }

  function Min(a: nat, b: nat): nat {
    if a <= b then a else b
  }

  /** The `replicas` oldest children, when a gap in age separates them from the rest. */
  ghost predicate OldestReplicas(children: Children, replicas: nat, keep: set<Name>) {
    Older(children, keep) && |keep| == Min(replicas, |children|)
  }

  lemma AllIsAll(children: Children, keep: set<Name>)
    requires keep <= children.Keys && |keep| == |children|
    ensures keep == children.Keys
  {
    if children.Keys - keep != {} {
      var x :| x in children.Keys - keep;
      SubsetIsSmaller(keep, children.Keys - {x});
    }
  }

  /** Scale-down safety: in every interleaving of reconciles, failing calls and delayed removals, the
      oldest replicas are never deleted and at least that many children stay live. */
  lemma OldestSurvive(c: Cluster, replicas: nat, keep: set<Name>, steps: seq<Step>)
    requires AtRest(c) && OldestReplicas(c.children, replicas, keep)
    ensures var t := Exec(c, replicas, steps);
            keep <= Live(t.children) && |Live(t.children)| >= Min(replicas, |c.children|)
  {
    if |c.children| < replicas {
      AllIsAll(c.children, keep);
      assert ScalingUp(c, replicas, keep);
    }
    RunIsSafe(c, replicas, keep, steps);
    SubsetIsSmaller(keep, Live(Exec(c, replicas, steps).children));
  }

  // Equal ages

  /** The age at the boundary decides: the last replica to keep is older than the first one to go. */
  ghost predicate GapAtBoundary(children: Children, order: seq<Name>, replicas: nat)
    requires IsOrder(children, order)
  {
    0 < replicas < |order| ==> children[order[replicas - 1]].created < children[order[replicas]].created
  }

  lemma GapSeparates(children: Children, order: seq<Name>, r: nat, i: nat, j: nat)
    requires IsOrder(children, order) && GapAtBoundary(children, order, r) && i < r <= j < |order|
    ensures children[order[i]].created < children[order[j]].created
  {
    assert children[order[i]].created <= children[order[r - 1]].created;
    assert children[order[r]].created <= children[order[j]].created;
  }

  lemma GapGivesOldest(children: Children, order: seq<Name>, replicas: nat) returns (keep: set<Name>)
    requires IsOrder(children, order) && GapAtBoundary(children, order, replicas)
    ensures OldestReplicas(children, replicas, keep)
  {
    OrderCount(children, order);
    if replicas >= |order| {
      keep := children.Keys;
    } else {
      var prefix := order[..replicas];
      keep := Names(prefix);
      NamesCount(prefix);
      forall k, v | k in keep && v in children && v !in keep
        ensures children[k].created < children[v].created
      {
        var i :| 0 <= i < replicas && prefix[i] == k;
        var j :| 0 <= j < |order| && order[j] == v;
        assert forall q :: 0 <= q < replicas ==> prefix[q] == order[q] && prefix[q] in keep;
        GapSeparates(children, order, replicas, i, j);
      }
    }
  }

  /** A reconcile that deletes all it planned to. */
  function DeleteAll(n: nat): seq<Step> {
    seq(n, _ => DeleteNext(true))
  }

  ghost predicate SameExceptTerminating(a: Children, b: Children) {
    a.Keys == b.Keys && forall n :: n in a ==> a[n].created == b[n].created && (a[n].terminating ==> b[n].terminating)
  }

  lemma {:induction false} DeletionsTerminate(c: Cluster, replicas: nat, k: nat)
    requires c.work.Deleting? && k <= |c.work.victims| && forall n :: n in c.work.victims ==> n in c.children
    ensures Exec(c, replicas, DeleteAll(k))
            == Cluster(TerminateAll(c.children, c.work.victims[..k]), Deleting(c.work.victims[k..]))
  {
    if k == 0 {
      assert TerminateAll(c.children, []) == c.children;
    } else {
      DeletionsTerminate(c, replicas, k - 1);
      assert DeleteAll(k)[..k - 1] == DeleteAll(k - 1);
      assert c.work.victims[k - 1] in c.work.victims;
      TerminateOneMore(c.children, c.work.victims, k - 1);
    }
  }

  /** One whole reconcile that lists the children in the given order. */
  function WholeReconcile(order: seq<Name>, replicas: nat): seq<Step> {
    [Begin(order)] + DeleteAll(|Victims(order, replicas)| + 1)
  }

  lemma ReconcileTerminatesRest(c: Cluster, replicas: nat, order: seq<Name>)
    requires c.work == Idle && IsOrder(c.children, order) && |order| > replicas
    ensures var t := Exec(c, replicas, WholeReconcile(order, replicas));
            && t.work == Idle && SameExceptTerminating(c.children, t.children)
            && forall i :: replicas <= i < |order| ==> t.children[order[i]].terminating
  {
    var victims := Victims(order, replicas);
    var k := |victims|;
    VictimsAreRest(order, replicas);
    var d := Apply(c, replicas, Begin(order));
    assert forall n :: n in victims ==> n in order;
    DeletionsTerminate(d, replicas, k);
    ReconcileIsDeletions(c, replicas, order);
    var t := Exec(d, replicas, DeleteAll(k));
    assert victims[..k] == victims && victims[k..] == [];
    forall i | replicas <= i < |order| ensures t.children[order[i]].terminating {
      assert order[i] == victims[|order| - 1 - i];
    }
  }

  lemma ReconcileIsDeletions(c: Cluster, replicas: nat, order: seq<Name>)
    ensures var k := |Victims(order, replicas)|;
            Exec(c, replicas, WholeReconcile(order, replicas))
            == Apply(Exec(Apply(c, replicas, Begin(order)), replicas, DeleteAll(k)), replicas, DeleteNext(true))
  {
    var k := |Victims(order, replicas)|;
    assert [Begin(order)][..0] == [];
    assert Exec(c, replicas, [Begin(order)]) == Apply(c, replicas, Begin(order));
    ExecConcat(c, replicas, [Begin(order)], DeleteAll(k + 1));
    assert DeleteAll(k + 1)[..k] == DeleteAll(k);
  }

  /** With equal ages at the boundary, two reconciles that sort differently delete one too many. */
  lemma TieLosesReplica(c: Cluster, replicas: nat, order: seq<Name>) returns (steps: seq<Step>)
    requires AtRest(c) && IsOrder(c.children, order) && !GapAtBoundary(c.children, order, replicas)
    ensures |Live(Exec(c, replicas, steps).children)| < replicas
  {
    var first := WholeReconcile(order, replicas);
    var second := WholeReconcile(Swap(order, replicas), replicas);
    steps := first + second;
    ExecConcat(c, replicas, first, second);
    ReconcileTerminatesRest(c, replicas, order);
    var t := Exec(c, replicas, first);
    assert IsOrder(t.children, order);
    SecondSortTakesOneMore(t, replicas, order);
    FewAreLive(Exec(t, replicas, second).children, order, replicas - 1);
  }

  lemma SecondSortTakesOneMore(t: Cluster, replicas: nat, order: seq<Name>)
    requires t.work == Idle && IsOrder(t.children, order) && 0 < replicas < |order|
    requires t.children[order[replicas - 1]].created == t.children[order[replicas]].created
    requires forall i :: replicas <= i < |order| ==> t.children[order[i]].terminating
    ensures var u := Exec(t, replicas, WholeReconcile(Swap(order, replicas), replicas));
            && u.children.Keys == t.children.Keys
            && forall i :: replicas - 1 <= i < |order| ==> u.children[order[i]].terminating
  {
    var swapped := Swap(order, replicas);
    SwapIsOrder(t.children, order, replicas);
    ReconcileTerminatesRest(t, replicas, swapped);
    var u := Exec(t, replicas, WholeReconcile(swapped, replicas));
    assert u.children[swapped[replicas]].terminating;
    forall i | replicas <= i < |order| ensures u.children[order[i]].terminating {
      assert t.children[order[i]].terminating;
    }
  }

  /** The order with the two children at the boundary exchanged. */
  function Swap(order: seq<Name>, r: nat): (s: seq<Name>)
    requires 0 < r < |order|
    ensures |s| == |order| && s[r - 1] == order[r] && s[r] == order[r - 1]
    ensures forall i :: 0 <= i < |order| && i != r && i != r - 1 ==> s[i] == order[i]
  {
    order[r - 1 := order[r]][r := order[r - 1]]
  }

  lemma SwapIsOrder(children: Children, order: seq<Name>, r: nat)
    requires IsOrder(children, order) && 0 < r < |order|
    requires children[order[r - 1]].created == children[order[r]].created
    ensures IsOrder(children, Swap(order, r))
  {
    var swapped := Swap(order, r);
    forall n ensures n in swapped <==> n in order {
      if n in order {
        var i :| 0 <= i < |order| && order[i] == n;
        assert swapped[if i == r then r - 1 else if i == r - 1 then r else i] == n;
      }
    }
  }

  lemma FewAreLive(children: Children, order: seq<Name>, r: nat)
    requires DistinctNames(order) && r <= |order| && forall n :: n in order <==> n in children
    requires forall i :: r <= i < |order| ==> children[order[i]].terminating
    ensures |Live(children)| <= r
  {
    NamesCount(order[..r]);
    forall n | n in Live(children) ensures n in order[..r] {
      assert n in order;
      var i :| 0 <= i < |order| && order[i] == n;
      assert order[..r][i] == n;
    }
    SubsetIsSmaller(Live(children), Names(order[..r]));
  }

  /** Exactly when scale-down is safe: starting at rest, every interleaving keeps at least the wanted
      number of replicas live (or all there are) if and only if the ages differ at the boundary. */
  lemma SafeExactly(c: Cluster, replicas: nat, order: seq<Name>)
    requires AtRest(c) && IsOrder(c.children, order)
    ensures GapAtBoundary(c.children, order, replicas) <==>
            forall steps :: |Live(Exec(c, replicas, steps).children)| >= Min(replicas, |c.children|)
  {
    OrderCount(c.children, order);
    if GapAtBoundary(c.children, order, replicas) {
      var keep := GapGivesOldest(c.children, order, replicas);
      forall steps ensures |Live(Exec(c, replicas, steps).children)| >= Min(replicas, |c.children|) {
        OldestSurvive(c, replicas, keep, steps);
      }
    } else {
      var steps := TieLosesReplica(c, replicas, order);
    }
  }
}
