/** `Reconcile` of internal/controller/dockerdeployment/controller.go as it runs: filter, sort, create
    or delete one object at a time, and count the running children. */
module DeploymentController {
  import opened Wrappers
  import opened GoInts
  import opened Deployment

  datatype Outcome = Reconciled | ApiError | Panicked

  ghost predicate DistinctItems(items: seq<Item>) {
    forall i, j :: 0 <= i < j < |items| ==> items[i].name != items[j].name
  }

  /** The items are a listing of the store. */
  ghost predicate Lists(children: Children, items: seq<Item>) {
    && DistinctItems(items)
    && (forall i :: 0 <= i < |items| ==> items[i].name in children && children[items[i].name] == items[i].child)
    && (forall n :: n in children ==> exists i :: 0 <= i < |items| && items[i].name == n)
  }

  function Owned(children: Children, uid: nat): Children {
    map n | n in children && children[n].owner == Some(uid) :: children[n]
  }

  function NamesOf(items: seq<Item>): (r: seq<Name>)
    ensures |r| == |items| && forall i :: 0 <= i < |items| ==> r[i] == items[i].name
  {
    seq(|items|, i requires 0 <= i < |items| => items[i].name)
  }

  function Controlled(items: seq<Item>, uid: nat): seq<Item> {
    if items == [] then []
    else
      var n := |items| - 1;
      Controlled(items[..n], uid) + (if items[n].child.owner == Some(uid) then [items[n]] else [])
  }

  lemma {:induction false} ControlledFacts(items: seq<Item>, uid: nat)
    ensures forall x :: x in Controlled(items, uid) <==> x in items && x.child.owner == Some(uid)
    ensures DistinctItems(items) ==> DistinctItems(Controlled(items, uid))
  {
    if items != [] {
      var n := |items| - 1;
      ControlledFacts(items[..n], uid);
      assert items == items[..n] + [items[n]];
    }
  }

  lemma ControlledListsOwned(children: Children, items: seq<Item>, uid: nat)
    requires Lists(children, items)
    ensures Lists(Owned(children, uid), Controlled(items, uid))
  {
    var owned := Controlled(items, uid);
    ControlledFacts(items, uid);
    forall i | 0 <= i < |owned| ensures owned[i] in items && owned[i].child.owner == Some(uid) {
      assert owned[i] in owned;
    }
    forall n | n in Owned(children, uid) ensures exists k :: 0 <= k < |owned| && owned[k].name == n {
      var j :| 0 <= j < |items| && items[j].name == n;
      assert items[j] in owned;
    }
  }

  /** The listed children that the deployment controls. */
  method FilterOwned(items: seq<Item>, uid: nat) returns (owned: seq<Item>)
    ensures owned == Controlled(items, uid)
  {
    owned := [];
    for i := 0 to |items|
      invariant owned == Controlled(items[..i], uid)
    {
      assert items[..i + 1][..i] == items[..i];
      if items[i].child.owner == Some(uid) {
        owned := owned + [items[i]];
      }
    }
    assert items[..|items|] == items;
  }

  ghost predicate SortedItems(items: seq<Item>) {
    forall i, j :: 0 <= i < j < |items| ==> items[i].child.created <= items[j].child.created
  }

  function InsertItem(x: Item, items: seq<Item>): seq<Item> {
    if items == [] || x.child.created < items[0].child.created then [x] + items
    else [items[0]] + InsertItem(x, items[1..])
  }

  lemma SortedCons(x: Item, items: seq<Item>)
    requires SortedItems(items) && forall y :: y in multiset(items) ==> x.child.created <= y.child.created
    ensures SortedItems([x] + items)
  {
    forall j | 0 <= j < |items| ensures x.child.created <= items[j].child.created {
      assert items[j] in multiset(items);
    }
  }

  lemma HeadIsOldest(items: seq<Item>, y: Item)
    requires SortedItems(items) && y in items
    ensures items[0].child.created <= y.child.created
  {
  }

  lemma {:induction false} InsertItemAdds(x: Item, items: seq<Item>)
    ensures multiset(InsertItem(x, items)) == multiset(items) + multiset{x}
  {
    if items != [] {
      assert items == [items[0]] + items[1..];
      InsertItemAdds(x, items[1..]);
    }
  }

  lemma {:induction false} InsertItemSorts(x: Item, items: seq<Item>)
    requires SortedItems(items)
    ensures SortedItems(InsertItem(x, items))
  {
    if items != [] {
      var h, rest := items[0], items[1..];
      if x.child.created < h.child.created {
        forall y | y in multiset(items) ensures x.child.created <= y.child.created {
          HeadIsOldest(items, y);
        }
        SortedCons(x, items);
      } else {
        InsertItemSorts(x, rest);
        InsertItemAdds(x, rest);
        forall y | y in multiset(InsertItem(x, rest)) ensures h.child.created <= y.child.created {
          if y != x {
            assert y in rest;
            HeadIsOldest(items, y);
          }
        }
        SortedCons(h, InsertItem(x, rest));
      }
    }
  }

  /** `sort.Slice` by creation time. */
  method SortByAge(items: seq<Item>) returns (sorted: seq<Item>)
    ensures SortedItems(sorted) && multiset(sorted) == multiset(items)
  {
    sorted := [];
    for i := 0 to |items|
      invariant SortedItems(sorted) && multiset(sorted) == multiset(items[..i])
    {
      assert items[..i + 1] == items[..i] + [items[i]];
      InsertItemSorts(items[i], sorted);
      InsertItemAdds(items[i], sorted);
      sorted := InsertItem(items[i], sorted);
    }
    assert items[..|items|] == items;
  }

  lemma PermutedListing(children: Children, a: seq<Item>, b: seq<Item>)
    requires Lists(children, a) && multiset(a) == multiset(b)
    ensures Lists(children, b)
  {
    forall i | 0 <= i < |b| ensures b[i] in a {
      assert b[i] in multiset(b);
    }
    forall n | n in children ensures exists i :: 0 <= i < |b| && b[i].name == n {
      var i :| 0 <= i < |a| && a[i].name == n;
      assert a[i] in multiset(a);
      assert a[i] in b;
    }
    forall i, j | 0 <= i < j < |b| ensures b[i].name != b[j].name {
      if b[i].name == b[j].name {
        assert b[i] == b[j];
        TwiceInSequence(b, i, j);
        OnceInListing(a, b[i]);
      }
    }
  }

  lemma TwiceInSequence(b: seq<Item>, i: nat, j: nat)
    requires i < j < |b| && b[i] == b[j]
    ensures multiset(b)[b[i]] >= 2
  {
    assert b == b[..j] + [b[j]] + b[j + 1..];
    assert b[i] in b[..j];
  }

  lemma {:induction false} OnceInListing(a: seq<Item>, x: Item)
    requires DistinctItems(a)
    ensures multiset(a)[x] <= 1
  {
    if a != [] {
      var n := |a| - 1;
      OnceInListing(a[..n], x);
      assert a == a[..n] + [a[n]];
      assert a[n] !in a[..n];
    }
  }

  lemma SortedListingIsOrder(children: Children, items: seq<Item>)
    requires Lists(children, items) && SortedItems(items)
    ensures IsOrder(children, NamesOf(items))
  {
    var order := NamesOf(items);
    forall n ensures n in order <==> n in children {
      if n in children {
        var i :| 0 <= i < |items| && items[i].name == n;
        assert order[i] == n;
      }
    }
  }

  function AddAll(children: Children, added: seq<Item>): Children {
    if added == [] then children
    else AddAll(children, added[..|added| - 1])[added[|added| - 1].name := added[|added| - 1].child]
  }

  function CountRunning(items: seq<Item>): nat {
    if items == [] then 0
    else CountRunning(items[..|items| - 1]) + (if items[|items| - 1].child.running then 1 else 0)
  }

  function AtLeastZero(x: int): nat {
    if x < 0 then 0 else x
  }

  /** `replicas - currentCount` in int32 arithmetic. */
  function Diff(count: nat, replicas: int32): int32 {
    Wrap32(replicas - count)
  }

  /** `-diff`, which is itself at the least int32. */
  function RemoveCount(count: nat, replicas: int32): int32 {
    if Diff(count, replicas) == MIN_INT32 then MIN_INT32 else 0 - Diff(count, replicas)
  }

  /** The newest children that a scale-down goes through, newest first. */
  function Doomed(order: seq<Name>, replicas: int32): seq<Name> {
    Victims(order, AtLeastZero(|order| - AtLeastZero(RemoveCount(|order|, replicas))))
  }

  /** The store after a reconcile of which the first `calls` creations or deletions succeed. */
  function AfterReconcile(children: Children, order: seq<Name>, replicas: int32, added: seq<Item>, calls: nat): Children
    requires |added| >= calls
  {
    if Diff(|order|, replicas) > 0 then AddAll(children, added[..Min(Diff(|order|, replicas), calls)])
    else
      var victims := Doomed(order, replicas);
      TerminateAll(children, victims[..Min(|victims|, calls)])
  }

  /** Deleting more children than there are indexes out of range. */
  function OutcomeOf(count: nat, replicas: int32, calls: nat): Outcome {
    var wanted := if Diff(count, replicas) > 0 then Diff(count, replicas) else RemoveCount(count, replicas);
    if Diff(count, replicas) <= 0 && wanted > count && count <= calls then Panicked
    else if calls < wanted then ApiError
    else Reconciled
  }

  // Replica counts and int32 arithmetic

  lemma SubtractWraps(count: nat, replicas: int32)
    ensures Wrap32(replicas - Wrap32(count)) == Diff(count, replicas)
    ensures Wrap32(0 - Diff(count, replicas)) == RemoveCount(count, replicas)
  {
    WrapSubtract(replicas, count);
    WrapNegate(Diff(count, replicas));
  }

  /** The difference is right exactly while it is at least -2^31. */
  lemma DiffExactly(count: nat, replicas: int32)
    ensures Diff(count, replicas) == replicas - count <==> count - replicas <= MAX_INT32 + 1
    ensures count <= MAX_INT32 && count - replicas > MAX_INT32 + 1 ==>
              Diff(count, replicas) == replicas - count + 0x1_0000_0000
  {
  }

  function Abs(x: int): nat {
    if x < 0 then -x else x
  }

  /** For a replica count in range, a reconcile succeeds exactly if as many calls succeed as children are
      missing or too many, and otherwise reports the failing call. */
  lemma SucceedsExactly(count: nat, replicas: int32, calls: nat)
    requires InRange(count, replicas)
    ensures OutcomeOf(count, replicas, calls) == if calls >= Abs(replicas - count) then Reconciled else ApiError
  {
    DiffExactly(count, replicas);
  }

  /** For a negative one: without a wrap it never succeeds; with one it does what the wrapped difference
      asks for. */
  lemma NegativeOutcome(count: nat, replicas: int32, calls: nat)
    requires replicas < 0 && count <= MAX_INT32
    ensures var gap := count - replicas;
            OutcomeOf(count, replicas, calls) ==
            if gap <= MAX_INT32 then (if calls >= count then Panicked else ApiError)
            else if gap == MAX_INT32 + 1 then Reconciled
            else if calls >= 0x1_0000_0000 - gap then Reconciled else ApiError
  {
    DiffExactly(count, replicas);
  }

  /** The reconciler panics exactly for a negative replica count that does not wrap the difference, after
      all its children were deleted. */
  lemma PanicsExactly(count: nat, replicas: int32, calls: nat)
    ensures OutcomeOf(count, replicas, calls) == Panicked
            <==> replicas < 0 && count - replicas <= MAX_INT32 && count <= calls
  {
    DiffExactly(count, replicas);
  }

  lemma NoneDoomed(children: Children, order: seq<Name>, replicas: int32)
    requires RemoveCount(|order|, replicas) <= 0
    ensures Doomed(order, replicas) == [] && TerminateAll(children, []) == children
  {
  }

  /** What a negative replica count does: it deletes all children, or, if the difference wraps, it
      creates new ones; exactly at -2^31 it does nothing. */
  lemma NegativeReplicas(children: Children, order: seq<Name>, replicas: int32, added: seq<Item>, calls: nat)
    requires replicas < 0 && |order| <= MAX_INT32 && |added| >= calls
    ensures var t, gap := AfterReconcile(children, order, replicas, added, calls), |order| - replicas;
            if gap <= MAX_INT32 then t == TerminateAll(children, Newest(order, calls))
            else if gap == MAX_INT32 + 1 then t == children
            else t == AddAll(children, added[..Min(0x1_0000_0000 - gap, calls)])
  {
    DiffExactly(|order|, replicas);
    var gap := |order| - replicas;
    if gap <= MAX_INT32 {
      AllDoomed(order, replicas, calls);
    } else if gap == MAX_INT32 + 1 {
      NoneDoomed(children, order, replicas);
    }
  }

  /** The newest k children, newest first. */
  function Newest(order: seq<Name>, k: nat): seq<Name> {
    Victims(order, AtLeastZero(|order| - k))
  }

  lemma AllDoomed(order: seq<Name>, replicas: int32, calls: nat)
    requires RemoveCount(|order|, replicas) >= |order|
    ensures var victims := Doomed(order, replicas); victims[..Min(|victims|, calls)] == Newest(order, calls)
  {
    VictimsAreRest(order, 0);
    VictimsAreRest(order, AtLeastZero(|order| - calls));
  }

  function RunningNames(children: Children): set<Name> {
    set n | n in children && children[n].running
  }

  lemma {:induction false} CountIsSet(items: seq<Item>)
    requires DistinctItems(items)
    ensures CountRunning(items) == |set x | x in items && x.child.running :: x.name|
  {
    if items != [] {
      var n := |items| - 1;
      CountIsSet(items[..n]);
      var before := set x | x in items[..n] && x.child.running :: x.name;
      var after := set x | x in items && x.child.running :: x.name;
      assert items == items[..n] + [items[n]];
      assert after == before + (if items[n].child.running then {items[n].name} else {});
      assert items[n].name !in before;
    }
  }

  lemma CountIsRunning(children: Children, items: seq<Item>)
    requires Lists(children, items)
    ensures CountRunning(items) == |RunningNames(children)|
  {
    CountIsSet(items);
    var names := set x | x in items && x.child.running :: x.name;
    forall n | n in RunningNames(children) ensures n in names {
      var i :| 0 <= i < |items| && items[i].name == n;
      assert items[i] in items;
    }
    assert names == RunningNames(children);
  }

  /** Lists the owned children, oldest first. */
  method ListSorted(ghost children: Children, items: seq<Item>, uid: nat) returns (sorted: seq<Item>)
    requires Lists(children, items)
    ensures Lists(Owned(children, uid), sorted) && SortedItems(sorted)
  {
    var owned := FilterOwned(items, uid);
    ControlledListsOwned(children, items, uid);
    sorted := SortByAge(owned);
    PermutedListing(Owned(children, uid), owned, sorted);
  }

  // A whole reconcile is a run of `Deployment` on the owned children

  function Unowned(children: Children, uid: nat): Children {
    map n | n in children && children[n].owner != Some(uid) :: children[n]
  }

  /** The replica count is reached without wrapping. */
  predicate InRange(count: nat, replicas: int32) {
    replicas >= 0 && count - replicas <= MAX_INT32
  }

  lemma DoomedAreVictims(order: seq<Name>, replicas: int32)
    requires InRange(|order|, replicas) && |order| > replicas
    ensures Diff(|order|, replicas) < 0 && Doomed(order, replicas) == Victims(order, replicas)
  {
    DiffExactly(|order|, replicas);
  }

  lemma TerminateOwned(children: Children, uid: nat, victims: seq<Name>)
    requires forall n :: n in victims ==> n in Owned(children, uid)
    ensures Owned(TerminateAll(children, victims), uid) == TerminateAll(Owned(children, uid), victims)
    ensures Unowned(TerminateAll(children, victims), uid) == Unowned(children, uid)
  {
  }

  /** Deletes up to the first failing call. */
  function DeleteSteps(order: seq<Name>, k: nat): seq<Step> {
    [Begin(order)] + DeleteAll(k) + [DeleteNext(false)]
  }

  lemma ScaleDownIsRun(
    children: Children, uid: nat, order: seq<Name>, replicas: int32, added: seq<Item>, calls: nat)
    requires IsOrder(Owned(children, uid), order) && |added| >= calls
    requires InRange(|order|, replicas) && |order| > replicas
    ensures var t := AfterReconcile(children, order, replicas, added, calls);
            && Exec(Cluster(Owned(children, uid), Idle), replicas, DeleteSteps(order, Min(|order| - replicas, calls)))
               == Cluster(Owned(t, uid), Idle)
            && Unowned(t, uid) == Unowned(children, uid)
  {
    var k := Min(|order| - replicas, calls);
    var owned := Owned(children, uid);
    var victims := Victims(order, replicas);
    DoomedAreVictims(order, replicas);
    VictimsAreRest(order, replicas);
    assert forall n :: n in victims ==> n in order;
    TerminateOwned(children, uid, victims[..k]);
    DeletionRun(owned, order, replicas, k);
  }

  lemma DeletionRun(owned: Children, order: seq<Name>, replicas: nat, k: nat)
    requires IsOrder(owned, order) && |order| > replicas && k <= |Victims(order, replicas)|
    ensures Exec(Cluster(owned, Idle), replicas, DeleteSteps(order, k))
            == Cluster(TerminateAll(owned, Victims(order, replicas)[..k]), Idle)
  {
    var c := Cluster(owned, Idle);
    BeginRun(c, replicas, order, DeleteAll(k));
    ExecConcat(c, replicas, [Begin(order)] + DeleteAll(k), [DeleteNext(false)]);
    VictimsAreRest(order, replicas);
    assert forall n :: n in Victims(order, replicas) ==> n in order;
    DeletionsTerminate(Apply(c, replicas, Begin(order)), replicas, k);
    var d := Exec(c, replicas, [Begin(order)] + DeleteAll(k));
    OneStep(d, replicas, DeleteNext(false));
  }

  lemma OneStep(c: Cluster, replicas: nat, step: Step)
    ensures Exec(c, replicas, [step]) == Apply(c, replicas, step)
  {
    assert [step][..0] == [];
  }

  lemma BeginRun(c: Cluster, replicas: nat, order: seq<Name>, steps: seq<Step>)
    ensures Exec(c, replicas, [Begin(order)] + steps) == Exec(Apply(c, replicas, Begin(order)), replicas, steps)
  {
    OneStep(c, replicas, Begin(order));
    ExecConcat(c, replicas, [Begin(order)], steps);
  }

  function CreateAll(added: seq<Item>): seq<Step> {
    seq(|added|, i requires 0 <= i < |added| => CreateNext(added[i].name, added[i].child, true))
  }

  /** Objects the API server accepts for this deployment: new names, not yet terminating. */
  ghost predicate CreatableFor(children: Children, added: seq<Item>, uid: nat) {
    Creatable(children, added) && forall i :: 0 <= i < |added| ==> added[i].child.owner == Some(uid)
  }

  ghost predicate Creatable(children: Children, added: seq<Item>) {
    && DistinctItems(added)
    && forall i :: 0 <= i < |added| ==> added[i].name !in children && !added[i].child.terminating
  }

  lemma {:induction false} AddedNames(children: Children, added: seq<Item>, n: Name)
    requires n in AddAll(children, added) && n !in children
    ensures exists i :: 0 <= i < |added| && added[i].name == n
  {
    var k := |added| - 1;
    if n != added[k].name {
      AddedNames(children, added[..k], n);
    }
  }

  lemma {:induction false} CreationsAdd(c: Cluster, replicas: nat, added: seq<Item>)
    requires c.work.Creating? && |added| <= c.work.left && Creatable(c.children, added)
    ensures Exec(c, replicas, CreateAll(added)) == Cluster(AddAll(c.children, added), Creating(c.work.left - |added|))
  {
    if added != [] {
      var n := |added| - 1;
      CreationsAdd(c, replicas, added[..n]);
      assert CreateAll(added)[..n] == CreateAll(added[..n]);
      if added[n].name in AddAll(c.children, added[..n]) {
        AddedNames(c.children, added[..n], added[n].name);
      }
    }
  }

  lemma AddOneOwned(children: Children, uid: nat, n: Name, child: Child)
    requires child.owner == Some(uid) && n !in children
    ensures Owned(children[n := child], uid) == Owned(children, uid)[n := child]
    ensures Unowned(children[n := child], uid) == Unowned(children, uid)
  {
  }

  lemma {:induction false} AddOwned(children: Children, uid: nat, added: seq<Item>)
    requires CreatableFor(children, added, uid)
    ensures Owned(AddAll(children, added), uid) == AddAll(Owned(children, uid), added)
    ensures Unowned(AddAll(children, added), uid) == Unowned(children, uid)
  {
    if added != [] {
      var k := |added| - 1;
      AddOwned(children, uid, added[..k]);
      var store := AddAll(children, added[..k]);
      if added[k].name in store {
        AddedNames(children, added[..k], added[k].name);
      }
      AddOneOwned(store, uid, added[k].name, added[k].child);
    }
  }

  /** Creates up to the first failing call; what a failing call would have created does not matter. */
  function CreateSteps(order: seq<Name>, added: seq<Item>): seq<Step> {
    [Begin(order)] + CreateAll(added) + [CreateNext(0, Child(None, 0, false, false), false)]
  }

  lemma ScaleUpIsRun(
    children: Children, uid: nat, order: seq<Name>, replicas: int32, added: seq<Item>, calls: nat)
    requires IsOrder(Owned(children, uid), order) && |added| >= calls && CreatableFor(children, added, uid)
    requires |order| < replicas
    ensures var t := AfterReconcile(children, order, replicas, added, calls);
            && Exec(Cluster(Owned(children, uid), Idle), replicas,
                    CreateSteps(order, added[..Min(replicas - |order|, calls)])) == Cluster(Owned(t, uid), Idle)
            && Unowned(t, uid) == Unowned(children, uid)
  {
    var k := Min(replicas - |order|, calls);
    assert AfterReconcile(children, order, replicas, added, calls) == AddAll(children, added[..k]) by {
      DiffExactly(|order|, replicas);
    }
    PrefixIsCreatable(children, uid, added, k);
    AddOwned(children, uid, added[..k]);
    CreationRun(Owned(children, uid), order, replicas, added[..k]);
  }

  lemma PrefixIsCreatable(children: Children, uid: nat, added: seq<Item>, k: nat)
    requires CreatableFor(children, added, uid) && k <= |added|
    ensures CreatableFor(children, added[..k], uid) && Creatable(Owned(children, uid), added[..k])
  {
  }

  lemma CreationRun(owned: Children, order: seq<Name>, replicas: nat, added: seq<Item>)
    requires IsOrder(owned, order) && |order| + |added| <= replicas && |order| < replicas && Creatable(owned, added)
    ensures Exec(Cluster(owned, Idle), replicas, CreateSteps(order, added)) == Cluster(AddAll(owned, added), Idle)
  {
    var c := Cluster(owned, Idle);
    BeginRun(c, replicas, order, CreateAll(added));
    CreationsAdd(Apply(c, replicas, Begin(order)), replicas, added);
    var last := CreateNext(0, Child(None, 0, false, false), false);
    ExecConcat(c, replicas, [Begin(order)] + CreateAll(added), [last]);
    OneStep(Exec(c, replicas, [Begin(order)] + CreateAll(added)), replicas, last);
  }

  // What a reconcile reaches

  lemma {:induction false} AddedCount(children: Children, added: seq<Item>)
    requires Creatable(children, added)
    ensures |AddAll(children, added)| == |children| + |added|
    ensures forall n :: n in children ==> n in AddAll(children, added) && AddAll(children, added)[n] == children[n]
  {
    if added != [] {
      var k := |added| - 1;
      AddedCount(children, added[..k]);
      if added[k].name in AddAll(children, added[..k]) {
        AddedNames(children, added[..k], added[k].name);
      }
    }
  }

  /** A scale-up adds one owned child per successful call, up to the replica count, and keeps all others
      as they are. */
  lemma ScaleUpReaches(
    children: Children, uid: nat, order: seq<Name>, replicas: int32, added: seq<Item>, calls: nat)
    requires IsOrder(Owned(children, uid), order) && |added| >= calls && CreatableFor(children, added, uid)
    requires |order| <= replicas
    ensures var t := AfterReconcile(children, order, replicas, added, calls);
            && |Owned(t, uid)| == Min(replicas, |order| + calls)
            && forall n :: n in children ==> n in t && t[n] == children[n]
  {
    DiffExactly(|order|, replicas);
    OrderCount(Owned(children, uid), order);
    if |order| == replicas {
      NoneDoomed(children, order, replicas);
    } else {
      var k := Min(replicas - |order|, calls);
      PrefixIsCreatable(children, uid, added, k);
      AddOwned(children, uid, added[..k]);
      AddedCount(Owned(children, uid), added[..k]);
      AddedCount(children, added[..k]);
    }
  }

  /** A scale-down marks exactly the newest surplus children, one per successful call, and changes nothing
      else. */
  lemma ScaleDownReaches(
    children: Children, uid: nat, order: seq<Name>, replicas: int32, added: seq<Item>, calls: nat)
    requires IsOrder(Owned(children, uid), order) && |added| >= calls
    requires InRange(|order|, replicas) && |order| > replicas
    ensures var t := AfterReconcile(children, order, replicas, added, calls);
            var kept := |order| - Min(|order| - replicas, calls);
            && t.Keys == children.Keys
            && (forall i :: kept <= i < |order| ==> t[order[i]] == children[order[i]].(terminating := true))
            && (forall n :: n in children && n !in order[kept..] ==> t[n] == children[n])
  {
    DoomedAreVictims(order, replicas);
    VictimsAreRest(order, replicas);
    var k := Min(|order| - replicas, calls);
    var victims := Victims(order, replicas)[..k];
    NewestAreLast(order, victims);
  }

  lemma NewestAreLast(order: seq<Name>, victims: seq<Name>)
    requires |victims| <= |order| && forall k :: 0 <= k < |victims| ==> victims[k] == order[|order| - 1 - k]
    ensures forall n :: n in victims <==> n in order[|order| - |victims|..]
  {
    var last := order[|order| - |victims|..];
    forall n | n in victims ensures n in last {
      var k :| 0 <= k < |victims| && victims[k] == n;
      assert last[|victims| - 1 - k] == n;
    }
    forall n | n in last ensures n in victims {
      var k :| 0 <= k < |last| && last[k] == n;
      assert victims[|victims| - 1 - k] == n;
    }
  }

  // The whole store over time

  /** What happens to the store: reconciles of this deployment, removals of terminating objects, status
      updates, and anything done to objects that this deployment does not control. */
  datatype Event =
    | Reconciling(order: seq<Name>, added: seq<Item>, calls: nat)
    | Purging(name: Name)
    | Reporting(name: Name, running: bool)
    | Elsewhere(name: Name, child: Option<Child>)

  ghost predicate Possible(children: Children, uid: nat, replicas: int32, e: Event) {
    match e
    case Reconciling(order, added, calls) =>
      && IsOrder(Owned(children, uid), order) && |added| >= calls && CreatableFor(children, added, uid)
      && InRange(|order|, replicas)
    case Purging(n) => n in children && children[n].terminating
    case Reporting(n, _) => n in children
    case Elsewhere(n, child) =>
      && (n in children ==> children[n].owner != Some(uid))
      && (child.Some? ==> child.value.owner != Some(uid))
  }

  ghost function AfterEvent(children: Children, uid: nat, replicas: int32, e: Event): Children {
    if !Possible(children, uid, replicas, e) then children
    else
      match e
      case Reconciling(order, added, calls) => AfterReconcile(children, order, replicas, added, calls)
      case Purging(n) => children - {n}
      case Reporting(n, running) => WithStatus(children, n, running)
      case Elsewhere(n, child) => if child.Some? then children[n := child.value] else children - {n}
  }

  ghost function AfterEvents(children: Children, uid: nat, replicas: int32, events: seq<Event>): Children {
    if events == [] then children
    else
      var n := |events| - 1;
      AfterEvent(AfterEvents(children, uid, replicas, events[..n]), uid, replicas, events[n])
  }

  lemma EventIsRun(children: Children, uid: nat, replicas: int32, e: Event) returns (steps: seq<Step>)
    requires replicas >= 0
    ensures Exec(Cluster(Owned(children, uid), Idle), replicas, steps)
            == Cluster(Owned(AfterEvent(children, uid, replicas, e), uid), Idle)
  {
    steps := [];
    if Possible(children, uid, replicas, e) {
      match e {
        case Reconciling(order, added, calls) => steps := ReconcileIsRun(children, uid, order, replicas, added, calls);
        case Purging(n) =>
          steps := [Purge(n)];
          OneStep(Cluster(Owned(children, uid), Idle), replicas, Purge(n));
          assert Owned(children - {n}, uid) == Owned(children, uid) - {n};
        case Reporting(n, running) =>
          steps := [Report(n, running)];
          OneStep(Cluster(Owned(children, uid), Idle), replicas, Report(n, running));
          assert Owned(WithStatus(children, n, running), uid) == WithStatus(Owned(children, uid), n, running);
        case Elsewhere(n, child) =>
          assert Owned(AfterEvent(children, uid, replicas, e), uid) == Owned(children, uid);
      }
    }
  }

  lemma ReconcileIsRun(
    children: Children, uid: nat, order: seq<Name>, replicas: int32, added: seq<Item>, calls: nat)
    returns (steps: seq<Step>)
    requires IsOrder(Owned(children, uid), order) && |added| >= calls && CreatableFor(children, added, uid)
    requires InRange(|order|, replicas)
    ensures Exec(Cluster(Owned(children, uid), Idle), replicas, steps)
            == Cluster(Owned(AfterReconcile(children, order, replicas, added, calls), uid), Idle)
  {
    if |order| > replicas {
      steps := DeleteSteps(order, Min(|order| - replicas, calls));
      ScaleDownIsRun(children, uid, order, replicas, added, calls);
    } else if |order| < replicas {
      steps := CreateSteps(order, added[..Min(replicas - |order|, calls)]);
      ScaleUpIsRun(children, uid, order, replicas, added, calls);
    } else {
      steps := [];
      DiffExactly(|order|, replicas);
      NoneDoomed(children, order, replicas);
    }
  }

  lemma {:induction false} EventsAreRun(children: Children, uid: nat, replicas: int32, events: seq<Event>)
    returns (steps: seq<Step>)
    requires replicas >= 0
    ensures Exec(Cluster(Owned(children, uid), Idle), replicas, steps)
            == Cluster(Owned(AfterEvents(children, uid, replicas, events), uid), Idle)
  {
    steps := [];
    if events != [] {
      var n := |events| - 1;
      steps := EventsAreRun(children, uid, replicas, events[..n]);
      var more := EventIsRun(AfterEvents(children, uid, replicas, events[..n]), uid, replicas, events[n]);
      ExecConcat(Cluster(Owned(children, uid), Idle), replicas, steps, more);
      steps := steps + more;
    }
  }

  /** In a namespace shared with other owners, over any sequence of reconciles with failing calls,
      delayed removals and foreign changes: the oldest replicas are never deleted, and the wanted number
      of children stays live. */
  lemma StoreKeepsOldest(children: Children, uid: nat, replicas: int32, keep: set<Name>, events: seq<Event>)
    requires replicas >= 0
    requires Live(Owned(children, uid)) == Owned(children, uid).Keys
    requires OldestReplicas(Owned(children, uid), replicas, keep)
    ensures var live := Live(Owned(AfterEvents(children, uid, replicas, events), uid));
            keep <= live && |live| >= Min(replicas, |Owned(children, uid)|)
  {
    var steps := EventsAreRun(children, uid, replicas, events);
    OldestSurvive(Cluster(Owned(children, uid), Idle), replicas, keep, steps);
  }

  class Reconciler {
    var children: Children
    var available: int32   // status.availableReplicas

    /** `calls` is how many create or delete calls succeed, `added` what successive creates produce.
        The order is the sorted list the reconcile worked with. */
    method Reconcile(uid: nat, replicas: int32, items: seq<Item>, added: seq<Item>, calls: nat, updateOk: bool)
      returns (order: seq<Name>, outcome: Outcome)
      requires Lists(children, items) && |added| >= calls
      modifies this
      ensures IsOrder(Owned(old(children), uid), order)
      ensures children == AfterReconcile(old(children), order, replicas, added, calls)
      ensures var running := Wrap32(|RunningNames(Owned(old(children), uid))|);
              var scaled := OutcomeOf(|order|, replicas, calls);
              && outcome == (if scaled == Reconciled && old(available) != running && !updateOk
                             then ApiError else scaled)
              && available == if scaled == Reconciled && updateOk then running else old(available)
      ensures InRange(|order|, replicas) && calls < Abs(replicas - |order|) ==>
                outcome == ApiError && available == old(available)
      ensures InRange(|order|, replicas) && calls >= Abs(replicas - |order|) && updateOk ==>
                outcome == Reconciled && available == Wrap32(|RunningNames(Owned(old(children), uid))|)
    {
      var sorted := ListSorted(children, items, uid);
      SortedListingIsOrder(Owned(children, uid), sorted);
      CountIsRunning(Owned(children, uid), sorted);
      order := NamesOf(sorted);
      if InRange(|order|, replicas) {
        SucceedsExactly(|order|, replicas, calls);
      }
      outcome := Scale(uid, order, replicas, added, calls);
      if outcome == Reconciled {
        outcome := UpdateAvailable(sorted, updateOk);
      }
    }

    /** Creates or deletes to reach the replica count. */
    method Scale(uid: nat, order: seq<Name>, replicas: int32, added: seq<Item>, calls: nat) returns (outcome: Outcome)
      requires IsOrder(Owned(children, uid), order) && |added| >= calls
      modifies this`children
      ensures children == AfterReconcile(old(children), order, replicas, added, calls)
      ensures outcome == OutcomeOf(|order|, replicas, calls)
    {
      var currentCount := Wrap32(|order|);
      var diff := Wrap32(replicas as int - currentCount as int);
      SubtractWraps(|order|, replicas);
      if diff > 0 {
        outcome := ScaleUp(added, diff, calls);
      } else {
        outcome := Reconciled;
        if diff < 0 {
          outcome := ScaleDown(uid, order, Wrap32(0 - diff as int), calls);
        } else {
          NoneDoomed(children, order, replicas);
        }
      }
    }

    method ScaleUp(added: seq<Item>, diff: nat, calls: nat) returns (outcome: Outcome)
      requires |added| >= calls
      modifies this`children
      ensures children == AddAll(old(children), added[..Min(diff, calls)])
      ensures outcome == if calls < diff then ApiError else Reconciled
    {
      var i := 0;
      while i < diff
        invariant 0 <= i <= diff && i <= calls
        invariant children == AddAll(old(children), added[..i])
      {
        if i == calls {
          return ApiError;
        }
        children := children[added[i].name := added[i].child];
        assert added[..i + 1][..i] == added[..i];
        i := i + 1;
      }
      outcome := Reconciled;
    }

    method ScaleDown(uid: nat, order: seq<Name>, removeCount: int32, calls: nat) returns (outcome: Outcome)
      requires IsOrder(Owned(children, uid), order)
      modifies this`children
      ensures var victims := Victims(order, AtLeastZero(|order| - AtLeastZero(removeCount)));
              children == TerminateAll(old(children), victims[..Min(|victims|, calls)])
      ensures outcome == if removeCount > |order| && |order| <= calls then Panicked
                         else if calls < removeCount then ApiError
                         else Reconciled
    {
      ghost var keep := AtLeastZero(|order| - AtLeastZero(removeCount));
      ghost var victims := Victims(order, keep);
      VictimsAreRest(order, keep);
      assert TerminateAll(children, victims[..0]) == children;
      var i := 0;
      while i < removeCount
        invariant 0 <= i <= |victims| && i <= AtLeastZero(removeCount) && i <= calls
        invariant children == TerminateAll(old(children), victims[..i])
      {
        if |order| - 1 - i < 0 {
          return Panicked;
        }
        var victim := order[|order| - 1 - i];
        if i == calls {
          return ApiError;
        }
        assert victims[i] == victim && victim in order;
        TerminateOneMore(old(children), victims, i);
        children := Terminate(children, victim);
        i := i + 1;
      }
      outcome := Reconciled;
    }

    /** Counts what was running before the scaling, and writes the count if it changed. */
    method UpdateAvailable(owned: seq<Item>, updateOk: bool) returns (outcome: Outcome)
      modifies this`available
      ensures var running := Wrap32(CountRunning(owned));
              && outcome == (if old(available) != running && !updateOk then ApiError else Reconciled)
              && available == if updateOk then running else old(available)
    {
      var count: int32 := 0;
      for i := 0 to |owned|
        invariant count == Wrap32(CountRunning(owned[..i])) && available == old(available)
      {
        assert owned[..i + 1][..i] == owned[..i];
        WrapNext(CountRunning(owned[..i]));
        if owned[i].child.running {
          count := Wrap32(count as int + 1);
        }
      }
      assert owned[..|owned|] == owned;
      if available != count {
        if !updateOk {
          return ApiError;
        }
        available := count;
      }
      return Reconciled;
    }
  }
}
