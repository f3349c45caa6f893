/** The work-distribution bookkeeping of `Profiler`: a FIFO of unassigned
    work, a FIFO of idle workers and a map from busy workers to their work,
    matched greedily from both sides. */
module Coordinator {
  import opened Messages

  datatype Coordinator = Coordinator(
    unassignedWork: seq<WorkItem>,
    idleWorkers: seq<ActorRef>,
    busyWorkers: map<ActorRef, WorkItem>)

  /** The state at actor start: nothing queued, nobody registered. */
  function Init(): Coordinator {
    Coordinator([], [], map[])
  }

  /** Whether the coordinator knows of `worker`: it is idle or busy. */
  predicate IsTracked(c: Coordinator, worker: ActorRef) {
    worker in c.idleWorkers || worker in c.busyWorkers
  }

  predicate Distinct<T(==)>(s: seq<T>) {
    forall i, j :: 0 <= i < j < |s| ==> s[i] != s[j]
  }

  /** What every handler keeps true: there are never both an idle worker
      and queued work; no worker is idle twice; no worker is both idle and
      busy. */
  ghost predicate Inv(c: Coordinator) {
    && (|c.idleWorkers| == 0 || |c.unassignedWork| == 0)
    && Distinct(c.idleWorkers)
    && (forall w :: w in c.idleWorkers ==> w !in c.busyWorkers)
  }

  lemma EmptyIff(keys: set<ActorRef>)
    ensures keys == {} <==> forall k :: k !in keys
  {
    if forall k :: k !in keys {
      assert keys == {};
    }
  }

  /** The work the workers in `keys` hold, counted with multiplicity. */
  ghost function WorkOf(m: map<ActorRef, WorkItem>, keys: set<ActorRef>): multiset<WorkItem>
    requires keys <= m.Keys
    decreases keys
  {
    if keys == {} then multiset{}
    else
      EmptyIff(keys);
      var k :| k in keys;
      multiset{m[k]} + WorkOf(m, keys - {k})
  }

  /** The work held by busy workers, counted with multiplicity. */
  ghost function BusyWork(m: map<ActorRef, WorkItem>): multiset<WorkItem> {
    WorkOf(m, m.Keys)
  }

  /** All outstanding work: queued or held by a worker. */
  ghost function Pool(c: Coordinator): multiset<WorkItem> {
    multiset(c.unassignedWork) + BusyWork(c.busyWorkers)
  }

  lemma {:induction false} WorkOfRemove(m: map<ActorRef, WorkItem>, keys: set<ActorRef>, k: ActorRef)
    requires keys <= m.Keys && k in keys
    ensures WorkOf(m, keys) == WorkOf(m, keys - {k}) + multiset{m[k]}
    decreases keys
  {
    var j :| j in keys && WorkOf(m, keys) == multiset{m[j]} + WorkOf(m, keys - {j});
    if j != k {
      WorkOfRemove(m, keys - {j}, k);
      WorkOfRemove(m, keys - {k}, j);
      assert keys - {j} - {k} == keys - {k} - {j};
    }
  }

  lemma {:induction false} WorkOfAgree(m: map<ActorRef, WorkItem>, m': map<ActorRef, WorkItem>, keys: set<ActorRef>)
    requires keys <= m.Keys && keys <= m'.Keys
    requires forall k :: k in keys ==> m[k] == m'[k]
    ensures WorkOf(m, keys) == WorkOf(m', keys)
    decreases keys
  {
    if keys != {} {
      EmptyIff(keys);
      var j :| j in keys && WorkOf(m, keys) == multiset{m[j]} + WorkOf(m, keys - {j});
      WorkOfRemove(m', keys, j);
      WorkOfAgree(m, m', keys - {j});
    }
  }

  lemma BusyWorkRemove(m: map<ActorRef, WorkItem>, k: ActorRef)
    requires k in m
    ensures BusyWork(m) == BusyWork(m - {k}) + multiset{m[k]}
  {
    WorkOfRemove(m, m.Keys, k);
    WorkOfAgree(m, m - {k}, m.Keys - {k});
    assert (m - {k}).Keys == m.Keys - {k};
  }

  lemma BusyWorkAdd(m: map<ActorRef, WorkItem>, k: ActorRef, w: WorkItem)
    requires k !in m
    ensures BusyWork(m[k := w]) == BusyWork(m) + multiset{w}
  {
    BusyWorkRemove(m[k := w], k);
    assert m[k := w] - {k} == m;
  }

  // ---------------------------------------------------------------------------
  // The two `assign` overloads

  /** `assign(WorkMessage)`: with no idle worker the work joins the tail of
      the queue and nothing else changes; otherwise the oldest idle worker
      leaves the idle queue and becomes busy with it. */
  function AssignWork(c: Coordinator, work: WorkItem): (c': Coordinator)
    ensures |c.idleWorkers| == 0 ==> c' == c.(unassignedWork := c.unassignedWork + [work])
    ensures |c.idleWorkers| > 0 ==>
      && c'.unassignedWork == c.unassignedWork
      && c'.idleWorkers == c.idleWorkers[1..]
      && c'.busyWorkers == c.busyWorkers[c.idleWorkers[0] := work]
  {
    if |c.idleWorkers| == 0 then c.(unassignedWork := c.unassignedWork + [work])
    else
      var worker := c.idleWorkers[0];
      c.(idleWorkers := c.idleWorkers[1..], busyWorkers := c.busyWorkers[worker := work])
  }

  /** `assign(ActorRef)`: with no queued work the worker joins the tail of
      the idle queue; otherwise the oldest queued item leaves the queue and
      the worker becomes busy with it. */
  function AssignWorker(c: Coordinator, worker: ActorRef): (c': Coordinator)
    ensures |c.unassignedWork| == 0 ==> c' == c.(idleWorkers := c.idleWorkers + [worker])
    ensures |c.unassignedWork| > 0 ==>
      && c'.unassignedWork == c.unassignedWork[1..]
      && c'.idleWorkers == c.idleWorkers
      && c'.busyWorkers == c.busyWorkers[worker := c.unassignedWork[0]]
  {
    if |c.unassignedWork| == 0 then c.(idleWorkers := c.idleWorkers + [worker])
    else
      var work := c.unassignedWork[0];
      c.(unassignedWork := c.unassignedWork[1..], busyWorkers := c.busyWorkers[worker := work])
  }

  /** Offering work keeps the invariant, adds exactly that work to the
      outstanding pool and neither adds nor drops a worker. */
  lemma AssignWorkPreserves(c: Coordinator, work: WorkItem)
    requires Inv(c)
    ensures Inv(AssignWork(c, work))
    ensures Pool(AssignWork(c, work)) == Pool(c) + multiset{work}
    ensures forall w :: IsTracked(AssignWork(c, work), w) <==> IsTracked(c, w)
  {
    AssignWorkInv(c, work);
    AssignWorkPool(c, work);
    AssignWorkTracked(c, work);
  }

  lemma AssignWorkInv(c: Coordinator, work: WorkItem)
    requires Inv(c)
    ensures Inv(AssignWork(c, work))
  {
    var c' := AssignWork(c, work);
    if |c.idleWorkers| > 0 {
      assert forall i :: 0 <= i < |c'.idleWorkers| ==> c'.idleWorkers[i] == c.idleWorkers[i + 1];
    }
  }

  lemma AssignWorkPool(c: Coordinator, work: WorkItem)
    requires Inv(c)
    ensures Pool(AssignWork(c, work)) == Pool(c) + multiset{work}
  {
    if |c.idleWorkers| > 0 {
      var w := c.idleWorkers[0];
      assert w !in c.busyWorkers;
      BusyWorkAdd(c.busyWorkers, w, work);
    }
  }

  lemma AssignWorkTracked(c: Coordinator, work: WorkItem)
    requires Inv(c)
    ensures forall w :: IsTracked(AssignWork(c, work), w) <==> IsTracked(c, w)
  {
    var c' := AssignWork(c, work);
    if |c.idleWorkers| > 0 {
      assert c.idleWorkers == [c.idleWorkers[0]] + c'.idleWorkers;
    }
  }

  /** Offering a worker that is not yet known keeps the invariant, leaves
      the outstanding pool as it was and adds exactly that worker. */
  lemma AssignWorkerPreserves(c: Coordinator, worker: ActorRef)
    requires Inv(c)
    requires !IsTracked(c, worker)
    ensures Inv(AssignWorker(c, worker))
    ensures Pool(AssignWorker(c, worker)) == Pool(c)
    ensures forall w :: IsTracked(AssignWorker(c, worker), w) <==> IsTracked(c, w) || w == worker
  {
    AssignWorkerInv(c, worker);
    AssignWorkerPool(c, worker);
    AssignWorkerTracked(c, worker);
  }

  lemma AssignWorkerInv(c: Coordinator, worker: ActorRef)
    requires Inv(c)
    requires !IsTracked(c, worker)
    ensures Inv(AssignWorker(c, worker))
  {
    var c' := AssignWorker(c, worker);
    if |c.unassignedWork| == 0 {
      var idle := c'.idleWorkers;
      assert idle == c.idleWorkers + [worker];
      assert forall i :: 0 <= i < |c.idleWorkers| ==> idle[i] == c.idleWorkers[i];
    }
  }

  lemma AssignWorkerPool(c: Coordinator, worker: ActorRef)
    requires Inv(c)
    requires !IsTracked(c, worker)
    ensures Pool(AssignWorker(c, worker)) == Pool(c)
  {
    var c' := AssignWorker(c, worker);
    if |c.unassignedWork| > 0 {
      BusyWorkAdd(c.busyWorkers, worker, c.unassignedWork[0]);
      assert c.unassignedWork == [c.unassignedWork[0]] + c'.unassignedWork;
    }
  }

  lemma AssignWorkerTracked(c: Coordinator, worker: ActorRef)
    requires Inv(c)
    ensures forall w :: IsTracked(AssignWorker(c, worker), w) <==> IsTracked(c, w) || w == worker
  {
  }

  /** `assign(WorkMessage)` applied to each item in turn. */
  function AssignAll(c: Coordinator, items: seq<WorkItem>): (c': Coordinator)
    decreases |items|
    ensures |c.idleWorkers| == 0 ==> c' == c.(unassignedWork := c.unassignedWork + items)
    ensures |c'.unassignedWork| >= |c.unassignedWork|
  {
    if |items| == 0 then c
    else
      var c' := AssignAll(AssignWork(c, items[0]), items[1..]);
      assert items == [items[0]] + items[1..];
      c'
  }

  /** Offering a batch of work keeps the invariant, adds exactly the batch
      to the outstanding pool and neither adds nor drops a worker. */
  lemma AssignAllPreserves(c: Coordinator, items: seq<WorkItem>)
    requires Inv(c)
    ensures Inv(AssignAll(c, items))
    ensures Pool(AssignAll(c, items)) == Pool(c) + multiset(items)
    ensures forall w :: IsTracked(AssignAll(c, items), w) <==> IsTracked(c, w)
  {
    AssignAllInv(c, items);
    AssignAllPool(c, items);
    AssignAllTracked(c, items);
  }

  lemma {:induction false} AssignAllInv(c: Coordinator, items: seq<WorkItem>)
    requires Inv(c)
    ensures Inv(AssignAll(c, items))
    decreases |items|
  {
    if |items| > 0 {
      AssignWorkPreserves(c, items[0]);
      AssignAllInv(AssignWork(c, items[0]), items[1..]);
    }
  }

  lemma {:induction false} AssignAllPool(c: Coordinator, items: seq<WorkItem>)
    requires Inv(c)
    ensures Pool(AssignAll(c, items)) == Pool(c) + multiset(items)
    decreases |items|
  {
    if |items| > 0 {
      var c1 := AssignWork(c, items[0]);
      var rest := items[1..];
      AssignWorkPreserves(c, items[0]);
      AssignAllPool(c1, rest);
      assert AssignAll(c, items) == AssignAll(c1, rest);
      assert items == [items[0]] + rest;
    }
  }

  lemma {:induction false} AssignAllTracked(c: Coordinator, items: seq<WorkItem>)
    requires Inv(c)
    ensures forall w :: IsTracked(AssignAll(c, items), w) <==> IsTracked(c, w)
    decreases |items|
  {
    if |items| > 0 {
      var c1 := AssignWork(c, items[0]);
      AssignWorkPreserves(c, items[0]);
      AssignAllTracked(c1, items[1..]);
      assert AssignAll(c, items) == AssignAll(c1, items[1..]);
      forall w
        ensures IsTracked(AssignAll(c, items), w) <==> IsTracked(c, w)
      {
        assert IsTracked(AssignAll(c1, items[1..]), w) <==> IsTracked(c1, w);
        assert IsTracked(c1, w) <==> IsTracked(c, w);
      }
    }
  }

  /** Whatever is queued after offering a batch was queued before or is
      part of the batch. */
  lemma {:induction false} AssignAllQueued(c: Coordinator, items: seq<WorkItem>)
    ensures forall x :: x in AssignAll(c, items).unassignedWork ==> x in c.unassignedWork || x in items
    decreases |items|
  {
    if |items| > 0 {
      var c1 := AssignWork(c, items[0]);
      AssignAllQueued(c1, items[1..]);
      assert AssignAll(c, items) == AssignAll(c1, items[1..]);
      assert forall x :: x in c1.unassignedWork ==> x in c.unassignedWork || x == items[0];
      assert forall x :: x in items[1..] ==> x in items;
    }
  }

  // ---------------------------------------------------------------------------
  // Losing and releasing workers

  /** `Queue.remove(Object)`: drops the first occurrence. */
  function RemoveFirst<T(==)>(s: seq<T>, x: T): (r: seq<T>)
    requires x in s
    ensures |r| == |s| - 1
    ensures multiset(r) == multiset(s) - multiset{x}
    ensures forall y :: y in r ==> y in s
  {
    assert s == [s[0]] + s[1..];
    if s[0] == x then s[1..] else [s[0]] + RemoveFirst(s[1..], x)
  }

  /** `RemoveFirst` cuts out the first position holding `x`. */
  lemma {:induction false} RemoveFirstAt<T>(s: seq<T>, x: T, i: nat)
    requires i < |s| && s[i] == x && x !in s[..i]
    ensures RemoveFirst(s, x) == s[..i] + s[i + 1..]
  {
    if i > 0 {
      assert s[0] in s[..i];
      var t := s[1..];
      assert t[..i - 1] == s[..i][1..];
      RemoveFirstAt(t, x, i - 1);
      ConsDrop(s, i);
    }
  }

  /** Dropping position `i > 0` commutes with splitting off the head. */
  lemma ConsDrop<T>(s: seq<T>, i: nat)
    requires 0 < i < |s|
    ensures [s[0]] + (s[1..][..i - 1] + s[1..][i..]) == s[..i] + s[i + 1..]
  {
    assert s[1..][i..] == s[i + 1..];
    assert [s[0]] + s[1..][..i - 1] == s[..i];
  }

  /** Removing a worker from a duplicate-free idle queue keeps it
      duplicate-free and leaves exactly the other workers in it. */
  lemma RemoveFirstDistinct<T>(s: seq<T>, x: T)
    requires x in s && Distinct(s)
    ensures Distinct(RemoveFirst(s, x))
    ensures forall y :: y in RemoveFirst(s, x) <==> y in s && y != x
  {
    var i :| 0 <= i < |s| && s[i] == x;
    RemoveFirstAt(s, x, i);
    DropDistinct(s, i);
  }

  /** Dropping position `i` of a duplicate-free sequence. */
  lemma DropDistinct<T>(s: seq<T>, i: nat)
    requires i < |s| && Distinct(s)
    ensures Distinct(s[..i] + s[i + 1..])
    ensures forall y :: y in s[..i] + s[i + 1..] <==> y in s && y != s[i]
  {
    var r := s[..i] + s[i + 1..];
    assert forall a :: 0 <= a < |r| ==> r[a] == if a < i then s[a] else s[a + 1];
    forall a, b | 0 <= a < b < |r|
      ensures r[a] != r[b]
    {
      var a' := if a < i then a else a + 1;
      var b' := if b < i then b else b + 1;
      assert r[a] == s[a'] && r[b] == s[b'] && a' < b';
    }
    forall y | y in s && y != s[i]
      ensures y in r
    {
      var a :| 0 <= a < |s| && s[a] == y;
      assert r[if a < i then a else a - 1] == y;
    }
  }

  /** `busyWorkers.remove(worker)`. */
  function Release(c: Coordinator, worker: ActorRef): (c': Coordinator)
    ensures worker !in c'.busyWorkers
    ensures c'.unassignedWork == c.unassignedWork && c'.idleWorkers == c.idleWorkers
    ensures c'.busyWorkers.Keys == c.busyWorkers.Keys - {worker}
    ensures forall w :: w in c'.busyWorkers ==> c'.busyWorkers[w] == c.busyWorkers[w]
  {
    c.(busyWorkers := c.busyWorkers - {worker})
  }

  /** Releasing a worker keeps the invariant and takes exactly its work, if
      it had any, out of the outstanding pool. */
  lemma ReleasePreserves(c: Coordinator, worker: ActorRef)
    requires Inv(c)
    ensures Inv(Release(c, worker))
    ensures worker in c.busyWorkers ==> Pool(Release(c, worker)) + multiset{c.busyWorkers[worker]} == Pool(c)
    ensures worker !in c.busyWorkers ==> Release(c, worker) == c
    ensures forall w :: IsTracked(Release(c, worker), w) <==> IsTracked(c, w) && (w != worker || w in c.idleWorkers)
  {
    if worker in c.busyWorkers {
      BusyWorkRemove(c.busyWorkers, worker);
    } else {
      assert c.busyWorkers - {worker} == c.busyWorkers;
    }
  }

  /** `handle(Terminated)`: an idle worker is dropped from the idle queue;
      a busy worker is dropped from the busy map and its work offered again
      with `assign(WorkMessage)`. */
  function Terminate(c: Coordinator, worker: ActorRef): (c': Coordinator)
  {
    if worker in c.idleWorkers then c.(idleWorkers := RemoveFirst(c.idleWorkers, worker))
    else if worker in c.busyWorkers then AssignWork(Release(c, worker), c.busyWorkers[worker])
    else c
  }

  /** Losing a worker keeps the invariant, forgets exactly that worker and
      loses no work: a busy worker's item goes back through
      `assign(WorkMessage)`. Every other busy worker keeps its item. */
  lemma TerminatePreserves(c: Coordinator, worker: ActorRef)
    requires Inv(c)
    ensures Inv(Terminate(c, worker))
    ensures forall w :: IsTracked(Terminate(c, worker), w) <==> IsTracked(c, w) && w != worker
    ensures Pool(Terminate(c, worker)) == Pool(c)
    ensures forall w :: w in c.busyWorkers && w != worker ==>
      w in Terminate(c, worker).busyWorkers && Terminate(c, worker).busyWorkers[w] == c.busyWorkers[w]
  {
    var c' := Terminate(c, worker);
    if worker in c.idleWorkers {
      RemoveFirstDistinct(c.idleWorkers, worker);
    } else if worker in c.busyWorkers {
      ReleasePreserves(c, worker);
      AssignWorkPreserves(Release(c, worker), c.busyWorkers[worker]);
    }
  }
}
