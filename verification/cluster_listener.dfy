/** `ClusterListener` on the master: it counts cluster members and, once
    enough are up and a CSV path is known, tells the profiler to start the
    task. */
module ClusterListener {
  import opened Wrappers
  import JavaInt

  datatype Listener = Listener(slavesToWaitFor: int, clusterCount: int, running: bool, csvPath: string)

  /** The field initialisers: wait for `Integer.MAX_VALUE` members, none
      seen yet, not running, no path. */
  function Init(): Listener {
    Listener(JavaInt.IntMax, 0, false, "")
  }

  /** The messages the listener matches on. */
  datatype Event =
    | CurrentClusterState
    | MemberUp
    | UnreachableMember
    | MemberRemoved
    | OtherMemberEvent
    | WaitForCluster(slaves: int, csvPath: string)

  /** The listener afterwards and the path of the `TaskMessage` it sent to
      the profiler, if it sent one. */
  datatype Step = Step(next: Listener, task: Option<string>)

  /** The guard both sending branches test. */
  predicate Ready(l: Listener) {
    !l.running && l.clusterCount >= l.slavesToWaitFor && |l.csvPath| > 0
  }

  /** One message: `MemberUp` and `MemberRemoved` move the member count,
      `WaitForCluster` sets the threshold and the path; `MemberUp` and
      `WaitForCluster` send the task whenever the guard holds afterwards. */
  function Handle(l: Listener, e: Event): (s: Step)
    ensures s.task.Some? <==> (e.MemberUp? || e.WaitForCluster?) && Ready(s.next)
    ensures s.task.Some? ==> s.task.value == s.next.csvPath && |s.task.value| > 0
    ensures s.next.running == l.running
    ensures !e.WaitForCluster? ==> s.next.slavesToWaitFor == l.slavesToWaitFor && s.next.csvPath == l.csvPath
    ensures e.WaitForCluster? ==> s.next.slavesToWaitFor == e.slaves && s.next.csvPath == e.csvPath
    ensures e.WaitForCluster? ==> s.next.clusterCount == l.clusterCount
    ensures e.MemberUp? ==> s.next.clusterCount == l.clusterCount + 1
    ensures e.MemberRemoved? ==> s.next.clusterCount == l.clusterCount - 1
    ensures e.CurrentClusterState? || e.UnreachableMember? || e.OtherMemberEvent? ==> s == Step(l, None)
  {
    match e
    case MemberUp =>
      var next := l.(clusterCount := l.clusterCount + 1);
      Step(next, if Ready(next) then Some(next.csvPath) else None)
    case MemberRemoved =>
      Step(l.(clusterCount := l.clusterCount - 1), None)
    case WaitForCluster(slaves, csvPath) =>
      var next := l.(csvPath := csvPath, slavesToWaitFor := slaves);
      Step(next, if Ready(next) then Some(next.csvPath) else None)
    case _ =>
      Step(l, None)
  }

  /** The listener after a run of messages and the task paths it sent, in
      order. */
  datatype Trace = Trace(final: Listener, tasks: seq<string>)

  function Run(l: Listener, events: seq<Event>): Trace
    decreases |events|
  {
    if |events| == 0 then Trace(l, [])
    else
      var s := Handle(l, events[0]);
      var rest := Run(s.next, events[1..]);
      Trace(rest.final, (if s.task.Some? then [s.task.value] else []) + rest.tasks)
  }

  /** The number of `MemberUp` minus the number of `MemberRemoved` events. */
  function NetMembers(events: seq<Event>): int
    decreases |events|
  {
    if |events| == 0 then 0
    else (if events[0].MemberUp? then 1 else if events[0].MemberRemoved? then -1 else 0) + NetMembers(events[1..])
  }

  /** Nothing ever sets `running`, and the member count is the starting
      count plus ups minus removals. */
  lemma {:induction false} RunCounts(l: Listener, events: seq<Event>)
    ensures Run(l, events).final.running == l.running
    ensures Run(l, events).final.clusterCount == l.clusterCount + NetMembers(events)
    decreases |events|
  {
    if |events| > 0 {
      RunCounts(Handle(l, events[0]).next, events[1..]);
    }
  }

  /** Every task sent carries a non-empty path that came with a
      `WaitForCluster` message, or the path the listener started with. */
  lemma {:induction false} TasksCarryGivenPath(l: Listener, events: seq<Event>)
    ensures forall t :: t in Run(l, events).tasks ==>
      |t| > 0 && (t == l.csvPath || exists k :: 0 <= k < |events| && events[k].WaitForCluster? && events[k].csvPath == t)
    decreases |events|
  {
    if |events| > 0 {
      var s := Handle(l, events[0]);
      TasksCarryGivenPath(s.next, events[1..]);
      forall t | t in Run(l, events).tasks
        ensures |t| > 0 && (t == l.csvPath || exists k :: 0 <= k < |events| && events[k].WaitForCluster? && events[k].csvPath == t)
      {
        if t in Run(s.next, events[1..]).tasks && t != s.next.csvPath {
          var k :| 0 <= k < |events[1..]| && events[1..][k].WaitForCluster? && events[1..][k].csvPath == t;
          assert events[k + 1] == events[1..][k];
        } else if events[0].WaitForCluster? {
          assert events[0].csvPath == s.next.csvPath;
        }
      }
    }
  }

  /** Without a path — as at start, see `Init` — the listener sends
      nothing until it receives a `WaitForCluster` message. */
  lemma {:induction false} NoTaskBeforeWaitForCluster(l: Listener, events: seq<Event>)
    requires l.csvPath == ""
    requires forall k :: 0 <= k < |events| ==> !events[k].WaitForCluster?
    ensures Run(l, events).tasks == []
    decreases |events|
  {
    if |events| > 0 {
      assert forall k :: 0 <= k < |events[1..]| ==> events[1..][k] == events[k + 1];
      NoTaskBeforeWaitForCluster(Handle(l, events[0]).next, events[1..]);
    }
  }

  /** Sending is not one-shot: once the guard holds, every further
      `MemberUp` sends the task again. */
  lemma {:induction false} EveryMemberUpResends(l: Listener, n: nat)
    requires Ready(l)
    ensures Run(l, seq(n, _ => MemberUp)).tasks == seq(n, _ => l.csvPath)
    decreases n
  {
    if n > 0 {
      var ups := seq(n, _ => MemberUp);
      var s := Handle(l, MemberUp);
      assert ups[0] == MemberUp && ups[1..] == seq(n - 1, _ => MemberUp);
      EveryMemberUpResends(s.next, n - 1);
      assert seq(n, _ => l.csvPath) == [l.csvPath] + seq(n - 1, _ => l.csvPath);
    }
  }
}
