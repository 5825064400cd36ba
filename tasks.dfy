/**
  Task records of the per-site download scheduler, and the facts about the
  ordered task list that the scheduler relies on: lookup by inner path,
  `list.remove`, and the survivors of a timeout sweep.

  A task is a mutable record shared between the task list, the workers that
  point at it and the caller that waits on its completion signal, so it is a
  class. Its inner path, start time and completion signal are fixed when it
  is created; its peer lock, worker count and done flag are updated in place.
*/
module Tasks {

  datatype Option<T> = None | Some(value: T)

  /** A peer handle, identified by its address. */
  type Peer = string

  /** The inner path getTask hands out before any other eligible task. */
  const MANIFEST: string := "content.json"

  /** Age at which a task is abandoned as failed. */
  const HARD_TIMEOUT: int := 60

  /** Age at which a task re-announces and drops its peer lock. */
  const SOFT_TIMEOUT: int := 15

  /** The one-shot completion signal a caller of AddTask waits on:
      None until the task is resolved, then whether the file was fetched. */
  class AsyncResult {
    var value: Option<bool>

    constructor ()
      ensures value == None
    {
      value := None;
    }
  }

  class Task {
    const innerPath: string
    const timeStart: int
    const evt: AsyncResult
    /** Number of workers on this task; kept up to date by the workers themselves. */
    var workersNum: int
    /** The peer lock: None or Some([]) lets any peer take the task,
        a non-empty list restricts it to the listed peers. */
    var peers: Option<seq<Peer>>
    var done: bool

    constructor (innerPath: string, peers: Option<seq<Peer>>, now: int)
      ensures this.innerPath == innerPath && this.peers == peers && timeStart == now
      ensures workersNum == 0 && !done
      ensures fresh(evt) && evt.value == None
    {
      this.innerPath := innerPath;
      this.timeStart := now;
      this.evt := new AsyncResult();
      this.workersNum := 0;
      this.peers := peers;
      this.done := false;
    }
  }

  /** Whether a peer lock is in force: the list is present and non-empty
      (an empty list is as permissive as no list at all). */
  predicate Locked(peers: Option<seq<Peer>>)
  {
    peers.Some? && peers.value != []
  }

  /** `peer` may take task `t`: the task is not locked, or `peer` is one of its peers. */
  ghost predicate Eligible(t: Task, peer: Peer)
    reads t
  {
    !Locked(t.peers) || peer in t.peers.value
  }

  /** The task has been pending for at least the hard timeout. */
  predicate Expired(t: Task, now: int)
  {
    now >= t.timeStart + HARD_TIMEOUT
  }

  /** The task has been pending for at least the soft timeout but is not yet expired. */
  predicate Stale(t: Task, now: int)
  {
    !Expired(t, now) && now >= t.timeStart + SOFT_TIMEOUT
  }

  /** At most one task per inner path (which also makes the tasks distinct objects). */
  ghost predicate UniquePaths(ts: seq<Task>)
  {
    forall i, j :: 0 <= i < j < |ts| ==> ts[i].innerPath != ts[j].innerPath
  }

  /** Distinct tasks wait on distinct completion signals. */
  ghost predicate DistinctSignals(ts: seq<Task>)
  {
    forall t, u :: t in ts && u in ts && t != u ==> t.evt != u.evt
  }

  /** The first task for `path`, or null when there is none. */
  function Lookup(ts: seq<Task>, path: string): (r: Task?)
    ensures r != null ==> r in ts && r.innerPath == path
    ensures r == null <==> forall t :: t in ts ==> t.innerPath != path
  {
    if ts == [] then null
    else if ts[0].innerPath == path then ts[0]
    else Lookup(ts[1..], path)
  }

  /** A task at index `i` with no earlier task for the same path is what Lookup finds. */
  lemma {:induction false} LookupAt(ts: seq<Task>, path: string, i: nat)
    requires i < |ts| && ts[i].innerPath == path
    requires forall j :: 0 <= j < i ==> ts[j].innerPath != path
    ensures Lookup(ts, path) == ts[i]
  {
    if i > 0 {
      LookupAt(ts[1..], path, i - 1);
    }
  }

  /** Appending a task for a path no task has yet, with a signal no task
      shares, keeps one task per path and distinct signals, and Lookup then
      finds the new task. */
  lemma {:induction false} AppendUnique(ts: seq<Task>, t: Task)
    requires UniquePaths(ts) && DistinctSignals(ts) && Lookup(ts, t.innerPath) == null
    requires forall u :: u in ts ==> u.evt != t.evt
    ensures UniquePaths(ts + [t]) && DistinctSignals(ts + [t])
    ensures Lookup(ts + [t], t.innerPath) == t
  {
    LookupAt(ts + [t], t.innerPath, |ts|);
  }

  /** With one task per path, Lookup finds every task in the list by its own path. */
  lemma {:induction false} LookupUnique(ts: seq<Task>, t: Task)
    requires UniquePaths(ts) && t in ts
    ensures Lookup(ts, t.innerPath) == t
  {
    var i :| 0 <= i < |ts| && ts[i] == t;
    LookupAt(ts, t.innerPath, i);
  }

  /** Python's `list.remove`: drop the first occurrence of `t`. Total here:
      an absent `t` leaves the list as it is, where `list.remove` raises
      ValueError; FailTask and DoneTask only remove a listed task. */
  function RemoveFirst(ts: seq<Task>, t: Task): (r: seq<Task>)
    ensures t !in ts ==> r == ts
    ensures t in ts ==> |r| == |ts| - 1
    ensures forall u :: u in r ==> u in ts
  {
    if ts == [] then []
    else if ts[0] == t then ts[1..]
    else [ts[0]] + RemoveFirst(ts[1..], t)
  }

  /** Removing a task that occurs after the prefix `a` keeps the prefix and the suffix, in order. */
  lemma {:induction false} RemoveFirstSplit(a: seq<Task>, t: Task, b: seq<Task>)
    requires t !in a
    ensures RemoveFirst(a + [t] + b, t) == a + b
  {
    if a == [] {
      assert a + [t] + b == [t] + b;
    } else {
      assert (a + [t] + b)[1..] == a[1..] + [t] + b;
      RemoveFirstSplit(a[1..], t, b);
      assert a + b == [a[0]] + (a[1..] + b);
    }
  }

  /** Removing the task at index `i` when it has no earlier occurrence. */
  lemma {:induction false} RemoveAt(ts: seq<Task>, i: nat)
    requires i < |ts| && ts[i] !in ts[..i]
    ensures RemoveFirst(ts, ts[i]) == ts[..i] + ts[i+1..]
  {
    var a, b := ts[..i], ts[i+1..];
    assert a + [ts[i]] + b == ts;
    RemoveFirstSplit(a, ts[i], b);
  }

  /** Dropping one index keeps one task per path. */
  lemma {:induction false} DropUnique(ts: seq<Task>, i: nat)
    requires i < |ts| && UniquePaths(ts)
    ensures UniquePaths(ts[..i] + ts[i+1..])
  {
    var r := ts[..i] + ts[i+1..];
    forall p, q | 0 <= p < q < |r|
      ensures r[p].innerPath != r[q].innerPath
    {
      var p' := if p < i then p else p + 1;
      var q' := if q < i then q else q + 1;
      assert r[p] == ts[p'] && r[q] == ts[q'];
    }
  }

  /** Removing a task from a list with one task per path leaves exactly the
      other tasks, still one per path. */
  lemma {:induction false} RemoveKeepsUnique(ts: seq<Task>, t: Task)
    requires UniquePaths(ts) && t in ts
    ensures UniquePaths(RemoveFirst(ts, t))
    ensures forall u :: u in RemoveFirst(ts, t) <==> u in ts && u != t
  {
    var i :| 0 <= i < |ts| && ts[i] == t;
    assert t !in ts[..i];
    RemoveAt(ts, i);
    DropUnique(ts, i);
    var r := ts[..i] + ts[i+1..];
    forall u | u in ts && u != t
      ensures u in r
    {
      var k :| 0 <= k < |ts| && ts[k] == u;
      assert u == r[if k < i then k else k - 1];
    }
    assert t !in ts[i+1..];
  }

  /** The tasks a sweep at time `now` keeps: those not yet expired, in list order. */
  function Survivors(ts: seq<Task>, now: int): (r: seq<Task>)
    ensures |r| <= |ts|
    ensures forall t :: t in r ==> t in ts && !Expired(t, now)
    ensures forall t :: t in ts && !Expired(t, now) ==> t in r
  {
    if ts == [] then []
    else
      var last := ts[|ts| - 1];
      Survivors(ts[..|ts| - 1], now) + (if Expired(last, now) then [] else [last])
  }

  /** One step of a sweep: with `swept` already swept, task `t` is either removed
      (expired) or kept in place, and the list is then the survivors of
      `swept + [t]` followed by the unswept `rest`. */
  lemma {:induction false} SweepStep(swept: seq<Task>, t: Task, rest: seq<Task>, now: int)
    requires t !in swept
    ensures Survivors(swept + [t], now) + rest ==
            if Expired(t, now) then RemoveFirst(Survivors(swept, now) + ([t] + rest), t)
            else Survivors(swept, now) + ([t] + rest)
  {
    SurvivorsSnoc(swept, t, rest, now);
    if Expired(t, now) {
      RemoveFirstSplit(Survivors(swept, now), t, rest);
    }
  }

  /** The survivors of one more task: it is kept at the end unless it is expired. */
  lemma {:induction false} SurvivorsSnoc(ts: seq<Task>, t: Task, rest: seq<Task>, now: int)
    ensures Survivors(ts + [t], now) == Survivors(ts, now) + if Expired(t, now) then [] else [t]
    ensures Survivors(ts + [t], now) + rest ==
            if Expired(t, now) then Survivors(ts, now) + rest else Survivors(ts, now) + ([t] + rest)
    ensures Survivors(ts, now) + [t] + rest == Survivors(ts, now) + ([t] + rest)
  {
    assert (ts + [t])[..|ts|] == ts;
  }

  /** In a list with one task per path, the task between `a` and `b` is the only
      one with its path. */
  lemma {:induction false} SplitUnique(a: seq<Task>, t: Task, b: seq<Task>)
    requires UniquePaths(a + [t] + b) && DistinctSignals(a + [t] + b)
    ensures t !in a && t !in b
    ensures forall u :: u in a ==> u.innerPath != t.innerPath && u.evt != t.evt
    ensures forall u :: u in b ==> u.innerPath != t.innerPath && u.evt != t.evt
  {
    var ts := a + [t] + b;
    forall u | u in a
      ensures u.innerPath != t.innerPath && u.evt != t.evt
    {
      var k :| 0 <= k < |a| && a[k] == u;
      assert ts[k] == u && ts[|a|] == t;
      assert u in ts && t in ts;
    }
    forall u | u in b
      ensures u.innerPath != t.innerPath && u.evt != t.evt
    {
      var k :| 0 <= k < |b| && b[k] == u;
      assert ts[|a| + 1 + k] == u && ts[|a|] == t;
      assert u in ts && t in ts;
    }
  }

  /** A sweep keeps one task per path. */
  lemma {:induction false} SurvivorsUnique(ts: seq<Task>, now: int)
    requires UniquePaths(ts)
    ensures UniquePaths(Survivors(ts, now))
  {
    if ts != [] {
      var init, last := ts[..|ts| - 1], ts[|ts| - 1];
      assert UniquePaths(init);
      SurvivorsUnique(init, now);
      forall t | t in Survivors(init, now)
        ensures t.innerPath != last.innerPath
      {
        var k :| 0 <= k < |init| && init[k] == t;
        assert ts[k] == t;
      }
    }
  }

  /** The number of stale tasks: each of them triggers one announce in a sweep. */
  function StaleCount(ts: seq<Task>, now: int): (n: nat)
    ensures n <= |ts|
    ensures n == 0 <==> forall t :: t in ts ==> !Stale(t, now)
  {
    if ts == [] then 0
    else StaleCount(ts[..|ts| - 1], now) + (if Stale(ts[|ts| - 1], now) then 1 else 0)
  }

  /** Counting one more task. */
  lemma {:induction false} StaleCountStep(ts: seq<Task>, t: Task, now: int)
    ensures StaleCount(ts + [t], now) == StaleCount(ts, now) + if Stale(t, now) then 1 else 0
  {
    assert (ts + [t])[..|ts|] == ts;
  }

  /** The mutable part of a task, as a value: its peer lock, worker count, done
      flag and the value of its completion signal. */
  datatype TaskView = TaskView(peers: Option<seq<Peer>>, workersNum: int, done: bool, result: Option<bool>)

  ghost function ViewOf(t: Task): TaskView
    reads t, t.evt
  {
    TaskView(t.peers, t.workersNum, t.done, t.evt.value)
  }

  /** The records of a list of tasks, in list order. */
  ghost function Views(ts: seq<Task>): (vs: seq<TaskView>)
    reads ts, set t | t in ts :: t.evt
  {
    seq(|ts|, i requires 0 <= i < |ts| reads ts, set t | t in ts :: t.evt => ViewOf(ts[i]))
  }

  /** What one sweep at time `now` does to the record `v` of task `t`: an expired
      task is resolved as failed, a stale task loses a peer lock it had, a fresh
      task is left alone. */
  function SweptView(v: TaskView, t: Task, now: int): TaskView
  {
    if Expired(t, now) then v.(done := true, result := Some(false))
    else if Stale(t, now) && Locked(v.peers) then v.(peers := Some([]))
    else v
  }

  /** The records `vs` of the tasks `ts` after the first `n` of them were swept. */
  function SweepViews(vs: seq<TaskView>, ts: seq<Task>, n: nat, now: int): (r: seq<TaskView>)
    requires |vs| == |ts| && n <= |ts|
  {
    seq(|vs|, j requires 0 <= j < |vs| => if j < n then SweptView(vs[j], ts[j], now) else vs[j])
  }

  /** The records of the tasks `snapshot`, which were `views0`, after the
      first `n` of them were swept at time `now`. */
  ghost predicate SweepRecords(now: int, snapshot: seq<Task>, n: nat, views0: seq<TaskView>, views: seq<TaskView>)
  {
    |views0| == |snapshot| && n <= |snapshot| && views == SweepViews(views0, snapshot, n, now)
  }

  /** Sweeping task `n` changes its record and no other: the records move
      from "first n swept" to "first n + 1 swept". */
  lemma {:induction false} ViewsAdvance(now: int, snapshot: seq<Task>, n: nat, views0: seq<TaskView>,
                     before: seq<TaskView>, after: seq<TaskView>)
    requires SweepRecords(now, snapshot, n, views0, before) && n < |snapshot| == |after|
    requires forall j :: 0 <= j < |snapshot| && j != n ==> after[j] == before[j]
    requires after[n] == SweptView(before[n], snapshot[n], now)
    ensures before[n] == views0[n]
    ensures SweepRecords(now, snapshot, n + 1, views0, after)
  {
  }

  /** Two different positions of a list with unique paths and signals hold
      different tasks with different signals. */
  lemma {:induction false} Apart(ts: seq<Task>, n: nat)
    requires UniquePaths(ts) && DistinctSignals(ts) && n < |ts|
    ensures forall j :: 0 <= j < |ts| && j != n ==> ts[j] != ts[n] && ts[j].evt != ts[n].evt
  {
    forall j | 0 <= j < |ts| && j != n
      ensures ts[j] != ts[n] && ts[j].evt != ts[n].evt
    {
      assert ts[j].innerPath != ts[n].innerPath;
      assert ts[j] in ts && ts[n] in ts;
    }
  }

  /** Some task among the first `n` was stale and peer-locked in `vs`, so the sweep released it. */
  ghost predicate Released(vs: seq<TaskView>, ts: seq<Task>, n: nat, now: int)
    requires |vs| == |ts| && n <= |ts|
  {
    exists j :: 0 <= j < n && Stale(ts[j], now) && Locked(vs[j].peers)
  }

  lemma {:induction false} ReleasedStep(vs: seq<TaskView>, ts: seq<Task>, n: nat, now: int)
    requires n < |ts| == |vs|
    ensures Released(vs, ts, n + 1, now) <==> Released(vs, ts, n, now) || (Stale(ts[n], now) && Locked(vs[n].peers))
  {
  }

  /** The inner paths of the expired tasks, in list order: the failures a sweep reports. */
  function ExpiredPaths(ts: seq<Task>, now: int): (ps: seq<string>)
    ensures |ps| <= |ts|
  {
    if ts == [] then []
    else ExpiredPaths(ts[..|ts| - 1], now) + (if Expired(ts[|ts| - 1], now) then [ts[|ts| - 1].innerPath] else [])
  }

  lemma {:induction false} ExpiredPathsStep(ts: seq<Task>, t: Task, now: int)
    ensures ExpiredPaths(ts + [t], now) == ExpiredPaths(ts, now) + if Expired(t, now) then [t.innerPath] else []
  {
    assert (ts + [t])[..|ts|] == ts;
  }

  /** A path is reported exactly when some task for it is expired. */
  lemma {:induction false} ExpiredPathsSpec(ts: seq<Task>, now: int, p: string)
    ensures p in ExpiredPaths(ts, now) <==> exists t :: t in ts && Expired(t, now) && t.innerPath == p
  {
    if ts != [] {
      var init, last := ts[..|ts| - 1], ts[|ts| - 1];
      ExpiredPathsSpec(init, now, p);
      assert ts == init + [last];
      if p in ExpiredPaths(ts, now) && p !in ExpiredPaths(init, now) {
        assert last in ts;
      }
      if exists t :: t in ts && Expired(t, now) && t.innerPath == p {
        var t :| t in ts && Expired(t, now) && t.innerPath == p;
        if t != last {
          assert t in init;
        }
      }
    }
  }

  /** A sweep at time `now` over the list `snapshot`, with `swept` checked and
      `rest` still to go: the snapshot has one task per path and distinct
      signals, and the live list is the survivors so far followed by the rest. */
  ghost predicate SweepOrder(now: int, snapshot: seq<Task>, swept: seq<Task>, rest: seq<Task>, live: seq<Task>)
  {
    && snapshot == swept + rest
    && UniquePaths(snapshot) && DistinctSignals(snapshot)
    && live == Survivors(swept, now) + rest
  }

  /** The next task `t` of a sweep is still live, sits at position |swept| of
      the snapshot, and shares neither task nor signal with any other position. */
  lemma {:induction false} OrderAt(now: int, snapshot: seq<Task>, swept: seq<Task>, t: Task, rest: seq<Task>, live: seq<Task>)
    requires SweepOrder(now, snapshot, swept, [t] + rest, live)
    ensures t in live && |swept| < |snapshot| && snapshot[|swept|] == t
    ensures forall j :: 0 <= j < |snapshot| && j != |swept| ==> snapshot[j] != t && snapshot[j].evt != t.evt
  {
    assert snapshot[|swept|] == t;
    assert live[|Survivors(swept, now)|] == t;
    Apart(snapshot, |swept|);
  }

  /** Checking the next task `t` keeps the order of a sweep: the live list
      loses `t` when it is expired and is otherwise unchanged. */
  lemma {:induction false} OrderStep(now: int, snapshot: seq<Task>, swept: seq<Task>, t: Task, rest: seq<Task>,
                  before: seq<Task>, after: seq<Task>)
    requires SweepOrder(now, snapshot, swept, [t] + rest, before)
    requires after == if Expired(t, now) then RemoveFirst(before, t) else before
    ensures SweepOrder(now, snapshot, swept + [t], rest, after)
  {
    assert swept + [t] + rest == swept + ([t] + rest);
    SplitUnique(swept, t, rest);
    SweepStep(swept, t, rest, now);
  }
}
