/**
  The per-site download scheduler: an ordered list of pending tasks and a
  pool of at most MAX_WORKERS workers, one per peer.

  The clock, the site's peer table and the site's callbacks are outside the
  scheduler: the current time and the peer table are parameters, and every
  call the scheduler makes on the site or on a worker (announce, the file
  hooks, worker start and stop) is appended to the site's ghost `calls`.
*/
module WorkerManagement {
  import opened Tasks

  /** The cap on concurrently running workers. */
  const MAX_WORKERS: nat := 10

  /** A call the scheduler makes on the site or on one of its workers. */
  datatype Event =
    | FileStart(path: string)
    | FileDone(path: string)
    | FileFail(path: string)
    | Complete
    | Announce
    | WorkerStart(key: string)
    | WorkerStop(key: string)

  /** The calls a sweep may make: announces, failures, and worker starts and
      stops. It never reports a file done, a file started or the site complete. */
  predicate SweepCall(e: Event)
  {
    e.Announce? || e.FileFail? || e.WorkerStart? || e.WorkerStop?
  }

  /** One `start()` per key, in order. */
  function Starts(keys: seq<string>): (r: seq<Event>)
    ensures |r| == |keys| && forall i :: 0 <= i < |keys| ==> r[i] == WorkerStart(keys[i])
  {
    if keys == [] then [] else Starts(keys[..|keys| - 1]) + [WorkerStart(keys[|keys| - 1])]
  }

  lemma {:induction false} StartsSnoc(keys: seq<string>, key: string)
    ensures Starts(keys + [key]) == Starts(keys) + [WorkerStart(key)]
  {
    assert (keys + [key])[..|keys|] == keys;
  }

  /** One `stop()` per worker, in order. */
  function Stops(ws: seq<Worker>): (r: seq<Event>)
    ensures |r| == |ws| && forall i :: 0 <= i < |ws| ==> r[i] == WorkerStop(ws[i].key)
  {
    if ws == [] then [] else Stops(ws[..|ws| - 1]) + [WorkerStop(ws[|ws| - 1].key)]
  }

  lemma {:induction false} StartsOnlyStarts(keys: seq<string>)
    ensures forall e :: e in Starts(keys) ==> e.WorkerStart?
  {
  }

  lemma {:induction false} StopsSnoc(ws: seq<Worker>, w: Worker)
    ensures Stops(ws + [w]) == Stops(ws) + [WorkerStop(w.key)]
  {
    assert (ws + [w])[..|ws|] == ws;
  }

  /** Stopping the workers FindWorkers returned for `task` stops exactly the
      keys whose worker is on `task`. */
  lemma {:induction false} StopsMatch(found: seq<Worker>, ws: map<string, Worker>, task: Task)
    requires forall w :: w in found <==> w in ws.Values && w.task == task
    requires forall k :: k in ws ==> ws[k].key == k
    ensures forall k :: WorkerStop(k) in Stops(found) <==> k in ws && ws[k].task == task
  {
    forall k
      ensures WorkerStop(k) in Stops(found) <==> k in ws && ws[k].task == task
    {
      if WorkerStop(k) in Stops(found) {
        var i :| 0 <= i < |found| && Stops(found)[i] == WorkerStop(k);
        assert found[i] in ws.Values;
      }
      if k in ws && ws[k].task == task {
        assert ws[k] in ws.Values;
        var i :| 0 <= i < |found| && found[i] == ws[k];
        assert Stops(found)[i] == WorkerStop(k);
      }
    }
  }

  /** Worker calls followed by one failure: no announce, one failed path. */
  lemma {:induction false} StopsThenFail(stops: seq<Event>, path: string)
    requires forall i :: 0 <= i < |stops| ==> stops[i].WorkerStart? || stops[i].WorkerStop?
    ensures Announces(stops + [FileFail(path)]) == 0
    ensures FailedPaths(stops + [FileFail(path)]) == [path]
  {
    var fail := [FileFail(path)];
    WorkerCallsOnly(stops);
    AnnouncesAppend(stops, fail);
    FailedPathsAppend(stops, fail);
    assert fail[..0] == [];
  }

  /** The calls of a hard timeout: a stop for each worker FindWorkers returned
      for `task`, then the failure hook for its path. */
  lemma {:induction false} ExpireEvents(found: seq<Worker>, ws: map<string, Worker>, task: Task)
    requires forall w :: w in found <==> w in ws.Values && w.task == task
    requires forall k :: k in ws ==> ws[k].key == k
    ensures Announces(Stops(found) + [FileFail(task.innerPath)]) == 0
    ensures FailedPaths(Stops(found) + [FileFail(task.innerPath)]) == [task.innerPath]
    ensures forall e :: e in Stops(found) + [FileFail(task.innerPath)] ==> e.WorkerStop? || e.FileFail?
    ensures forall k :: WorkerStop(k) in Stops(found) + [FileFail(task.innerPath)] <==> k in ws && ws[k].task == task
  {
    StopsMatch(found, ws, task);
    StopsThenFail(Stops(found), task.innerPath);
  }

  /** The calls of a soft timeout: one announce, then a start for each worker
      the release added. */
  lemma {:induction false} ReleaseEvents(added: seq<string>)
    ensures Announces([Announce] + Starts(added)) == 1
    ensures FailedPaths([Announce] + Starts(added)) == []
    ensures forall e :: e in [Announce] + Starts(added) ==> e.Announce? || e.WorkerStart?
  {
    StartsOnlyStarts(added);
    WorkerCallsOnly(Starts(added));
    assert [Announce][..0] == [];
    AnnouncesAppend([Announce], Starts(added));
    FailedPathsAppend([Announce], Starts(added));
  }

  /** Number of announces in a trace. */
  function Announces(s: seq<Event>): nat
  {
    if s == [] then 0
    else Announces(s[..|s| - 1]) + (if s[|s| - 1] == Announce then 1 else 0)
  }

  /** The announces of two traces put together add up. */
  lemma {:induction false} AnnouncesAppend(a: seq<Event>, b: seq<Event>)
    ensures Announces(a + b) == Announces(a) + Announces(b)
  {
    if b == [] {
      assert a + b == a;
    } else {
      var ab := a + b;
      assert ab[..|ab| - 1] == a + b[..|b| - 1];
      assert ab[|ab| - 1] == b[|b| - 1];
      AnnouncesAppend(a, b[..|b| - 1]);
    }
  }

  /** The paths of the failure hooks in a trace, in order. */
  function FailedPaths(s: seq<Event>): seq<string>
  {
    if s == [] then []
    else FailedPaths(s[..|s| - 1]) + (if s[|s| - 1].FileFail? then [s[|s| - 1].path] else [])
  }

  /** The failures of two traces put together are those of the first, then those of the second. */
  lemma {:induction false} FailedPathsAppend(a: seq<Event>, b: seq<Event>)
    ensures FailedPaths(a + b) == FailedPaths(a) + FailedPaths(b)
  {
    if b == [] {
      assert a + b == a;
    } else {
      var ab := a + b;
      assert ab[..|ab| - 1] == a + b[..|b| - 1];
      assert ab[|ab| - 1] == b[|b| - 1];
      FailedPathsAppend(a, b[..|b| - 1]);
    }
  }

  /** The keys of the workers a trace stops. */
  function Stopped(s: seq<Event>): set<string>
  {
    if s == [] then {}
    else Stopped(s[..|s| - 1]) + (if s[|s| - 1].WorkerStop? then {s[|s| - 1].key} else {})
  }

  /** A key is in Stopped exactly when the trace holds a stop for it. */
  lemma {:induction false} StoppedSpec(s: seq<Event>, k: string)
    ensures k in Stopped(s) <==> WorkerStop(k) in s
  {
    if s != [] {
      var init := s[..|s| - 1];
      StoppedSpec(init, k);
      assert s == init + [s[|s| - 1]];
    }
  }

  /** The workers two traces put together stop are those either one stops. */
  lemma {:induction false} StoppedAppend(a: seq<Event>, b: seq<Event>)
    ensures Stopped(a + b) == Stopped(a) + Stopped(b)
  {
    if b == [] {
      assert a + b == a;
    } else {
      var ab := a + b;
      assert ab[..|ab| - 1] == a + b[..|b| - 1];
      assert ab[|ab| - 1] == b[|b| - 1];
      StoppedAppend(a, b[..|b| - 1]);
    }
  }

  /** The keys of the workers that, on tasks `taskOf0` when a sweep started,
      were on one of the tasks `swept` that is expired at `now`. */
  ghost function OnExpired(taskOf0: map<string, Task?>, swept: seq<Task>, now: int): set<string>
  {
    set k | k in taskOf0 && taskOf0[k] != null && taskOf0[k] in swept && Expired(taskOf0[k], now)
  }

  /** One more checked task adds the workers that were on it, if it is expired. */
  lemma {:induction false} OnExpiredStep(taskOf0: map<string, Task?>, swept: seq<Task>, task: Task, now: int)
    ensures OnExpired(taskOf0, swept + [task], now) ==
            OnExpired(taskOf0, swept, now) + set k | k in taskOf0 && taskOf0[k] == task && Expired(task, now)
  {
  }

  /** A trace whose stops are exactly those of the workers that were on
      `task`, when it is expired, stops that set of keys. */
  lemma {:induction false} StoppedOn(step: seq<Event>, taskOf0: map<string, Task?>, task: Task, now: int)
    requires forall k :: WorkerStop(k) in step <==> Expired(task, now) && k in taskOf0 && taskOf0[k] == task
    ensures Stopped(step) == set k | k in taskOf0 && taskOf0[k] == task && Expired(task, now)
  {
    forall k
      ensures k in Stopped(step) <==> k in taskOf0 && taskOf0[k] == task && Expired(task, now)
    {
      StoppedSpec(step, k);
    }
  }

  /** A trace of worker starts and stops holds no announce and no failure. */
  lemma {:induction false} WorkerCallsOnly(s: seq<Event>)
    requires forall i :: 0 <= i < |s| ==> s[i].WorkerStart? || s[i].WorkerStop?
    ensures Announces(s) == 0 && FailedPaths(s) == []
  {
    if s != [] {
      WorkerCallsOnly(s[..|s| - 1]);
    }
  }

  /** The keys of the workers a trace starts, in order. */
  function StartedKeys(s: seq<Event>): seq<string>
  {
    if s == [] then []
    else StartedKeys(s[..|s| - 1]) + (if s[|s| - 1].WorkerStart? then [s[|s| - 1].key] else [])
  }

  /** A key is in StartedKeys exactly when the trace holds a start for it. */
  lemma {:induction false} StartedKeysSpec(s: seq<Event>, k: string)
    ensures k in StartedKeys(s) <==> WorkerStart(k) in s
  {
    if s != [] {
      var init := s[..|s| - 1];
      StartedKeysSpec(init, k);
      assert s == init + [s[|s| - 1]];
    }
  }

  /** The starts of two traces put together are those of the first, then those of the second. */
  lemma {:induction false} StartedKeysAppend(a: seq<Event>, b: seq<Event>)
    ensures StartedKeys(a + b) == StartedKeys(a) + StartedKeys(b)
  {
    if b == [] {
      assert a + b == a;
    } else {
      var ab := a + b;
      assert ab[..|ab| - 1] == a + b[..|b| - 1];
      assert ab[|ab| - 1] == b[|b| - 1];
      StartedKeysAppend(a, b[..|b| - 1]);
    }
  }

  /** Admission's calls start exactly the admitted keys, in order. */
  lemma {:induction false} StartedKeysStarts(keys: seq<string>)
    ensures StartedKeys(Starts(keys)) == keys
  {
    if keys != [] {
      var init := keys[..|keys| - 1];
      StartedKeysStarts(init);
      assert Starts(keys)[..|keys| - 1] == Starts(init);
    }
  }

  /** A trace without worker starts starts no key. */
  lemma {:induction false} NoStarts(s: seq<Event>)
    requires forall i :: 0 <= i < |s| ==> !s[i].WorkerStart?
    ensures StartedKeys(s) == []
  {
    if s != [] {
      NoStarts(s[..|s| - 1]);
    }
  }

  /** The keys of the workers a trace stops, in order. */
  function StoppedKeys(s: seq<Event>): seq<string>
  {
    if s == [] then []
    else StoppedKeys(s[..|s| - 1]) + (if s[|s| - 1].WorkerStop? then [s[|s| - 1].key] else [])
  }

  /** A key is in StoppedKeys exactly when the trace holds a stop for it. */
  lemma {:induction false} StoppedKeysSpec(s: seq<Event>, k: string)
    ensures k in StoppedKeys(s) <==> WorkerStop(k) in s
  {
    if s != [] {
      var init := s[..|s| - 1];
      StoppedKeysSpec(init, k);
      assert s == init + [s[|s| - 1]];
    }
  }

  /** The stops of two traces put together are those of the first, then those of the second. */
  lemma {:induction false} StoppedKeysAppend(a: seq<Event>, b: seq<Event>)
    ensures StoppedKeys(a + b) == StoppedKeys(a) + StoppedKeys(b)
  {
    if b == [] {
      assert a + b == a;
    } else {
      var ab := a + b;
      assert ab[..|ab| - 1] == a + b[..|b| - 1];
      assert ab[|ab| - 1] == b[|b| - 1];
      StoppedKeysAppend(a, b[..|b| - 1]);
    }
  }

  /** Stopping the workers `ws` stops their keys, in order. */
  lemma {:induction false} StoppedKeysStops(ws: seq<Worker>)
    ensures |StoppedKeys(Stops(ws))| == |ws|
    ensures forall i :: 0 <= i < |ws| ==> StoppedKeys(Stops(ws))[i] == ws[i].key
  {
    if ws != [] {
      var init := ws[..|ws| - 1];
      StoppedKeysStops(init);
      assert Stops(ws)[..|ws| - 1] == Stops(init);
    }
  }

  /** A trace without worker stops stops no key. */
  lemma {:induction false} NoStops(s: seq<Event>)
    requires forall i :: 0 <= i < |s| ==> !s[i].WorkerStop?
    ensures StoppedKeys(s) == []
  {
    if s != [] {
      NoStops(s[..|s| - 1]);
    }
  }

  /** Different workers of a pool that files each worker under its own key
      have different keys. */
  lemma {:induction false} DistinctKeys(found: seq<Worker>, ws: map<string, Worker>)
    requires forall w :: w in found ==> w in ws.Values
    requires forall k :: k in ws ==> ws[k].key == k
    requires forall i, j :: 0 <= i < j < |found| ==> found[i] != found[j]
    ensures forall i, j :: 0 <= i < j < |found| ==> found[i].key != found[j].key
  {
    forall i, j | 0 <= i < j < |found|
      ensures found[i].key != found[j].key
    {
      assert found[i] in ws.Values && found[j] in ws.Values;
      var a :| a in ws && ws[a] == found[i];
      var b :| b in ws && ws[b] == found[j];
    }
  }

  /** The site the scheduler downloads for, as the scheduler sees it: the calls
      made on it and on its workers, in order. Its peer table is passed to the
      operations that read it. */
  class Site {
    ghost var calls: seq<Event>

    constructor ()
      ensures calls == []
    {
      calls := [];
    }
  }

  /** A worker bound to one peer. Its fetching loop is not part of this model;
      the scheduler reads its task and clears its running flag. */
  class Worker {
    const key: string
    const peer: Peer
    /** The task the worker is currently fetching, if any. */
    var task: Task?
    var running: bool

    constructor (key: string, peer: Peer)
      ensures this.key == key && this.peer == peer && task == null
    {
      this.key := key;
      this.peer := peer;
      this.task := null;
      this.running := false;
    }
  }

  /** `after` keeps every worker of `before` and adds workers only for peers of the site. */
  ghost predicate Grown(before: map<string, Worker>, after: map<string, Worker>, sitePeers: map<string, Peer>)
  {
    && (forall k :: k in before ==> k in after && after[k] == before[k])
    && (forall k :: k in after ==> k in before || k in sitePeers)
  }

  /** No more workers can be admitted: the pool is full, or every peer of the site has one. */
  ghost predicate Saturated(ws: map<string, Worker>, sitePeers: map<string, Peer>)
  {
    |ws| == MAX_WORKERS || sitePeers.Keys <= ws.Keys
  }

  /** Admission so far, from pool `ws0` and trace `calls0` to pool `ws` and
      trace `calls`, with the peers in `pending` still to consider: the pool
      only grew by workers for site peers, every peer already considered has a
      worker unless the pool is full, and `added` lists the new workers' keys
      once each, in the order they were started. */
  ghost predicate Admitted(sitePeers: map<string, Peer>, pending: set<string>, ws0: map<string, Worker>,
                           ws: map<string, Worker>, calls0: seq<Event>, calls: seq<Event>, added: seq<string>)
  {
    && pending <= sitePeers.Keys
    && Grown(ws0, ws, sitePeers)
    && (forall k :: k in sitePeers && k !in pending ==> k in ws || |ws| == MAX_WORKERS)
    && (forall k :: k in added <==> k in ws && k !in ws0)
    && (forall i, j :: 0 <= i < j < |added| ==> added[i] != added[j])
    && calls == calls0 + Starts(added)
  }

  /** One admission step of StartWorkers, for a pending peer with no worker
      while the pool has room: filing worker `w` under `key` and starting it
      covers the peer, and `key` joins the started keys once. */
  lemma {:induction false} AdmitStep(sitePeers: map<string, Peer>, pending: set<string>, ws0: map<string, Worker>,
                  ws: map<string, Worker>, calls0: seq<Event>, calls: seq<Event>, added: seq<string>,
                  key: string, w: Worker)
    requires Admitted(sitePeers, pending, ws0, ws, calls0, calls, added)
    requires key in pending && key !in ws && |ws| < MAX_WORKERS
    ensures Admitted(sitePeers, pending - {key}, ws0, ws[key := w], calls0, calls + [WorkerStart(key)], added + [key])
  {
    DistinctSnoc(added, key);
    StartsSnoc(added, key);
    assert calls0 + Starts(added) + [WorkerStart(key)] == calls0 + (Starts(added) + [WorkerStart(key)]);
  }

  /** Appending a key not yet present keeps a sequence of keys duplicate-free. */
  lemma {:induction false} DistinctSnoc(added: seq<string>, key: string)
    requires forall i, j :: 0 <= i < j < |added| ==> added[i] != added[j]
    requires key !in added
    ensures forall i, j :: 0 <= i < j < |added + [key]| ==> (added + [key])[i] != (added + [key])[j]
  {
  }

  /** The pool during a sweep at time `now` over the tasks `snapshot`, whose
      records were `views0`, after `n` of them were checked: it grew from `ws0`
      only by workers for site peers, it is saturated once a checked task lost
      its peer lock, and it is untouched while none did. */
  ghost predicate SweepPool(now: int, sitePeers: map<string, Peer>, snapshot: seq<Task>, n: nat,
                            views0: seq<TaskView>, ws0: map<string, Worker>, ws: map<string, Worker>)
  {
    && |views0| == |snapshot| && n <= |snapshot|
    && Grown(ws0, ws, sitePeers)
    && BoundToSite(ws0, ws, sitePeers)
    && (Released(views0, snapshot, n, now) ==> Saturated(ws, sitePeers))
    && (!Released(views0, snapshot, n, now) ==> ws == ws0)
  }

  /** Checking task `n` of a sweep, for the pool: a release (a stale, locked
      task) leaves the pool saturated, anything else leaves it as it was. */
  lemma {:induction false} PoolStep(now: int, sitePeers: map<string, Peer>, snapshot: seq<Task>, n: nat, views0: seq<TaskView>,
                 ws0: map<string, Worker>, before: map<string, Worker>, after: map<string, Worker>)
    requires SweepPool(now, sitePeers, snapshot, n, views0, ws0, before) && n < |snapshot|
    requires Grown(before, after, sitePeers)
    requires forall k :: k in after && k !in before ==> after[k].peer == sitePeers[k]
    requires Stale(snapshot[n], now) && Locked(views0[n].peers) ==> Saturated(after, sitePeers)
    requires !(Stale(snapshot[n], now) && Locked(views0[n].peers)) ==> after == before
    ensures SweepPool(now, sitePeers, snapshot, n + 1, views0, ws0, after)
  {
    ReleasedStep(views0, snapshot, n, now);
    BoundStep(ws0, before, after, sitePeers);
  }

  /** The trace during a sweep at time `now`, after the tasks `swept` were
      checked: it went from `calls0` to `calls` by `events`, which hold only
      sweep calls, one announce per stale task, one failure per expired task
      in order, and a stop for exactly the workers that were on an expired
      task already checked (`taskOf0` gives each worker's task when the sweep
      started). */
  ghost predicate SweepTrace(now: int, swept: seq<Task>, taskOf0: map<string, Task?>, calls0: seq<Event>,
                             calls: seq<Event>, events: seq<Event>)
  {
    && calls == calls0 + events
    && Announces(events) == StaleCount(swept, now)
    && FailedPaths(events) == ExpiredPaths(swept, now)
    && (forall e :: e in events ==> SweepCall(e))
    && Stopped(events) == OnExpired(taskOf0, swept, now)
    && (forall i, j :: 0 <= i < j < |StoppedKeys(events)| ==> StoppedKeys(events)[i] != StoppedKeys(events)[j])
  }

  /** The calls of checking one task at time `now`: stops then its failure
      (expired), an announce then starts (stale) or nothing (fresh). In each
      case they hold an announce exactly when the task is stale, its failure
      exactly when it is expired, and only sweep calls. */
  lemma {:induction false} StepSummary(now: int, task: Task, found: seq<Worker>, added: seq<string>, step: seq<Event>)
    requires Expired(task, now) ==> step == Stops(found) + [FileFail(task.innerPath)]
    requires Stale(task, now) ==> step == [Announce] + Starts(added)
    requires !Expired(task, now) && !Stale(task, now) ==> step == []
    ensures Announces(step) == if Stale(task, now) then 1 else 0
    ensures FailedPaths(step) == if Expired(task, now) then [task.innerPath] else []
    ensures forall e :: e in step ==> SweepCall(e)
  {
    if Expired(task, now) {
      StopsThenFail(Stops(found), task.innerPath);
    } else if Stale(task, now) {
      ReleaseEvents(added);
    }
  }

  /** Checking one more task `task`, whose own calls `step` hold one announce
      exactly when it is stale, its failure exactly when it is expired, only
      sweep calls, and a stop for exactly the workers that were on it when it
      is expired, keeps the trace of the sweep. */
  lemma {:induction false} SweepTraceStep(now: int, swept: seq<Task>, task: Task, taskOf0: map<string, Task?>,
                                          calls0: seq<Event>, events: seq<Event>, step: seq<Event>)
    requires SweepTrace(now, swept, taskOf0, calls0, calls0 + events, events)
    requires Announces(step) == if Stale(task, now) then 1 else 0
    requires FailedPaths(step) == if Expired(task, now) then [task.innerPath] else []
    requires forall e :: e in step ==> SweepCall(e)
    requires forall k :: WorkerStop(k) in step <==> Expired(task, now) && k in taskOf0 && taskOf0[k] == task
    requires forall i, j :: 0 <= i < j < |StoppedKeys(events + step)| ==>
               StoppedKeys(events + step)[i] != StoppedKeys(events + step)[j]
    ensures SweepTrace(now, swept + [task], taskOf0, calls0, calls0 + events + step, events + step)
  {
    assert calls0 + events + step == calls0 + (events + step);
    assert Announces(events + step) == StaleCount(swept + [task], now) by {
      AnnouncesAppend(events, step);
      StaleCountStep(swept, task, now);
    }
    assert FailedPaths(events + step) == ExpiredPaths(swept + [task], now) by {
      FailedPathsAppend(events, step);
      ExpiredPathsStep(swept, task, now);
    }
    assert Stopped(events + step) == OnExpired(taskOf0, swept + [task], now) by {
      StoppedAppend(events, step);
      StoppedOn(step, taskOf0, task, now);
      OnExpiredStep(taskOf0, swept, task, now);
    }
  }

  /** The starts of the trace `events` during a sweep that started from pool
      `ws0`: one start for each worker the pool `ws` has gained, and no other. */
  ghost predicate SweepStarts(ws0: map<string, Worker>, ws: map<string, Worker>, events: seq<Event>)
  {
    && (forall k :: k in StartedKeys(events) <==> k in ws && k !in ws0)
    && (forall i, j :: 0 <= i < j < |StartedKeys(events)| ==> StartedKeys(events)[i] != StartedKeys(events)[j])
  }

  /** The keys the calls of checking one task start: the workers the release
      admitted when it is stale, none otherwise. */
  lemma {:induction false} StepStarts(now: int, task: Task, found: seq<Worker>, added: seq<string>, step: seq<Event>)
    requires Expired(task, now) ==> step == Stops(found) + [FileFail(task.innerPath)]
    requires Stale(task, now) ==> step == [Announce] + Starts(added)
    requires !Expired(task, now) && !Stale(task, now) ==> step == []
    ensures StartedKeys(step) == if Stale(task, now) then added else []
  {
    if Expired(task, now) {
      NoStarts(step);
    } else if Stale(task, now) {
      StartedKeysAppend([Announce], Starts(added));
      StartedKeysStarts(added);
      assert [Announce][..0] == [];
    }
  }

  /** Checking one more task, whose release (if stale) admitted the keys
      `added` once each and nothing else, keeps the sweep's starts matched to
      the workers the pool gained. */
  lemma {:induction false} StartsAdvance(now: int, sitePeers: map<string, Peer>, task: Task, ws0: map<string, Worker>,
                                         before: map<string, Worker>, after: map<string, Worker>,
                                         events: seq<Event>, found: seq<Worker>, added: seq<string>, step: seq<Event>)
    requires SweepStarts(ws0, before, events)
    requires Grown(ws0, before, sitePeers) && Grown(before, after, sitePeers)
    requires Expired(task, now) ==> step == Stops(found) + [FileFail(task.innerPath)]
    requires Stale(task, now) ==> step == [Announce] + Starts(added)
    requires !Expired(task, now) && !Stale(task, now) ==> step == []
    requires Stale(task, now) ==> forall k :: k in added <==> k in after && k !in before
    requires Stale(task, now) ==> forall i, j :: 0 <= i < j < |added| ==> added[i] != added[j]
    requires !Stale(task, now) ==> after == before
    ensures SweepStarts(ws0, after, events + step)
  {
    StepStarts(now, task, found, added, step);
    StartedKeysAppend(events, step);
    var earlier, later := StartedKeys(events), StartedKeys(step);
    assert StartedKeys(events + step) == earlier + later;
    forall i, j | 0 <= i < j < |earlier + later|
      ensures (earlier + later)[i] != (earlier + later)[j]
    {
      if i < |earlier| && |earlier| <= j {
        assert earlier[i] in earlier && later[j - |earlier|] in later;
      }
    }
  }

  /** Checking one more task `task`, whose stops (when it is expired) are of
      the workers on it, once per key, keeps a sweep's stops once per key:
      the workers stopped earlier were on tasks already checked. */
  lemma {:induction false} StopsAdvance(now: int, snapshot: seq<Task>, swept: seq<Task>, task: Task, rest: seq<Task>,
                                        live: seq<Task>, taskOf0: map<string, Task?>, calls0: seq<Event>,
                                        events: seq<Event>, found: seq<Worker>, added: seq<string>, step: seq<Event>)
    requires SweepOrder(now, snapshot, swept, [task] + rest, live)
    requires SweepTrace(now, swept, taskOf0, calls0, calls0 + events, events)
    requires Expired(task, now) ==> step == Stops(found) + [FileFail(task.innerPath)]
    requires Expired(task, now) ==> forall i, j :: 0 <= i < j < |found| ==> found[i].key != found[j].key
    requires Stale(task, now) ==> step == [Announce] + Starts(added)
    requires !Expired(task, now) && !Stale(task, now) ==> step == []
    requires forall k :: WorkerStop(k) in step <==> Expired(task, now) && k in taskOf0 && taskOf0[k] == task
    ensures forall i, j :: 0 <= i < j < |StoppedKeys(events + step)| ==>
              StoppedKeys(events + step)[i] != StoppedKeys(events + step)[j]
  {
    OrderAt(now, snapshot, swept, task, rest, live);
    assert task !in swept by {
      assert snapshot == swept + ([task] + rest);
      forall j | 0 <= j < |swept|
        ensures swept[j] != task
      {
        assert swept[j] == snapshot[j];
      }
    }
    var earlier, later := StoppedKeys(events), StoppedKeys(step);
    if Expired(task, now) {
      var fail := [FileFail(task.innerPath)];
      StoppedKeysAppend(Stops(found), fail);
      StoppedKeysStops(found);
      NoStops(fail);
      assert later == StoppedKeys(Stops(found)) + [];
    } else {
      NoStops(step);
    }
    StoppedKeysAppend(events, step);
    forall i, j | 0 <= i < j < |earlier + later|
      ensures (earlier + later)[i] != (earlier + later)[j]
    {
      if i < |earlier| && |earlier| <= j {
        // the earlier key's worker was on a checked task, the later one's on `task`
        var k, l := earlier[i], later[j - |earlier|];
        StoppedKeysSpec(events, k);
        StoppedSpec(events, k);
        StoppedKeysSpec(step, l);
      }
    }
  }

  /** Every worker the pool `ws` has gained since `ws0` is bound to its peer of the site. */
  ghost predicate BoundToSite(ws0: map<string, Worker>, ws: map<string, Worker>, sitePeers: map<string, Peer>)
  {
    forall k :: k in ws && k !in ws0 ==> k in sitePeers && ws[k].peer == sitePeers[k]
  }

  /** Growing the pool by workers bound to their site peers keeps it bound. */
  lemma {:induction false} BoundStep(ws0: map<string, Worker>, before: map<string, Worker>, after: map<string, Worker>,
                                     sitePeers: map<string, Peer>)
    requires BoundToSite(ws0, before, sitePeers)
    requires Grown(ws0, before, sitePeers) && Grown(before, after, sitePeers)
    requires forall k :: k in after && k !in before ==> after[k].peer == sitePeers[k]
    ensures BoundToSite(ws0, after, sitePeers)
  {
    forall k | k in after && k !in ws0
      ensures k in sitePeers && after[k].peer == sitePeers[k]
    {
      if k in before {
        assert after[k] == before[k];
      }
    }
  }

  /** The pool `ws` during a sweep: its workers from when the sweep started
      (`workers0`, on tasks `taskOf0`) still are on those tasks, and every
      worker added since is on no task. */
  ghost predicate PoolTasks(ws: map<string, Worker>, workers0: map<string, Worker>, taskOf0: map<string, Task?>)
    reads ws.Values, workers0.Values
  {
    && taskOf0.Keys == workers0.Keys
    && (forall k :: k in workers0 ==> workers0[k].task == taskOf0[k])
    && (forall k :: k in ws && k !in workers0 ==> ws[k].task == null)
  }

  /** While the pool's old workers are still in it, the workers on `task` are
      those that were on it when the sweep started. */
  lemma {:induction false} OnTask(ws: map<string, Worker>, workers0: map<string, Worker>,
                                  taskOf0: map<string, Task?>, task: Task)
    requires PoolTasks(ws, workers0, taskOf0)
    requires forall k :: k in workers0 ==> k in ws && ws[k] == workers0[k]
    ensures forall k :: k in ws && ws[k].task == task <==> k in taskOf0 && taskOf0[k] == task
  {
  }

  /** Checking the next task `task` of a sweep moves every part of the sweep
      on by one: the list (`tasksB` to `tasksA`), the records (`viewsB` to
      `viewsA`), the pool (`poolB` to `poolA`) and the trace (by `step`), given
      what checking one task does to each (see CheckTask). */
  lemma {:induction false} SweepAdvance(now: int, sitePeers: map<string, Peer>, snapshot: seq<Task>, swept: seq<Task>,
                                        task: Task, rest: seq<Task>, views0: seq<TaskView>,
                                        workers0: map<string, Worker>, taskOf0: map<string, Task?>,
                                        calls0: seq<Event>, events: seq<Event>,
                                        tasksB: seq<Task>, tasksA: seq<Task>, viewsB: seq<TaskView>, viewsA: seq<TaskView>,
                                        poolB: map<string, Worker>, poolA: map<string, Worker>,
                                        found: seq<Worker>, added: seq<string>, step: seq<Event>)
    requires SweepOrder(now, snapshot, swept, [task] + rest, tasksB)
    requires SweepRecords(now, snapshot, |swept|, views0, viewsB)
    requires SweepPool(now, sitePeers, snapshot, |swept|, views0, workers0, poolB)
    requires SweepTrace(now, swept, taskOf0, calls0, calls0 + events, events)
    requires tasksA == if Expired(task, now) then RemoveFirst(tasksB, task) else tasksB
    requires |swept| < |viewsA| == |snapshot|
    requires forall j :: 0 <= j < |snapshot| && j != |swept| ==> viewsA[j] == viewsB[j]
    requires viewsA[|swept|] == SweptView(viewsB[|swept|], task, now)
    requires Grown(poolB, poolA, sitePeers)
    requires forall k :: k in poolA && k !in poolB ==> poolA[k].peer == sitePeers[k]
    requires Stale(task, now) && Locked(viewsB[|swept|].peers) ==> Saturated(poolA, sitePeers)
    requires !(Stale(task, now) && Locked(viewsB[|swept|].peers)) ==> poolA == poolB
    requires Expired(task, now) ==> step == Stops(found) + [FileFail(task.innerPath)]
    requires Expired(task, now) ==> forall i, j :: 0 <= i < j < |found| ==> found[i].key != found[j].key
    requires Stale(task, now) ==> step == [Announce] + Starts(added)
    requires !Expired(task, now) && !Stale(task, now) ==> step == []
    requires forall k :: WorkerStop(k) in step <==> Expired(task, now) && k in taskOf0 && taskOf0[k] == task
    ensures SweepOrder(now, snapshot, swept + [task], rest, tasksA)
    ensures SweepRecords(now, snapshot, |swept| + 1, views0, viewsA)
    ensures SweepPool(now, sitePeers, snapshot, |swept| + 1, views0, workers0, poolA)
    ensures SweepTrace(now, swept + [task], taskOf0, calls0, calls0 + events + step, events + step)
  {
    var n := |swept|;
    OrderAt(now, snapshot, swept, task, rest, tasksB);
    ViewsAdvance(now, snapshot, n, views0, viewsB, viewsA);
    OrderStep(now, snapshot, swept, task, rest, tasksB, tasksA);
    PoolStep(now, sitePeers, snapshot, n, views0, workers0, poolB, poolA);
    StepSummary(now, task, found, added, step);
    StopsAdvance(now, snapshot, swept, task, rest, tasksB, taskOf0, calls0, events, found, added, step);
    SweepTraceStep(now, swept, task, taskOf0, calls0, events, step);
  }

  /** A task eligible for `peer` whose inner path is the manifest. */
  ghost predicate IsManifestFor(ts: seq<Task>, peer: Peer, k: int)
    reads ts
  {
    0 <= k < |ts| && Eligible(ts[k], peer) && ts[k].innerPath == MANIFEST
  }

  /** Index `k` holds the first eligible manifest task. */
  ghost predicate FirstManifest(ts: seq<Task>, peer: Peer, k: int)
    reads ts
  {
    IsManifestFor(ts, peer, k) && forall i :: 0 <= i < k ==> !IsManifestFor(ts, peer, i)
  }

  /** Index `k` holds an eligible task with the fewest workers, and no earlier
      eligible task has as few. */
  ghost predicate LeastLoaded(ts: seq<Task>, peer: Peer, k: int)
    reads ts
  {
    && 0 <= k < |ts| && Eligible(ts[k], peer)
    && (forall i :: 0 <= i < |ts| && Eligible(ts[i], peer) ==> ts[k].workersNum <= ts[i].workersNum)
    && (forall i :: 0 <= i < k && Eligible(ts[i], peer) ==> ts[k].workersNum < ts[i].workersNum)
  }

  class WorkerManager {
    var tasks: seq<Task>
    var workers: map<string, Worker>
    const site: Site

    ghost function Signals(): set<AsyncResult>
      reads this
    {
      set t | t in tasks :: t.evt
    }

    /** The scheduler's invariant: one task per inner path, every listed task
        unresolved with its own signal, each worker filed under its own key,
        and the pool within its cap. */
    ghost predicate Valid()
      reads this, tasks, Signals()
    {
      && UniquePaths(tasks)
      && DistinctSignals(tasks)
      && (forall t :: t in tasks ==> !t.done && t.evt.value == None)
      && (forall k :: k in workers ==> workers[k].key == k)
      && |workers| <= MAX_WORKERS
    }

    constructor (site: Site)
      ensures Valid()
      ensures this.site == site && tasks == [] && workers == map[]
    {
      this.site := site;
      tasks := [];
      workers := map[];
    }

    /** Admission: one new worker for each peer of the site that has none, while
        the pool is under its cap; nothing when the pool is full or no task is pending. */
    method StartWorkers(sitePeers: map<string, Peer>) returns (ghost added: seq<string>)
      requires Valid()
      modifies this, site
      ensures Valid()
      ensures tasks == old(tasks)
      ensures |old(workers)| >= MAX_WORKERS || old(tasks) == [] ==> workers == old(workers)
      ensures Grown(old(workers), workers, sitePeers)
      ensures old(tasks) != [] ==> Saturated(workers, sitePeers)
      ensures forall k :: k in workers && k !in old(workers) ==>
                fresh(workers[k]) && workers[k].peer == sitePeers[k] && workers[k].task == null
      ensures forall k :: k in added <==> k in workers && k !in old(workers)
      ensures forall i, j :: 0 <= i < j < |added| ==> added[i] != added[j]
      ensures site.calls == old(site.calls) + Starts(added)
    {
      added := [];
      if |workers| >= MAX_WORKERS {
        return;
      }
      if tasks == [] {
        return;
      }
      var pending := sitePeers.Keys;
      while pending != {}
        invariant Valid() && tasks == old(tasks)
        invariant Admitted(sitePeers, pending, old(workers), workers, old(site.calls), site.calls, added)
        invariant forall k :: k in workers && k !in old(workers) ==>
                    fresh(workers[k]) && workers[k].peer == sitePeers[k] && workers[k].task == null
        decreases pending
      {
        var key :| key in pending;
        if key !in workers && |workers| < MAX_WORKERS {
          ghost var ws, calls := workers, site.calls;
          var worker := AddWorker(key, sitePeers[key]);
          AdmitStep(sitePeers, pending, old(workers), ws, old(site.calls), calls, added, key, worker);
          added := added + [key];
        }
        pending := pending - {key};
      }
    }

    /** Create a worker for the peer filed under `key`, add it to the pool and start it. */
    method AddWorker(key: string, peer: Peer) returns (worker: Worker)
      requires Valid() && key !in workers && |workers| < MAX_WORKERS
      modifies this, site
      ensures Valid()
      ensures fresh(worker) && workers == old(workers)[key := worker]
      ensures worker.key == key && worker.peer == peer && worker.task == null
      ensures tasks == old(tasks) && site.calls == old(site.calls) + [WorkerStart(key)]
    {
      worker := new Worker(key, peer);
      workers := workers[key := worker];
      site.calls := site.calls + [WorkerStart(key)];
    }

    /** New peers were found for the site: run admission. */
    method OnPeers(sitePeers: map<string, Peer>) returns (ghost added: seq<string>)
      requires Valid()
      modifies this, site
      ensures Valid()
      ensures tasks == old(tasks)
      ensures |old(workers)| >= MAX_WORKERS || old(tasks) == [] ==> workers == old(workers)
      ensures Grown(old(workers), workers, sitePeers)
      ensures old(tasks) != [] ==> Saturated(workers, sitePeers)
      ensures forall k :: k in workers && k !in old(workers) ==>
                fresh(workers[k]) && workers[k].peer == sitePeers[k] && workers[k].task == null
      ensures forall k :: k in added <==> k in workers && k !in old(workers)
      ensures forall i, j :: 0 <= i < j < |added| ==> added[i] != added[j]
      ensures site.calls == old(site.calls) + Starts(added)
    {
      added := StartWorkers(sitePeers);
    }

    /** The workers whose current task is `task`. */
    method FindWorkers(task: Task) returns (found: seq<Worker>)
      requires forall k :: k in workers ==> workers[k].key == k
      ensures forall w :: w in found <==> w in workers.Values && w.task == task
      ensures forall i, j :: 0 <= i < j < |found| ==> found[i] != found[j]
      ensures |found| == |set k | k in workers && workers[k].task == task|
    {
      found := [];
      var pending := workers.Keys;
      ghost var matched: set<string> := {};
      while pending != {}
        invariant pending <= workers.Keys
        invariant matched == set k | k in workers && k !in pending && workers[k].task == task
        invariant |found| == |matched|
        invariant forall w :: w in found <==> exists k :: k in matched && workers[k] == w
        invariant forall w :: w in found ==> w.key in matched
        invariant forall i, j :: 0 <= i < j < |found| ==> found[i] != found[j]
        decreases pending
      {
        var key :| key in pending;
        if workers[key].task == task {
          found := found + [workers[key]];
          matched := matched + {key};
        }
        pending := pending - {key};
      }
      assert matched == set k | k in workers && workers[k].task == task;
    }

    /** Tear down a worker: clear its running flag and drop exactly its key from the pool. */
    method RemoveWorker(worker: Worker)
      requires Valid() && worker.key in workers
      modifies this, worker
      ensures Valid()
      ensures !worker.running && worker.task == old(worker.task)
      ensures workers == old(workers) - {worker.key}
      ensures tasks == old(tasks) && site.calls == old(site.calls)
    {
      worker.running := false;
      workers := workers - {worker.key};
    }

    /** The first task for `innerPath`, or null. */
    method FindTask(innerPath: string) returns (task: Task?)
      ensures task == Lookup(tasks, innerPath)
    {
      var i := 0;
      while i < |tasks|
        invariant 0 <= i <= |tasks|
        invariant forall j :: 0 <= j < i ==> tasks[j].innerPath != innerPath
      {
        if tasks[i].innerPath == innerPath {
          LookupAt(tasks, innerPath, i);
          return tasks[i];
        }
        i := i + 1;
      }
      return null;
    }

    /** The task a worker for `peer` should take next: never one whose peer lock
        excludes `peer`; the first eligible manifest task if there is one;
        otherwise the first eligible task with the fewest workers; null when
        nothing is eligible. */
    method GetTask(peer: Peer) returns (best: Task?)
      ensures (exists k :: IsManifestFor(tasks, peer, k)) ==>
                exists k :: FirstManifest(tasks, peer, k) && best == tasks[k]
      ensures (forall k :: !IsManifestFor(tasks, peer, k)) ==>
                && (best == null <==> forall i :: 0 <= i < |tasks| ==> !Eligible(tasks[i], peer))
                && (best != null ==> exists k :: LeastLoaded(tasks, peer, k) && best == tasks[k])
    {
      best := null;
      ghost var bestAt := -1;
      var i := 0;
      while i < |tasks|
        invariant 0 <= i <= |tasks|
        invariant forall j :: 0 <= j < i ==> !IsManifestFor(tasks, peer, j)
        invariant best == null <==> forall j :: 0 <= j < i ==> !Eligible(tasks[j], peer)
        invariant best != null ==> 0 <= bestAt < i && best == tasks[bestAt] && Eligible(best, peer)
        invariant best != null ==> forall j :: 0 <= j < i && Eligible(tasks[j], peer) ==> best.workersNum <= tasks[j].workersNum
        invariant best != null ==> forall j :: 0 <= j < bestAt && Eligible(tasks[j], peer) ==> best.workersNum < tasks[j].workersNum
      {
        var task := tasks[i];
        if task.peers.Some? && task.peers.value != [] && peer !in task.peers.value {
          i := i + 1;
          continue;
        }
        if task.innerPath == MANIFEST {
          assert FirstManifest(tasks, peer, i);
          return task;
        }
        if best == null || task.workersNum < best.workersNum {
          best := task;
          bestAt := i;
        }
        i := i + 1;
      }
    }

    /** Register a download of `innerPath`, restricted to `peer` when one is given,
        and return the signal to wait on. An existing task for the path is reused:
        it gains `peer` only when it is already peer-locked. */
    method AddTask(innerPath: string, peer: Option<Peer>, now: int, sitePeers: map<string, Peer>)
      returns (evt: AsyncResult, ghost prior: Task?, ghost task: Task, ghost added: seq<string>)
      requires Valid()
      modifies this, site, tasks
      ensures prior == old(Lookup(tasks, innerPath))
      ensures Valid()
      ensures Lookup(tasks, innerPath) == task && task.evt == evt
      ensures evt.value == None
      ensures site.calls == old(site.calls) + [FileStart(innerPath)] + Starts(added)
      ensures forall u :: u in old(tasks) ==> u.workersNum == old(u.workersNum) && !u.done
      // an existing task: same list, signal reused, lock widened only if already locked
      ensures prior != null ==>
                && task == prior
                && tasks == old(tasks)
                && task.peers == (if peer.Some? && Locked(old(task.peers)) then Some(old(task.peers).value + [peer.value])
                                  else old(task.peers))
                && (forall u :: u in tasks && u != task ==> u.peers == old(u.peers))
      // a new task: appended last, everything before it unchanged
      ensures prior == null ==>
                && tasks == old(tasks) + [task]
                && fresh(task) && fresh(evt)
                && task.innerPath == innerPath
                && task.timeStart == now
                && task.workersNum == 0
                && !task.done
                && task.peers == (if peer.Some? then Some([peer.value]) else None)
                && (forall u :: u in old(tasks) ==> u.peers == old(u.peers))
      // admission runs for a new task and for a lock that was widened, and only then
      ensures prior != null && !(peer.Some? && Locked(old(prior.peers))) ==> workers == old(workers)
      ensures Grown(old(workers), workers, sitePeers)
      ensures forall k :: k in workers && k !in old(workers) ==>
                fresh(workers[k]) && workers[k].peer == sitePeers[k] && workers[k].task == null
      ensures prior == null || (peer.Some? && Locked(old(prior.peers))) ==> Saturated(workers, sitePeers)
      ensures forall k :: k in added <==> k in workers && k !in old(workers)
      ensures forall i, j :: 0 <= i < j < |added| ==> added[i] != added[j]
    {
      site.calls := site.calls + [FileStart(innerPath)];
      var found := FindTask(innerPath);
      assert site.calls == old(site.calls) + [FileStart(innerPath)];
      prior := found;
      if found != null {
        task := found;
        added := ExtendTask(found, peer, sitePeers);
        evt := found.evt;
      } else {
        var created;
        created, added := NewTask(innerPath, peer, now, sitePeers);
        task := created;
        evt := created.evt;
      }
    }

    /** The existing-task branch of AddTask: a peer-locked task also accepts `peer`,
        and admission runs for it. */
    method ExtendTask(task: Task, peer: Option<Peer>, sitePeers: map<string, Peer>) returns (ghost added: seq<string>)
      requires Valid() && task in tasks
      modifies this, site, task
      ensures Valid() && tasks == old(tasks)
      ensures task.peers == (if peer.Some? && Locked(old(task.peers)) then Some(old(task.peers).value + [peer.value])
                             else old(task.peers))
      ensures task.workersNum == old(task.workersNum) && task.done == old(task.done)
      ensures forall u :: u in tasks ==> u.workersNum == old(u.workersNum) && !u.done
      ensures !(peer.Some? && Locked(old(task.peers))) ==> workers == old(workers)
      ensures Grown(old(workers), workers, sitePeers)
      ensures forall k :: k in workers && k !in old(workers) ==>
                fresh(workers[k]) && workers[k].peer == sitePeers[k] && workers[k].task == null
      ensures peer.Some? && Locked(old(task.peers)) ==> Saturated(workers, sitePeers)
      ensures forall k :: k in added <==> k in workers && k !in old(workers)
      ensures forall i, j :: 0 <= i < j < |added| ==> added[i] != added[j]
      ensures site.calls == old(site.calls) + Starts(added)
    {
      added := [];
      if peer.Some? && Locked(task.peers) {
        task.peers := Some(task.peers.value + [peer.value]);
        added := StartWorkers(sitePeers);
      }
    }

    /** The new-task branch of AddTask: append a fresh task, locked to `peer` when
        one is given, and run admission. */
    method NewTask(innerPath: string, peer: Option<Peer>, now: int, sitePeers: map<string, Peer>)
      returns (task: Task, ghost added: seq<string>)
      requires Valid() && Lookup(tasks, innerPath) == null
      modifies this, site
      ensures Valid()
      ensures tasks == old(tasks) + [task]
      ensures forall u :: u in old(tasks) ==> u.workersNum == old(u.workersNum) && !u.done
      ensures fresh(task) && fresh(task.evt) && task.evt.value == None
      ensures task.innerPath == innerPath && task.timeStart == now
      ensures task.workersNum == 0 && !task.done
      ensures task.peers == (if peer.Some? then Some([peer.value]) else None)
      ensures Lookup(tasks, innerPath) == task
      ensures Grown(old(workers), workers, sitePeers)
      ensures forall k :: k in workers && k !in old(workers) ==>
                fresh(workers[k]) && workers[k].peer == sitePeers[k] && workers[k].task == null
      ensures Saturated(workers, sitePeers)
      ensures forall k :: k in added <==> k in workers && k !in old(workers)
      ensures forall i, j :: 0 <= i < j < |added| ==> added[i] != added[j]
      ensures site.calls == old(site.calls) + Starts(added)
    {
      var peers := if peer.Some? then Some([peer.value]) else None;
      task := new Task(innerPath, peers, now);
      AppendUnique(tasks, task);
      tasks := tasks + [task];
      added := StartWorkers(sitePeers);
    }

    /** Resolve `task` as failed: mark it done, remove it from the list, tell the
        site and set its signal to false. */
    method FailTask(task: Task)
      requires Valid() && task in tasks
      modifies this, site, task, task.evt
      ensures Valid()
      ensures tasks == RemoveFirst(old(tasks), task)
      ensures forall u :: u in tasks <==> u in old(tasks) && u != task
      ensures task.done && task.evt.value == Some(false)
      ensures task.peers == old(task.peers) && task.workersNum == old(task.workersNum)
      ensures workers == old(workers)
      ensures site.calls == old(site.calls) + [FileFail(task.innerPath)]
    {
      RemoveKeepsUnique(tasks, task);
      task.done := true;
      tasks := RemoveFirst(tasks, task);
      site.calls := site.calls + [FileFail(task.innerPath)];
      task.evt.value := Some(false);
    }

    /** Resolve `task` as fetched: mark it done, remove it from the list, tell the
        site, set its signal to true, and report completion when no task is left. */
    method DoneTask(task: Task)
      requires Valid() && task in tasks
      modifies this, site, task, task.evt
      ensures Valid()
      ensures tasks == RemoveFirst(old(tasks), task)
      ensures forall u :: u in tasks <==> u in old(tasks) && u != task
      ensures task.done && task.evt.value == Some(true)
      ensures task.peers == old(task.peers) && task.workersNum == old(task.workersNum)
      ensures workers == old(workers)
      ensures site.calls == old(site.calls) + [FileDone(task.innerPath)] + (if tasks == [] then [Complete] else [])
      ensures tasks == [] <==> old(tasks) == [task]
    {
      RemoveKeepsUnique(tasks, task);
      task.done := true;
      tasks := RemoveFirst(tasks, task);
      site.calls := site.calls + [FileDone(task.innerPath)];
      task.evt.value := Some(true);
      if tasks == [] {
        site.calls := site.calls + [Complete];
      }
    }

    /** Stop each of `found`, in order. */
    method StopWorkers(found: seq<Worker>)
      modifies site
      ensures old(Valid()) ==> Valid()
      ensures site.calls == old(site.calls) + Stops(found)
    {
      var j := 0;
      while j < |found|
        invariant 0 <= j <= |found|
        invariant site.calls == old(site.calls) + Stops(found[..j])
      {
        StopsSnoc(found[..j], found[j]);
        assert found[..j + 1] == found[..j] + [found[j]];
        assert old(site.calls) + Stops(found[..j]) + [WorkerStop(found[j].key)]
            == old(site.calls) + (Stops(found[..j]) + [WorkerStop(found[j].key)]);
        site.calls := site.calls + [WorkerStop(found[j].key)];
        j := j + 1;
      }
      assert found[..j] == found;
    }

    /** Stop every worker whose task is `task`; `found` are those workers. */
    method CleanUpWorkers(task: Task) returns (found: seq<Worker>)
      requires Valid()
      modifies site
      ensures Valid()
      ensures forall w :: w in found <==> w in workers.Values && w.task == task
      ensures forall i, j :: 0 <= i < j < |found| ==> found[i] != found[j]
      ensures site.calls == old(site.calls) + Stops(found)
      ensures forall k :: WorkerStop(k) in Stops(found) <==> k in workers && workers[k].task == task
      ensures forall i, j :: 0 <= i < j < |found| ==> found[i].key != found[j].key
    {
      found := FindWorkers(task);
      DistinctKeys(found, workers);
      StopsMatch(found, workers, task);
      StopWorkers(found);
    }

    /** Hard timeout: stop every worker on `task`, then fail it. */
    method ExpireTask(task: Task) returns (found: seq<Worker>, ghost events: seq<Event>)
      requires Valid() && task in tasks
      modifies this, site, task, task.evt
      ensures Valid()
      ensures tasks == RemoveFirst(old(tasks), task)
      ensures ViewOf(task) == old(ViewOf(task)).(done := true, result := Some(false))
      ensures workers == old(workers)
      ensures forall w :: w in found <==> w in workers.Values && w.task == task
      ensures forall i, j :: 0 <= i < j < |found| ==> found[i] != found[j]
      ensures forall i, j :: 0 <= i < j < |found| ==> found[i].key != found[j].key
      ensures events == Stops(found) + [FileFail(task.innerPath)]
      ensures site.calls == old(site.calls) + events
      ensures Announces(events) == 0 && FailedPaths(events) == [task.innerPath]
      ensures forall e :: e in events ==> e.WorkerStop? || e.FileFail?
      ensures forall k :: WorkerStop(k) in events <==> k in old(workers) && old(workers[k].task) == task
    {
      found := CleanUpWorkers(task);
      ghost var calls := site.calls;
      FailTask(task);
      events := Stops(found) + [FileFail(task.innerPath)];
      assert calls + [FileFail(task.innerPath)] == old(site.calls) + events;
      ExpireEvents(found, workers, task);
    }

    /** A peer-locked task loses its lock, and admission runs; a task without a
        lock is left alone. */
    method ReleaseLock(task: Task, sitePeers: map<string, Peer>) returns (ghost added: seq<string>)
      requires Valid() && task in tasks
      modifies this, site, task
      ensures Valid() && tasks == old(tasks)
      ensures task.peers == if Locked(old(task.peers)) then Some([]) else old(task.peers)
      ensures task.workersNum == old(task.workersNum)
      ensures Grown(old(workers), workers, sitePeers)
      ensures Locked(old(task.peers)) ==> Saturated(workers, sitePeers)
      ensures !Locked(old(task.peers)) ==> workers == old(workers)
      ensures forall k :: k in workers && k !in old(workers) ==>
                fresh(workers[k]) && workers[k].peer == sitePeers[k] && workers[k].task == null
      ensures forall k :: k in added <==> k in workers && k !in old(workers)
      ensures forall i, j :: 0 <= i < j < |added| ==> added[i] != added[j]
      ensures site.calls == old(site.calls) + Starts(added)
    {
      added := [];
      if Locked(task.peers) {
        task.peers := Some([]);
        added := StartWorkers(sitePeers);
      }
    }

    /** Soft timeout: announce to find more peers; a peer-locked task loses its
        lock and admission runs. */
    method ReleaseTask(task: Task, sitePeers: map<string, Peer>) returns (ghost added: seq<string>, ghost events: seq<Event>)
      requires Valid() && task in tasks
      modifies this, site, task
      ensures Valid() && tasks == old(tasks)
      ensures task.peers == if Locked(old(task.peers)) then Some([]) else old(task.peers)
      ensures task.workersNum == old(task.workersNum)
      ensures Grown(old(workers), workers, sitePeers)
      ensures Locked(old(task.peers)) ==> Saturated(workers, sitePeers)
      ensures !Locked(old(task.peers)) ==> workers == old(workers)
      ensures forall k :: k in workers && k !in old(workers) ==>
                fresh(workers[k]) && workers[k].peer == sitePeers[k] && workers[k].task == null
      ensures forall k :: k in added <==> k in workers && k !in old(workers)
      ensures forall i, j :: 0 <= i < j < |added| ==> added[i] != added[j]
      ensures events == [Announce] + Starts(added)
      ensures site.calls == old(site.calls) + events
      ensures Announces(events) == 1
      ensures FailedPaths(events) == []
      ensures forall e :: e in events ==> e.Announce? || e.WorkerStart?
    {
      site.calls := site.calls + [Announce];
      added := ReleaseLock(task, sitePeers);
      ReleaseEvents(added);
      events := [Announce] + Starts(added);
      assert old(site.calls) + [Announce] + Starts(added) == old(site.calls) + events;
    }

    /** The sweep's treatment of one task at time `now`: an expired task is torn
        down, a stale one is released, a fresh one is left alone. `events` is what
        the step adds to the trace. */
    method CheckTask(task: Task, now: int, sitePeers: map<string, Peer>, ghost workers0: map<string, Worker>, ghost taskOf0: map<string, Task?>)
      returns (found: seq<Worker>, ghost added: seq<string>, ghost events: seq<Event>)
      requires Valid() && task in tasks
      requires forall k :: k in workers0 ==> k in workers && workers[k] == workers0[k]
      requires PoolTasks(workers, workers0, taskOf0)
      modifies this, site, task, task.evt
      ensures Valid()
      ensures tasks == if Expired(task, now) then RemoveFirst(old(tasks), task) else old(tasks)
      ensures ViewOf(task) == SweptView(old(ViewOf(task)), task, now)
      ensures Grown(old(workers), workers, sitePeers)
      ensures Stale(task, now) && Locked(old(ViewOf(task)).peers) ==> Saturated(workers, sitePeers)
      ensures !(Stale(task, now) && Locked(old(ViewOf(task)).peers)) ==> workers == old(workers)
      ensures forall k :: k in workers && k !in old(workers) ==>
                fresh(workers[k]) && workers[k].peer == sitePeers[k] && workers[k].task == null
      // the calls: stops then a failure, an announce then starts, or nothing
      ensures Expired(task, now) ==>
                && events == Stops(found) + [FileFail(task.innerPath)]
                && (forall w :: w in found <==> w in old(workers).Values && w.task == task)
                && (forall i, j :: 0 <= i < j < |found| ==> found[i] != found[j])
                && (forall i, j :: 0 <= i < j < |found| ==> found[i].key != found[j].key)
      ensures Stale(task, now) ==>
                && events == [Announce] + Starts(added)
                && (forall k :: k in added <==> k in workers && k !in old(workers))
                && forall i, j :: 0 <= i < j < |added| ==> added[i] != added[j]
      ensures !Expired(task, now) && !Stale(task, now) ==> events == []
      ensures site.calls == old(site.calls) + events
      // in terms of the pool when the sweep started: the stopped workers are
      // those that were on `task` then (no worker is modified, and the new
      // ones are on no task)
      ensures forall k :: WorkerStop(k) in events <==> Expired(task, now) && k in taskOf0 && taskOf0[k] == task
    {
      found := [];
      added := [];
      if Expired(task, now) {
        OnTask(workers, workers0, taskOf0, task);
        found, events := ExpireTask(task);
      } else if Stale(task, now) {
        added, events := ReleaseTask(task, sitePeers);
      } else {
        events := [];
      }
    }

    /** The state of a sweep at time `now` that started from tasks `snapshot`
        with records `views0`, pool `workers0` (on tasks `taskOf0`) and trace
        `calls0`, after `swept` was checked and `rest` is still to go; `events`
        is what it has added to the trace so far. */
    ghost predicate Sweeping(now: int, sitePeers: map<string, Peer>, snapshot: seq<Task>, swept: seq<Task>,
                             rest: seq<Task>, views0: seq<TaskView>, workers0: map<string, Worker>,
                             taskOf0: map<string, Task?>, calls0: seq<Event>, events: seq<Event>)
      reads this, site, snapshot, (set t | t in snapshot :: t.evt), workers.Values, workers0.Values
    {
      && SweepOrder(now, snapshot, swept, rest, tasks)
      && SweepRecords(now, snapshot, |swept|, views0, Views(snapshot))
      && SweepPool(now, sitePeers, snapshot, |swept|, views0, workers0, workers)
      && PoolTasks(workers, workers0, taskOf0)
      && SweepTrace(now, swept, taskOf0, calls0, site.calls, events)
      && SweepStarts(workers0, workers, events)
    }

    /** Checking the task at position `n` of a sweep's snapshot, a task still
        in the list that shares neither object nor signal with any other
        position: what CheckTask does, stated over the records of the whole
        snapshot (every other position keeps its record). */
    method CheckNext(now: int, sitePeers: map<string, Peer>, ghost snapshot: seq<Task>, ghost n: nat, task: Task,
                     ghost workers0: map<string, Worker>, ghost taskOf0: map<string, Task?>)
      returns (found: seq<Worker>, ghost added: seq<string>, ghost step: seq<Event>)
      requires Valid() && task in tasks
      requires n < |snapshot| && snapshot[n] == task
      requires forall j :: 0 <= j < |snapshot| && j != n ==> snapshot[j] != task && snapshot[j].evt != task.evt
      requires forall k :: k in workers0 ==> k in workers && workers[k] == workers0[k]
      requires PoolTasks(workers, workers0, taskOf0)
      modifies this, site, task, task.evt
      ensures Valid() && PoolTasks(workers, workers0, taskOf0)
      ensures tasks == if Expired(task, now) then RemoveFirst(old(tasks), task) else old(tasks)
      ensures forall j :: 0 <= j < |snapshot| && j != n ==> Views(snapshot)[j] == old(Views(snapshot))[j]
      ensures Views(snapshot)[n] == SweptView(old(Views(snapshot))[n], task, now)
      ensures Grown(old(workers), workers, sitePeers)
      ensures Stale(task, now) && Locked(old(Views(snapshot))[n].peers) ==> Saturated(workers, sitePeers)
      ensures !(Stale(task, now) && Locked(old(Views(snapshot))[n].peers)) ==> workers == old(workers)
      ensures Expired(task, now) ==> step == Stops(found) + [FileFail(task.innerPath)]
      ensures Stale(task, now) ==> step == [Announce] + Starts(added)
      ensures Stale(task, now) ==> forall k :: k in added <==> k in workers && k !in old(workers)
      ensures Stale(task, now) ==> forall i, j :: 0 <= i < j < |added| ==> added[i] != added[j]
      ensures Expired(task, now) ==> forall i, j :: 0 <= i < j < |found| ==> found[i].key != found[j].key
      ensures forall k :: k in workers && k !in old(workers) ==> fresh(workers[k]) && workers[k].peer == sitePeers[k]
      ensures !Expired(task, now) && !Stale(task, now) ==> step == []
      ensures forall k :: WorkerStop(k) in step <==> Expired(task, now) && k in taskOf0 && taskOf0[k] == task
      ensures site.calls == old(site.calls) + step
    {
      found, added, step := CheckTask(task, now, sitePeers, workers0, taskOf0);
      // no worker changes its task: the old ones keep theirs, the new ones have none
      forall k | k in workers && k !in workers0
        ensures workers[k].task == null
      {
        if k in old(workers) {
          assert workers[k] == old(workers[k]);
        }
      }
      forall j | 0 <= j < |snapshot| && j != n
        ensures Views(snapshot)[j] == old(Views(snapshot))[j]
      {
        ghost var u := snapshot[j];
        assert ViewOf(u) == old(ViewOf(u));
      }
    }

    /** One iteration of the sweep: check the first unswept task. */
    method SweepHead(now: int, sitePeers: map<string, Peer>, ghost snapshot: seq<Task>, ghost swept: seq<Task>,
                     task: Task, ghost rest: seq<Task>, ghost views0: seq<TaskView>,
                     ghost workers0: map<string, Worker>, ghost taskOf0: map<string, Task?>,
                     ghost calls0: seq<Event>, ghost events: seq<Event>)
      returns (ghost events': seq<Event>)
      requires Valid()
      requires Sweeping(now, sitePeers, snapshot, swept, [task] + rest, views0, workers0, taskOf0, calls0, events)
      modifies this, site, task, task.evt
      ensures Valid()
      ensures Sweeping(now, sitePeers, snapshot, swept + [task], rest, views0, workers0, taskOf0, calls0, events')
      ensures Grown(old(workers), workers, sitePeers)
      ensures forall k :: k in workers && k !in old(workers) ==> fresh(workers[k])
    {
      ghost var n := |swept|;
      OrderAt(now, snapshot, swept, task, rest, tasks);
      ghost var tasksB, viewsB, poolB := tasks, Views(snapshot), workers;
      var found;
      ghost var added, step;
      found, added, step := CheckNext(now, sitePeers, snapshot, n, task, workers0, taskOf0);
      SweepAdvance(now, sitePeers, snapshot, swept, task, rest, views0, workers0, taskOf0, calls0, events,
                   tasksB, tasks, viewsB, Views(snapshot), poolB, workers, found, added, step);
      StartsAdvance(now, sitePeers, task, workers0, poolB, workers, events, found, added, step);
      events' := events + step;
    }

    /** The sweep's loop over the snapshot, from the first unswept task `rest[0]` to the end. */
    method SweepRest(now: int, sitePeers: map<string, Peer>, ghost snapshot: seq<Task>, rest0: seq<Task>,
                     ghost views0: seq<TaskView>, ghost workers0: map<string, Worker>,
                     ghost taskOf0: map<string, Task?>, ghost calls0: seq<Event>)
      returns (ghost events: seq<Event>)
      requires Valid()
      requires Sweeping(now, sitePeers, snapshot, [], rest0, views0, workers0, taskOf0, calls0, [])
      modifies this, site, rest0, set t | t in rest0 :: t.evt
      ensures Valid()
      ensures Sweeping(now, sitePeers, snapshot, snapshot, [], views0, workers0, taskOf0, calls0, events)
      ensures forall k :: k in workers && k !in workers0 ==> fresh(workers[k])
    {
      events := [];
      var rest := rest0;
      ghost var swept: seq<Task> := [];
      while rest != []
        invariant Valid() && snapshot == rest0 == swept + rest
        invariant Sweeping(now, sitePeers, snapshot, swept, rest, views0, workers0, taskOf0, calls0, events)
        invariant forall k :: k in workers && k !in workers0 ==> fresh(workers[k])
      {
        var task := rest[0];
        assert rest == [task] + rest[1..];
        assert task in rest0 && task.evt in set t | t in rest0 :: t.evt;
        events := SweepHead(now, sitePeers, snapshot, swept, task, rest[1..], views0, workers0, taskOf0, calls0, events);
        swept := swept + [task];
        rest := rest[1..];
      }
      assert swept == snapshot;
    }

    /** One pass of the timeout sweep at time `now`: every task of a snapshot of
        the list is checked in order (see CheckTask). Expired tasks leave the list
        failed, stale ones re-announce (every one of them) and lose their peer
        lock, and the rest of the list keeps its order. The pass stops exactly
        the workers that were on an expired task, and makes no call but
        announces, failures, and worker starts and stops: in particular no
        onComplete, even when it empties the list. `events` is what the pass
        adds to the trace. */
    method CheckTasks(now: int, sitePeers: map<string, Peer>) returns (ghost events: seq<Event>)
      requires Valid()
      modifies this, site, tasks, Signals()
      ensures Valid()
      ensures tasks == Survivors(old(tasks), now)
      ensures Views(old(tasks)) == SweepViews(old(Views(tasks)), old(tasks), |old(tasks)|, now)
      ensures Grown(old(workers), workers, sitePeers)
      ensures Released(old(Views(tasks)), old(tasks), |old(tasks)|, now) ==> Saturated(workers, sitePeers)
      ensures !Released(old(Views(tasks)), old(tasks), |old(tasks)|, now) ==> workers == old(workers)
      ensures site.calls == old(site.calls) + events
      ensures forall e :: e in events ==> SweepCall(e)
      ensures Announces(events) == StaleCount(old(tasks), now)
      ensures FailedPaths(events) == ExpiredPaths(old(tasks), now)
      ensures forall k :: WorkerStop(k) in events <==>
                k in old(workers) && old(workers[k].task) != null && old(workers[k].task) in old(tasks)
                && Expired(old(workers[k].task), now)
      // the starts: one for each worker the pass admitted, and no other
      ensures forall k :: WorkerStart(k) in events <==> k in workers && k !in old(workers)
      ensures forall i, j :: 0 <= i < j < |StartedKeys(events)| ==> StartedKeys(events)[i] != StartedKeys(events)[j]
      // the stops: each worker at most once
      ensures forall i, j :: 0 <= i < j < |StoppedKeys(events)| ==> StoppedKeys(events)[i] != StoppedKeys(events)[j]
      // the workers it admits: fresh, bound to their site peer, on no task
      ensures forall k :: k in workers && k !in old(workers) ==>
                fresh(workers[k]) && workers[k].peer == sitePeers[k] && workers[k].task == null
    {
      events := [];
      if tasks == [] {
        return;
      }
      var snapshot := tasks;
      // the state the pass starts from
      ghost var views0, workers0, calls0 := Views(snapshot), workers, site.calls;
      ghost var taskOf0 := map k | k in workers :: workers[k].task;
      assert Sweeping(now, sitePeers, snapshot, [], snapshot, views0, workers0, taskOf0, calls0, events) by {
        assert SweepViews(views0, snapshot, 0, now) == views0;
        assert OnExpired(taskOf0, [], now) == {};
      }
      events := SweepRest(now, sitePeers, snapshot, snapshot, views0, workers0, taskOf0, calls0);
      assert snapshot + [] == snapshot;
      forall k
        ensures WorkerStop(k) in events <==> k in OnExpired(taskOf0, snapshot, now)
        ensures WorkerStart(k) in events <==> k in workers && k !in workers0
      {
        StoppedSpec(events, k);
        StartedKeysSpec(events, k);
      }
    }
  }
}
