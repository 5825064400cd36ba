# Per-site download scheduler (WorkerManager), modelled in Dafny

ZeroNet fetches the files of a site (its "inner paths") from the site's peers.
For each site, a `WorkerManager` keeps two pieces of state:

- the **task list**: an ordered list of pending downloads. Each task holds an
  inner path, a start time, a worker count, a done flag, a *peer lock* and a
  one-shot completion signal (`evt`).
- the **worker pool**: a dictionary from peer key to worker, holding at most
  `MAX_WORKERS = 10` workers.

It registers download requests, hands tasks to workers, admits new workers
for free peers, and resolves tasks as done or failed. Every 15 seconds a
sweep fails tasks pending for 60 seconds or more. Tasks pending for 15 to 60
seconds make the sweep announce for more peers and release their peer lock.

The model has two modules.

- `Tasks` (`tasks.dfy`) defines the task record and the completion signal as
  classes, because the scheduler, the workers and the waiting caller share
  them and the source updates them in place. It also holds the pure facts
  about the task list that the scheduler relies on:
  - lookup by inner path;
  - Python's `list.remove`;
  - which tasks survive a sweep;
  - what a sweep does to each task's record.
- `WorkerManagement` (`worker_manager.dfy`) holds the `WorkerManager` class.
  Its fields are `tasks: seq<Task>` and `workers: map<string, Worker>`, and
  its methods update them in place as the source does. Its invariant `Valid()`
  requires:
  - one task per inner path;
  - every listed task unresolved, with its own signal;
  - every worker filed under its own key;
  - the pool within `MAX_WORKERS`.

  Every method that changes the scheduler's state keeps `Valid()`.

The clock and the site are outside the scheduler:

- The current time is a parameter `now`, in whole seconds.
- The site's peer table is a parameter `sitePeers: map<string, Peer>`.
- Every call the scheduler makes on the site or on a worker is appended to
  the site's ghost trace `calls`. The calls are `onFileStart`, `onFileDone`,
  `onFileFail`, `onComplete`, `announce`, `worker.start()` and `worker.stop()`.

Three behaviours of the code the model keeps:

- `removeWorker` deletes with `del`, which raises KeyError when the key is
  missing. So the model requires the worker to be in the pool; removal is not
  an idempotent no-op.
- `addTask` calls `onFileStart` on every call, including for a path that
  already has a task, not only when it creates a task.
- In `checkTasks`, the `continue` commented "One reannounce per loop" is the
  last statement of the loop body. So it limits nothing: every stale task in
  a sweep announces. `CheckTasks` proves that the number of announces equals
  the number of stale tasks.

## Model

| member | source | states |
|---|---|---|
| `Tasks.AsyncResult.constructor` | src/Worker/WorkerManager.py:96 | a new signal is unresolved |
| `Tasks.Task.constructor` | src/Worker/WorkerManager.py:96-101 | a new task has the given path, start time and peer lock, no workers, is not done, and owns a fresh unresolved signal |
| `Tasks.Lookup` | src/Worker/WorkerManager.py:109-113 | the result is a listed task with that path, and it is null exactly when no listed task has that path |
| `Tasks.LookupAt` | src/Worker/WorkerManager.py:110-112 | the scan stops at the first task with the path: a match at index i with no earlier match is what the lookup returns |
| `Tasks.AppendUnique` | src/Worker/WorkerManager.py:101-102 | appending a task for a path that has none, with a signal no listed task has, keeps one task per path and distinct signals, and looking the path up then finds the new task |
| `Tasks.LookupUnique` | src/Worker/WorkerManager.py:109-113 | with one task per path, looking a listed task up by its own path finds that very task: under the invariant, findTask never returns another task for a listed path (a property stated for its own sake; no other proof uses it) |
| `Tasks.RemoveFirst` | src/Worker/WorkerManager.py:119 | total here: on an absent task it returns the list unchanged, where `list.remove` raises ValueError, and FailTask and DoneTask require presence; on a present task the list is one shorter and gains no task |
| `Tasks.RemoveFirstSplit` | src/Worker/WorkerManager.py:119 | removing a task that follows a prefix without it keeps the prefix and the suffix, in order |
| `Tasks.RemoveAt` | src/Worker/WorkerManager.py:119 | removing the task at index i, when it has no earlier copy, leaves exactly the tasks before and after it in their order |
| `Tasks.DropUnique` | src/Worker/WorkerManager.py:119 | dropping one position keeps one task per path |
| `Tasks.RemoveKeepsUnique` | src/Worker/WorkerManager.py:117-130 | removing a listed task keeps one task per path and leaves exactly the other tasks |
| `Tasks.Survivors` | src/Worker/WorkerManager.py:21-32 | the tasks a sweep keeps are exactly the tasks of the snapshot that are not expired, in list order |
| `Tasks.SweepStep` | src/Worker/WorkerManager.py:22-32 | checking one more snapshot task either removes it from the live list (expired) or keeps it in place, so the list is the survivors so far followed by the unchecked tasks |
| `Tasks.SurvivorsSnoc` | src/Worker/WorkerManager.py:22-32 | the survivors of one more task are the survivors so far plus that task exactly when it is not expired; in front of the unchecked tasks, an expired task simply drops out |
| `Tasks.SplitUnique` | src/Worker/WorkerManager.py:21-22 | in a list with one task per path, the task at a given position has no other copy and shares neither path nor signal with any other |
| `Tasks.SurvivorsUnique` | src/Worker/WorkerManager.py:21-32 | a sweep keeps one task per path (a property stated for its own sake; the sweep proofs carry it through the invariant instead) |
| `Tasks.StaleCount` | src/Worker/WorkerManager.py:33-40 | the number of stale tasks is at most the list length, and zero exactly when no task is stale |
| `Tasks.StaleCountStep` | src/Worker/WorkerManager.py:33-35 | one more task adds one to the stale count exactly when it is stale |
| `Tasks.ViewsAdvance` | src/Worker/WorkerManager.py:22-40 | sweeping task n changes only task n's record, from its original value to its swept value |
| `Tasks.Apart` | src/Worker/WorkerManager.py:21-22 | two positions of a list with unique paths and signals hold different tasks with different signals |
| `Tasks.ReleasedStep` | src/Worker/WorkerManager.py:36-39 | after one more task, "some task lost its lock" holds when it held before or when this task was stale and locked |
| `Tasks.ExpiredPaths` | src/Worker/WorkerManager.py:23-32 | a sweep reports at most one failure per task |
| `Tasks.ExpiredPathsStep` | src/Worker/WorkerManager.py:23-32 | one more task adds its path to the reported failures exactly when it is expired |
| `Tasks.ExpiredPathsSpec` | src/Worker/WorkerManager.py:23-32 | a path is reported as failed by a sweep exactly when some task of the snapshot with that path is expired |
| `Tasks.OrderAt` | src/Worker/WorkerManager.py:21-22 | the next task of a sweep is still in the live list, sits at its own position of the copied list, and shares neither object nor signal with any other position |
| `Tasks.OrderStep` | src/Worker/WorkerManager.py:22-32 | checking the next task keeps the sweep's order: the live list loses that task when it is expired and is otherwise unchanged, so it stays the survivors so far followed by the unchecked tasks |
| `WorkerManagement.Starts` | src/Worker/WorkerManager.py:63-68 | one start call per admitted key, in admission order |
| `WorkerManagement.StartsSnoc` | src/Worker/WorkerManager.py:63-68 | starting one more worker appends its start call to the trace |
| `WorkerManagement.Stops` | src/Worker/WorkerManager.py:28-29 | one stop call per worker, in order |
| `WorkerManagement.StartsOnlyStarts` | src/Worker/WorkerManager.py:68 | the start calls of admission are nothing but worker starts |
| `WorkerManagement.StopsSnoc` | src/Worker/WorkerManager.py:28-29 | stopping one more worker appends its stop call to the trace |
| `WorkerManagement.StopsMatch` | src/Worker/WorkerManager.py:27-29 | stopping what findWorkers returned stops a key exactly when the pool files a worker on that task under it |
| `WorkerManagement.StopsThenFail` | src/Worker/WorkerManager.py:28-32 | worker calls followed by one failure hold no announce and exactly that failure |
| `WorkerManagement.ExpireEvents` | src/Worker/WorkerManager.py:23-32 | the calls of a hard timeout, the stops of the workers found on the task and then its failure: no announce, exactly the task's path failed, nothing but stops and that failure, and a stop for exactly the keys whose worker is on the task |
| `WorkerManagement.ReleaseEvents` | src/Worker/WorkerManager.py:33-40 | the calls of a soft timeout, an announce and then the starts of admission: exactly one announce, no failure, nothing but the announce and worker starts |
| `WorkerManagement.AnnouncesAppend` | src/Worker/WorkerManager.py:35 | the announce count of a trace is additive over concatenation |
| `WorkerManagement.FailedPathsAppend` | src/Worker/WorkerManager.py:120 | the failed paths of a trace are those of its parts, in order |
| `WorkerManagement.StoppedSpec` | src/Worker/WorkerManager.py:28-29 | the set of stopped keys of a trace holds exactly the keys that have a stop call in it |
| `WorkerManagement.StoppedAppend` | src/Worker/WorkerManager.py:28-29 | two traces put together stop exactly the keys either one stops |
| `WorkerManagement.OnExpiredStep` | src/Worker/WorkerManager.py:23-29 | one more checked task adds to the workers a sweep must stop exactly the workers that were on it, and only when it is expired |
| `WorkerManagement.StoppedOn` | src/Worker/WorkerManager.py:27-29 | a step whose stop calls are exactly for the workers on an expired task stops exactly that set of keys |
| `WorkerManagement.WorkerCallsOnly` | src/Worker/WorkerManager.py:28-29 | a trace of worker starts and stops has no announce and no failure |
| `WorkerManagement.StartedKeysSpec` | src/Worker/WorkerManager.py:63-68 | a key is among the keys a trace starts exactly when the trace holds a start call for it |
| `WorkerManagement.StartedKeysAppend` | src/Worker/WorkerManager.py:63-68 | the keys two traces put together start are those of the first, then those of the second |
| `WorkerManagement.StartedKeysStarts` | src/Worker/WorkerManager.py:63-68 | the calls of admission start exactly the admitted keys, in order |
| `WorkerManagement.NoStarts` | src/Worker/WorkerManager.py:23-32 | a trace without start calls starts no key |
| `WorkerManagement.StoppedKeysSpec` | src/Worker/WorkerManager.py:28-29 | a key is among the keys a trace stops exactly when the trace holds a stop call for it |
| `WorkerManagement.StoppedKeysAppend` | src/Worker/WorkerManager.py:28-29 | the keys two traces put together stop are those of the first, then those of the second |
| `WorkerManagement.StoppedKeysStops` | src/Worker/WorkerManager.py:28-29 | stopping a sequence of workers stops their keys, in order |
| `WorkerManagement.NoStops` | src/Worker/WorkerManager.py:33-40 | a trace without stop calls stops no key |
| `WorkerManagement.DistinctKeys` | src/Worker/WorkerManager.py:65-66 | different workers of a pool that files each worker under its own key have different keys |
| `WorkerManagement.Site.constructor` | src/Worker/WorkerManager.py:8-9 | a site starts with an empty trace of calls |
| `WorkerManagement.Worker.constructor` | src/Worker/WorkerManager.py:65-67 | a new worker is bound to its peer and filed key and has no task |
| `WorkerManagement.AdmitStep` | src/Worker/WorkerManager.py:64-68 | admitting a worker for a pending peer without one, under the cap, keeps every earlier worker, covers that peer, records its key once among the added keys, and appends one start call |
| `WorkerManagement.DistinctSnoc` | src/Worker/WorkerManager.py:64 | a key not yet admitted keeps the list of admitted keys duplicate-free |
| `WorkerManagement.PoolStep` | src/Worker/WorkerManager.py:36-39 | over a sweep the pool only grows, by workers bound to their site peers; it is saturated once some lock was released, and untouched otherwise |
| `WorkerManagement.StepSummary` | src/Worker/WorkerManager.py:22-40 | the calls of checking one task hold one announce exactly when it is stale, its failure exactly when it is expired, and nothing but announces, failures, and worker starts and stops |
| `WorkerManagement.SweepTraceStep` | src/Worker/WorkerManager.py:22-40 | after one more checked task the sweep's trace still holds one announce per stale task, the failures of the expired tasks in order, nothing but sweep calls, and a stop for exactly the workers that were on an expired checked task, each at most once |
| `WorkerManagement.StepStarts` | src/Worker/WorkerManager.py:22-40 | the calls of checking one task start exactly the workers its release admitted when it is stale, and none when it is expired or fresh |
| `WorkerManagement.StartsAdvance` | src/Worker/WorkerManager.py:36-40 | after one more checked task the sweep still starts exactly the workers the pool gained since the sweep began, each once: the release admits only keys that are new to the pool |
| `WorkerManagement.StopsAdvance` | src/Worker/WorkerManager.py:22-32 | after one more checked task the sweep still stops each key at most once: a worker has one task, the tasks of a sweep are distinct, and the workers stopped earlier were on tasks already checked |
| `WorkerManagement.BoundStep` | src/Worker/WorkerManager.py:65-66 | growing the pool by workers bound to their site peers keeps every worker added since the sweep began bound to its site peer |
| `WorkerManagement.OnTask` | src/Worker/WorkerManager.py:27 | while the workers present when the sweep started are still filed and keep their tasks, and later ones have none, the workers on a task are exactly those that were on it when the sweep started |
| `WorkerManagement.SweepAdvance` | src/Worker/WorkerManager.py:21-40 | checking the next snapshot task moves every part of the sweep on by one: live list, task records, pool and trace |
| `WorkerManagement.WorkerManager.constructor` | src/Worker/WorkerManager.py:8-11 | a new manager has no tasks and no workers and satisfies the invariant |
| `WorkerManagement.WorkerManager.StartWorkers` | src/Worker/WorkerManager.py:60-69 | the pool never exceeds MAX_WORKERS; nothing changes when the pool is full or no task is pending; only site peers without a worker are added, one fresh worker per key, and no worker is removed or replaced; afterwards the pool is full or every site peer has a worker; one start call per added key |
| `WorkerManagement.WorkerManager.AddWorker` | src/Worker/WorkerManager.py:65-68 | a fresh worker for the key is filed under that key and started; the invariant is kept |
| `WorkerManagement.WorkerManager.OnPeers` | src/Worker/WorkerManager.py:55-56 | runs admission with every guarantee of StartWorkers: the list is unchanged; the pool is untouched when full or when no task is pending; otherwise it only grows, by fresh workers with no task for site peers that had none, until it is full or every site peer has one; the added keys are exactly the new pool keys, each once, with one start call each |
| `WorkerManagement.WorkerManager.FindWorkers` | src/Worker/WorkerManager.py:73-77 | the result holds exactly the pool's workers whose current task is the given task, each once |
| `WorkerManagement.WorkerManager.RemoveWorker` | src/Worker/WorkerManager.py:80-83 | for a worker in the pool (`del` raises KeyError on a missing key): clears its running flag and deletes exactly its key, nothing else changes |
| `WorkerManagement.WorkerManager.FindTask` | src/Worker/WorkerManager.py:109-113 | returns the first task with the path, or null when there is none |
| `WorkerManagement.WorkerManager.GetTask` | src/Worker/WorkerManager.py:44-51 | never a task whose non-empty peer lock excludes the peer; the first eligible manifest task if any; otherwise an eligible task with the fewest workers, the earliest on ties; null exactly when nothing is eligible |
| `WorkerManagement.WorkerManager.AddTask` | src/Worker/WorkerManager.py:87-105 | always reports onFileStart first, then one start call per admitted worker, each key once, and returns the unresolved signal of the task now filed under the path. On a path with a task: the same list and signal, and the lock grows by the given peer only when a peer is given and the task is already locked, which is also the only case where admission runs. Otherwise a fresh task (no workers, not done, started now, locked to the given peer or unlocked) with a fresh signal is appended, earlier tasks unchanged in order, and admission runs. The started keys are exactly the new pool keys. No worker count or done flag changes; one task per path is kept. The workers it adds are fresh, bound to their site peer and on no task. |
| `WorkerManagement.WorkerManager.ExtendTask` | src/Worker/WorkerManager.py:90-94 | an existing task gains the peer only when a peer is given and it is already locked; only then does admission run, starting exactly the new pool keys, each once; no worker count or done flag changes. The workers it adds are fresh, bound to their site peer and on no task. |
| `WorkerManagement.WorkerManager.NewTask` | src/Worker/WorkerManager.py:95-105 | appends a fresh task with the given path, start time and lock, no workers, not done, and a fresh unresolved signal; earlier tasks keep their worker counts; lookup now finds the new task; admission leaves the pool saturated and starts exactly the new pool keys, each once. The workers it adds are fresh, bound to their site peer and on no task. |
| `WorkerManagement.WorkerManager.FailTask` | src/Worker/WorkerManager.py:117-121 | for a listed task: removes exactly that task keeping the others in order, marks it done, resolves its signal to false, reports onFileFail |
| `WorkerManagement.WorkerManager.DoneTask` | src/Worker/WorkerManager.py:125-130 | for a listed task: removes exactly that task keeping the others in order, marks it done, resolves its signal to true, reports onFileDone, then onComplete exactly when no task is left |
| `WorkerManagement.WorkerManager.StopWorkers` | src/Worker/WorkerManager.py:28-29 | issues one stop call per worker, in order, and changes nothing else |
| `WorkerManagement.WorkerManager.CleanUpWorkers` | src/Worker/WorkerManager.py:27-29 | finds exactly the pool's workers on the task, each once, and appends one stop call per worker found, in order: a key is stopped exactly when its worker is on the task; the pool is unchanged; the workers found have distinct keys |
| `WorkerManagement.WorkerManager.ExpireTask` | src/Worker/WorkerManager.py:23-32 | the calls are exactly one stop per worker on the task, each once, then onFileFail for its path; a key is stopped exactly when its worker was on the task; so no announce and nothing but stops and that failure. The task leaves the list (the others keep their order), is done, and its signal is false; the pool is unchanged. The workers found have distinct keys |
| `WorkerManagement.WorkerManager.ReleaseLock` | src/Worker/WorkerManager.py:36-39 | a locked task gets an empty lock and admission runs, leaving the pool saturated with fresh task-less workers for site peers; an unlocked task and the pool are left as they are; one start call per added worker, each key once, and the added keys are exactly the new pool keys |
| `WorkerManagement.WorkerManager.ReleaseTask` | src/Worker/WorkerManager.py:33-40 | the calls are exactly one announce and then one start per worker admitted, each key once and exactly the new pool keys, so one announce, no failure, and nothing but the announce and starts. A locked task gets an empty lock and admission leaves the pool saturated; an unlocked task and the pool are left as they are; the list is unchanged |
| `WorkerManagement.WorkerManager.CheckTask` | src/Worker/WorkerManager.py:22-40 | one snapshot task at time now. Expired: the calls are the stops of exactly the workers on it, one per key, then its failure, and it leaves the list done with signal false. Stale: the calls are one announce, then the starts of the workers admitted, each once and exactly the new pool keys; a locked task's lock is emptied and the pool saturated. Fresh: no call, and nothing changes. The workers stopped are exactly those that were on the task when the sweep started; no worker is modified, and the new ones are fresh, bound to their site peer and on no task |
| `WorkerManagement.WorkerManager.CheckNext` | src/Worker/WorkerManager.py:22-40 | the same step stated over the whole copied list: the checked position's record becomes its swept record and every other position keeps its record; the workers present when the sweep started keep their tasks and the new ones have none; the new workers are fresh and bound to their site peer; an expired task's stops are one per key |
| `WorkerManagement.WorkerManager.SweepHead` | src/Worker/WorkerManager.py:22-40 | checking the next snapshot task advances the sweep state by that task; the pool only grows, and the workers it gains are fresh |
| `WorkerManagement.WorkerManager.SweepRest` | src/Worker/WorkerManager.py:22-40 | the loop over the snapshot checks every task, in order; every worker the pool gains is fresh |
| `WorkerManagement.WorkerManager.CheckTasks` | src/Worker/WorkerManager.py:17-40 | one sweep at time now: the list becomes the non-expired tasks in order; each task's record becomes its swept record (expired: done with signal false; stale and locked: lock emptied; otherwise unchanged); the pool only grows, and is touched only if a lock was released. The calls it adds are only announces, failures, and worker starts and stops: no onFileStart, onFileDone or onComplete, even when it empties the list. One announce per stale task; the failures are the expired paths in order; a worker is stopped exactly when, at the start of the sweep, it was on a listed task that is expired; a worker is started exactly when its key is new to the pool, and each such key once; each worker is stopped at most once. The workers it admits are fresh, bound to their site peer and on no task |

## Left out

- CheckTasks: the contract for the whole pass does not state that a task's
  stop calls come before its onFileFail. That order is stated for each task,
  by CheckTask and ExpireTask (`Stops(found) + [FileFail]`). For the whole
  pass the trace is described by its announce count, its failed paths in
  order, and the keys it stops and starts, each once.
- The sweeper's greenlet and its endless `while 1` / `sleep(15)` loop, and the
  early `continue` on an empty list. The model is one pass, `CheckTasks`, which
  does nothing on an empty list. The cooperative interleaving of a sweep with
  other operations is not modelled.
- Wall-clock reads. The time is a parameter `now` in whole seconds, and one
  sweep uses one `now` for every task, where the source reads the clock twice
  per task.
- The `Worker` class: its constructor, fetching loop, `start()` and `stop()`.
  Start and stop are trace entries. `stop()` is not assumed to change the pool
  or the worker's task. A new worker starts with no task and not running.
- The waiting side of the completion signal, `AsyncResult.get()`. Only the
  written value is modelled, as `Option<bool>`.
- Site side effects (`announce`, `onFileStart`, `onFileDone`, `onFileFail`,
  `onComplete`). They are recorded as trace entries only.
- Logging.
- The unused `only_free` parameter of `getTask`.
- The return value of `startWorkers`. The source returns `False` on its early
  exits and nothing otherwise, and no caller reads it.
- Iteration order of `site.peers` and of `workers`. The model picks the next
  key arbitrarily, so its results hold for every order.
- Python's value equality between task dicts (`worker.task == task`,
  `tasks.remove(task)`). Tasks are objects compared by identity. A fresh signal
  per task makes distinct tasks unequal in Python too.
- RemoveFirst: it is total, where Python's `list.remove` raises ValueError on
  an absent task. The error path is not modelled because FailTask and DoneTask
  require the task to be listed.
- `workers_num` is never updated in this file. The workers maintain it, so it
  is only read.
