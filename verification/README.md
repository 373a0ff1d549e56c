# A verified model of systemd's job engine and the data structures around it

systemd queues a *job* on a unit whenever the unit is to be started, stopped,
restarted or reloaded, and works the jobs off in an order that respects
`After=`/`Before=`. This project models that engine and several other parts of
the same program that are short in code and hard to be sure of, and proves what
they are meant to do. `dafny verify dfyconfig.toml` checks everything.

## What is modelled

* **Job types** (`JobTypes`). Merging two jobs on one unit. Merging any list of
  jobs is the least upper bound in the order "includes everything that job does",
  exists exactly when no stop is mixed with a non-stop, and does not depend on
  the order of the list.
* **Job order** (`JobOrder`). Which job may run. On units of any number whose
  ordering has no cycle, some job always may; on a ring of starts none may.
* **The job engine** (`JobSteps`, `JobRuns`, `JobCascade`, `JobHistory`, `JobManager`).
  The engine is a transition system over the installed jobs; `JobRuns` proves what
  holds in every state of every run, and `JobHistory` what notifications, runs and whole
  batches are as stretches of a run. `JobManager.Manager` is the engine as it is
  written: a job table, an index by id and a run queue, changed in place, with the
  recursive failure cascade. Each of its methods records the steps it takes, and
  its invariant says that the recorded history is a run of the transition system
  that ends in the present state, so the results about runs hold of the class from
  a batch that has just been installed on. Installing a job later starts a new
  history in a state that is not fresh; what that does to wake-ups is said exactly by
  `JobRuns.InstalledLosesWakeupExactlyWhen`.
* **The hash map** (`LinkedLists`, `HashmapModel`, `Hashmap`). 127 doubly linked
  buckets and an insertion-order list through the same entries. Every operation
  acts exactly as its counterpart on a sequence of pairs with distinct keys.
* **The tile pool** (`TilePool`, `PooledMaps`). The allocator under the hash maps; and
  any number of maps over one pool, whose entries are exactly the live tiles.
* **`shift_fds`** (`ShiftFds`). Renumbering descriptors in place to 3, 4, 5, ...
* **Unit file installation** (`InstallContext`, `Symlinks`). The `Also=` worklist
  and the repeated removal of symlinks.
* **Smaller machines** (`Automount`, `Devices`, `Paths`, `KillLoop`, `Continuation`).
  The automount request protocol, the index of devices by sysfs path, killing a
  control group whose members fork, and continuation lines in configuration files.

## Where the code does less than one would like

* **Restarts rewritten in place.** Running a restart of a unit that is down turns
  the job into a start without looking at the order again and without waking
  anybody (`src/job.c:440`, `src/job.c:452`). Two ordered jobs can then run at the
  same time, and a job that has become runnable can stay off the queue:
  `JobRuns.RewriteOverlapsAndStrands` is such a run. `RunTogetherExactlyWhen` says
  exactly in which runs ordered jobs run at the same time, `RunStrandsExactlyWhen` in
  which a runnable job stays off the queue, and `RunOverlapsExactlyWhen` in which the
  strict rule is broken, by which nothing is started while a unit before it still has a
  job. `NoWakeupIsLost` and `OrderedJobsExclude` hold of all runs, with precisely the
  rewritten jobs exempt.
* **Replaced jobs.** Installing a job on a unit that carries one frees the old job
  without waking anybody (`src/manager.c:1239-1240`). `JobRuns.ReplacedStopStrands` shows
  two starts that wait for ever; `InstalledLosesWakeupExactlyWhen` says exactly when a
  wake-up is lost.
* **Retries.** Two units that ask for a retry and notify each other keep the run queue
  busy for ever: `JobRuns.RetriesGoOnForEver`.
* **SIGCONT.** `cg_kill` sends SIGCONT only to the first process that is signalled
  successfully, and only if no error came before (`src/cgroup-util.c:233-242`).
  `KillLoop.OneOfTwoContinued` shows two processes of which one is left stopped;
  `KillLoop.AllContinuedExactlyWhen` says exactly when nobody is.
* **Automount requests.** If the ioctl descriptor cannot be opened when the unit goes
  down, pending requests stay in the set, and the next start forgets them without an
  answer: `Automount.RequestIsLost`. `Automount.Unit.AllAnsweredExactlyWhen` and
  `RequestsAreAnswered` say exactly when requests are lost: if the unit is started right
  after an attempt to answer failed. A failure that a later attempt makes good loses
  nothing: `Automount.RequestIsAnsweredLater`.
* **Moving one entry.** `hashmap_move_one` links the entry under the hash of the key it
  is given, not of the entry's own key (`src/hashmap.c:665-686`). With maps that do not
  compare keys alike this can put an entry where it is not found:
  `Hashmap.MovedEntryIsLost`. `Hashmap.Map.MoveOne` says exactly when the map stays
  consistent.
* **Unfinished lines.** A configuration file whose last line ends in a backslash
  loses that line and all lines glued to it: `Continuation.UnfinishedTextIsDropped`.

## Assumptions

* Before and After are inverse to each other, as `src/unit.c:1497-1551` keeps them.
  Where progress is claimed, the order has no cycle among the units that carry jobs.
* A run installs no jobs; an installation starts a new one. What a unit operation
  returns, the state its unit is in and the notifications that arrive meanwhile are
  arbitrary. Jobs with `ignore_order` may take part in a run; the exclusion results
  speak of the others.
* A hash map's hash and compare functions agree: comparing equal is an equivalence,
  and equal keys hash alike. Value 0 stands for NULL, and the entry the allocator
  hands out, or 0 if memory is short, is a parameter.
* A symlink's target does not change while symlinks are removed; directories may be
  listed in any order each time. Entries that the scan ignores by name count as
  neither link nor directory.
* The process identifiers are finitely many, and the task list may be different
  each time it is read.

## Model

| member | source | states |
|---|---|---|
| JobTypes.MergeIsJoin | src/job.c:167-261 | two types merge exactly when they do not conflict, exactly when some type includes both, and the merged type is the least such type |
| JobTypes.MergeAllIsJoin | src/manager.c:860-905 | a list of any length merges exactly when no stop is mixed with a non-stop, into the least type that includes every member |
| JobTypes.MergeAllIgnoresOrder | src/job.c:173-210 | permuting the list does not change the outcome |
| JobOrder.LastExists | src/job.c:334-342 | in an acyclic order every nonempty set of units has one that is before no other, so some job that takes a unit down waits for none |
| JobOrder.FirstExists | src/job.c:319-332 | in an acyclic order every nonempty set of units has one that is after no other |
| JobOrder.SomeJobIsRunnable | src/job.c:303-356 | deadlock freedom: among any installed jobs over an acyclic order one may run |
| JobOrder.RingOfStartsIsStuck | src/job.c:319-332 | on a ring of ordered starts no job may run, so acyclicity is needed |
| JobSteps.RunningTypeNamesTheCall | src/job.c:388-460 | the type a job has while it runs names the unit operation that was called for it, no call means the run settles at once, and -EBADR is forgiven except for restarts |
| JobSteps.RunFollowsUnitState | src/job.c:388-460 | by the state of the unit, which operation is called, which type the job has then and how the result is judged: a restart stops a unit that is up or going down and starts one that is not; a try-restart does nothing to one that is down; reload-or-start reloads exactly an active unit; a check is done, retried or skipped |
| JobSteps.ResultOfCode | src/job.c:463-472 | -EALREADY means done, -ENOEXEC skipped, any other error failed |
| JobSteps.BegunKeepsInv | src/job.c:358-377 | taking a job off the queue and starting it keeps consistency, the wake-up rule and the ordering rule |
| JobSteps.DeferredKeepsInv | src/job.c:470-471 | putting a job back to waiting after -EAGAIN, or on the queue again, keeps the three rules |
| JobSteps.FinishedKeepsNoLostWakeup | src/job.c:617-625 | finishing a job, with its whole cascade, leaves no job runnable and unqueued |
| JobSteps.FinishedKeepsInv | src/job.c:525-630 | finishing a job keeps the three rules |
| JobSteps.NextKeepsInv | src/job.c:358-477 | every step of the engine keeps the three rules |
| JobRuns.RunKeepsInv | src/job.c:358-630 | the three rules hold in every state of every run of a fresh batch |
| JobRuns.NoWakeupIsLost | src/job.c:617-625 | in every such state a waiting job that may run is queued, or deferred, or before a unit whose job was rewritten in place and is unfinished |
| JobRuns.OrderedJobsExclude | src/job.c:303-356 | two jobs on ordered units run together only if the later unit's job was rewritten in place; a later unit runs early only to go down; nothing after a running unit goes down |
| JobRuns.NoRewritesNoOverlap | src/job.c:303-377 | without in-place rewrites, jobs on ordered units never run together |
| JobRuns.BegunOverlapsExactlyWhen | src/job.c:437-460 | starting a job breaks the strict ordering rule exactly when it is a restart rewritten in place while a unit before it carries a job |
| JobRuns.BegunLosesWakeupExactlyWhen | src/job.c:437-460 | starting a job leaves a runnable job unqueued exactly when it is a restart rewritten in place on which alone some job off the queue was waiting |
| JobRuns.RunOverlapsExactlyWhen | src/job.c:437-460 | over a whole run the strict ordering rule (a later unit runs early only to go down, and nothing after a running unit goes down) holds in every state exactly if no job was rewritten in place while a unit before it carried a job |
| JobRuns.RunStrandsExactlyWhen | src/job.c:437-460 | over a whole run no runnable job is ever off the queue exactly if no job was rewritten in place while another slept on it alone |
| JobRuns.RunTogetherExactlyWhen | src/job.c:371-460 | over a whole run no two jobs on ordered units ever run at the same time exactly if no job was started while a unit ordered after it ran a job that was rewritten in place |
| JobRuns.InstalledLosesWakeupExactlyWhen | src/manager.c:1233-1258 | installing a job, at any time, leaves a runnable job unqueued exactly when it replaces a job that was all another slept on and does not take its unit down, or a rewritten job that excused one which ignores the order; so never on a free unit |
| JobRuns.InstalledStrandsExactlyWhen | src/manager.c:1233-1258 | the same for the rule without exemptions: exactly when a job that takes its unit down, on which alone another sleeps, is replaced by one that does not |
| JobRuns.ReplacedStopStrands | src/manager.c:1239-1240 | a stop replaced by a start, after which two jobs wait for ever, one of which may run |
| JobRuns.RewriteOverlapsAndStrands | src/job.c:437-441 | two runs of two jobs in which the rewrite makes ordered jobs overlap, or strands a runnable job |
| JobRuns.FinishedLowersWeight | src/job.c:537-561 | each finish lowers the number of jobs plus the number of restart-type jobs |
| JobRuns.NextLowersWeight | src/job.c:388-474 | no step raises that number, and each step that finishes a job lowers it |
| JobRuns.FewCompletions | src/job.c:525-630 | in any run at most (jobs + restart-type jobs) calls finish a job |
| JobRuns.CompletionsAre | src/job.c:525-630 | the number so bounded is that of the steps that finish a job |
| JobRuns.JobsKeepIdentity | src/job.c:424-460 | over any stretch of a run a remaining job is the one that was there, a stop stays a stop, and nothing that brings a unit up turns into something that takes it down |
| JobRuns.IdleIsEmpty | src/job.c:303-356 | a consistent state with nothing queued, deferred or running has no jobs |
| JobRuns.BatchDrains | src/manager.c:1876-1895 | a run without -EAGAIN never gets stuck: while a job is left, one is queued or running |
| JobRuns.BatchNeverSticks | src/manager.c:1876-1895 | retries included, a run in which no rewrite strands a job never gets stuck: while a job is left, one is queued, running or deferred |
| JobRuns.RetriesGoOnForEver | src/job.c:470-471 | two units that ask for a retry and notify each other keep the run queue busy for any number of rounds |
| JobRuns.CascadeIsReachability | src/job.c:562-603 | the least set closed under failing is exactly the set of units that a chain of failures leads to, on cyclic requirement graphs too |
| JobCascade.CascadeJoins | src/job.c:570-592 | cascading from some jobs and then from others, over what is left, is cascading from all of them |
| JobCascade.CascadeStarts | src/job.c:558-603 | freeing a job and cascading from all it brings down directly is the cascade that starts at it |
| JobCascade.FinishedInThreeSteps | src/job.c:552-625 | freeing, failing dependents and waking neighbours compose to the finish step of the transition system |
| JobCascade.DownHit | src/job.c:570-592 | failing one more dependent extends the cascade, and what was announced, by exactly its share |
| JobCascade.FinishedWhole | src/job.c:552-625 | the same for the whole finish, including the removal signals and OnFailure= triggers that are sent |
| JobCascade.FinishOutput | src/job.c:58-94 | the first signal sent is that of the job itself, with its own result; OnFailure= is triggered for exactly the units whose jobs were brought down, and for the job's own unit, last, exactly if it timed out or failed for a dependency |
| JobCascade.FinishedDirectly | src/job.c:536-603 | by the types: a restart that is done becomes a waiting, queued start; else only starts, checks and reload-or-starts are brought down, by a job that is not done, and all that depend on it directly are |
| JobManager.Manager.Install | src/manager.c:1233-1258 | at any time a new job waits at the head of the run queue and is indexed by its id; one that the unit carried is freed first, its removal announced and nobody woken; table, index and queue agree |
| JobManager.Manager.AddToRunQueue | src/job.c:679-688 | the job is put at the head of the run queue unless it is on it; table, index and queue agree |
| JobManager.Manager.Free | src/job.c:58-94 | the job leaves table, index and queue, and its removal is announced |
| JobManager.Manager.WakeNeighbours | src/job.c:617-625 | exactly the jobs on units ordered before or after are queued, each at the head of the queue in turn |
| JobManager.FrontedIs | src/job.c:617-625 | the queue afterwards is the old one, in its order, behind exactly the jobs that were not on it, each once |
| JobManager.Manager.FailAll | src/job.c:570-592 | after walking one dependency set, exactly what the failure of its members brings down is gone and announced |
| JobManager.Manager.FailDependents | src/job.c:562-603 | the same for all dependency sets that a job of this type fails along, and none others |
| JobManager.Manager.ConvertToStart | src/job.c:536-549 | a restart that is done becomes a waiting start, which is a finish step |
| JobManager.Manager.FinishAndInvalidate | src/job.c:525-630 | terminates on any requirement graph; removes exactly the job and what its failure brings down, announces each once, with the right result, triggers OnFailure= for exactly those and, last, for the job's own unit if and only if the result is timeout or dependency (so for nothing when a job is done), wakes exactly their neighbours, counts a failure, and keeps table, index and queue in agreement |
| JobManager.Manager.Finish | src/job.c:525-630 | a finish for whatever reason is one recorded step |
| JobManager.Manager.TimerEvent | src/job.c:716-722 | a timeout is a finish with result timeout, after which the unit has no job |
| JobManager.Manager.Deliver | src/unit.c:1183-1240 | a unit's new state queues its waiting job again and finishes it with the result that type and state call for, as recorded steps and no others |
| JobHistory.SettledUnitFinishesJob | src/unit.c:1197-1240 | a running job is finished as soon as its unit is active, inactive or failed; a waiting one is never failed, and is finished exactly by the states it was to bring about |
| JobHistory.RunningJobIsJudged | src/unit.c:1197-1240 | with which result: what brings a unit up fails if the unit fails and is done if it goes inactive; a reload of an active unit is judged by whether it worked; what takes a unit down is done if the unit is down, and fails if it comes up |
| JobManager.Manager.IsRunnable | src/job.c:303-356 | the scan over After and Before decides exactly whether the job may run |
| JobManager.Manager.StartIfRunnable | src/job.c:365-377 | the job leaves the queue and, exactly if it waits and may run, runs with the type its unit's state calls for |
| JobManager.Manager.SettleJob | src/job.c:462-474 | the result settles the job only if the job with that id is still there: it is finished as done, skipped or failed, and then 0 is returned |
| JobManager.Manager.RunAndInvalidate | src/job.c:358-477 | the whole run is one stretch of recorded steps: begin, the notifications that arrive, end; by the state of the unit the right operation is called, the job has the right type while it runs, and checks and try-restarts of units that are down end as they should; -EAGAIN or 0 is returned if nothing was started, 0 if the job was finished and the result otherwise; it brings the batch closer to its end unless the unit asks for a retry and notifies others in the same call |
| JobManager.Manager.DispatchRunQueue | src/manager.c:1876-1895 | dispatching is nothing but a sequence of runs, each of the job that is then first on the run queue, and empties the queue, whatever the units do, also if they ask for retries (without notifying others in the same call, in which case it need not end) |
| JobManager.Manager.RunBatch | src/manager.c:1876-1895 | dispatching, and finishing running jobs in any way between two dispatches, and nothing else, ends with an empty table and index after at most (jobs + restart-type jobs) finishes |
| JobHistory.FinishIsExplained | src/unit.c:1183-1240 | in the life of a batch every finish has a reason: the job is running, or its unit has reported, during some run, the state that finishes it; so a waiting job is finished only as done |
| JobHistory.StretchMeasure | src/job.c:358-477 | what a run achieves: fewer finishes to go, fewer jobs waiting, or one job less on the queue |
| JobHistory.NotifiedFinish | src/unit.c:1183-1240 | a finish among delivered notifications is that which one of them calls for |
| JobManager.WithoutIs | src/job.c:365-368 | taking a job off the run queue keeps the others in their order |
| LinkedLists.PushFront | src/list.h:48-57 | prepending gives the doubly linked list with the object in front |
| LinkedLists.PushBack | src/hashmap.c:206-219 | appending gives the doubly linked list with the object at the end |
| LinkedLists.Unlink | src/list.h:59-73 | removing gives the doubly linked list without the object, with the right first and last object |
| HashmapModel.LinkKeepsMap | src/hashmap.c:195-220 | linking an entry keeps buckets, order list and count consistent, appends its pair, and touches no foreign entry |
| HashmapModel.LinkKeepsMapExactlyWhen | src/hashmap.c:195-220 | linking an entry into a bucket keeps the map consistent exactly if that is the bucket of its key and the key is new |
| HashmapModel.LinkKeepsLists | src/hashmap.c:195-220 | linking an entry into any bucket keeps all lists linked, appends its pair, and touches no foreign entry |
| HashmapModel.MoveKeepsMapExactlyWhen | src/hashmap.c:665-686 | linking the entry found under a key into the bucket of that key keeps the map consistent exactly if it is the bucket of the entry's own key, and that key is new |
| HashmapModel.MisplacedIsNeverFound | src/hashmap.c:296-306 | an entry in a bucket that is not its key's is found under no key |
| HashmapModel.UnlinkKeepsMap | src/hashmap.c:222-248 | unlinking an entry keeps them consistent, removes its pair, keeps the order of the others |
| HashmapModel.ScanFinds | src/hashmap.c:296-306 | what a scan of one bucket finds is the pair of an equal key in the whole map |
| HashmapModel.ScanMisses | src/hashmap.c:296-306 | what a scan of one bucket misses is nowhere in the map |
| HashmapModel.PutAllKeys | src/hashmap.c:618-663 | merging or moving loses and doubles nothing: the keys are those of both maps, the old pairs stay in front, and pairs are conserved |
| HashmapModel.PutAllCopies | src/hashmap.c:688-702 | merging into an empty map is copying |
| HashmapModel.EraseErases | src/hashmap.c:372-389 | after erasing a key it is not found, and keys are still distinct |
| HashmapModel.EraseOther | src/hashmap.c:416-441 | erasing the new key's pair moves the old key's pair by one place at most and makes room for the new key |
| HashmapModel.KeptIs | src/hashmap.h:81-82 | what such a loop keeps is exactly what its body accepts |
| HashmapModel.CoarserMovesRight | src/hashmap.c:665-686 | an entry moved between maps lands in the right bucket whenever keys that are equal to the one map are equal to the other |
| Hashmap.Map.HashScan | src/hashmap.c:296-306 | finds the entry of the pair with an equal key, or NULL if there is none |
| Hashmap.Map.LinkEntry | src/hashmap.c:195-220 | on memory: the pair is appended and the map stays consistent |
| Hashmap.Map.UnlinkEntry | src/hashmap.c:222-248 | on memory: the pair is removed and the map stays consistent |
| Hashmap.Map.Put | src/hashmap.c:308-338 | 1 and appended if the key is new, 0 for the same value, -EEXIST for another one, -ENOMEM, and unchanged in these cases |
| Hashmap.Map.Replace | src/hashmap.c:340-355 | an equal key's pair is overwritten in place, else the pair is appended |
| Hashmap.Map.Remove | src/hashmap.c:372-389 | removes the pair of an equal key, returns its value, keeps the order of the others |
| Hashmap.Map.RemoveAndPut | src/hashmap.c:391-414 | -ENOENT or -EEXIST without effect, else the old pair is gone and the new one at the end |
| Hashmap.Map.RemoveAndReplace | src/hashmap.c:416-441 | -ENOENT without effect, else both old pairs are gone and the new one is at the end |
| Hashmap.Map.RemoveValue | src/hashmap.c:443-461 | removes the pair only if key and value match |
| Hashmap.Map.Get | src/hashmap.c:357-369 | the value under an equal key, or NULL |
| Hashmap.Map.StealFirst | src/hashmap.c:572-585 | takes out the oldest pair |
| Hashmap.Map.Clear | src/hashmap.c:288-294 | leaves no pair |
| Hashmap.Map.Move | src/hashmap.c:637-663 | moves the pairs whose keys are new, in order; exactly the others stay behind |
| Hashmap.Map.MoveOne | src/hashmap.c:665-686 | for maps with any hash and compare functions: -EEXIST or -ENOENT without effect, else one pair moves from its place to the other map's end; the map it moves to is consistent afterwards exactly if the entry belongs into the bucket of the key passed in and its own key is new there |
| Hashmap.MovedEntryIsLost | src/hashmap.c:665-686 | an entry moved to a map that compares keys otherwise, and found there neither under its own key nor under the one it was moved by |
| Hashmap.Map.ScanBucket | src/hashmap.c:296-306 | walking one bucket finds an entry with an equal key in it, or NULL if there is none |
| Hashmap.Map.Merge | src/hashmap.c:618-635 | adds copies of the pairs whose keys are new, in order, leaves the other map alone; if memory is short, exactly those before the failed one are added |
| Hashmap.Map.Copy | src/hashmap.c:688-702 | same pairs, same order; the original is unchanged |
| Hashmap.Map.Iterate | src/hashmap.c:463-496 | returns the pair at the iterator and moves to the next one |
| Hashmap.Map.ForeachRemoving | src/hashmap.h:81-82 | a loop that removes some of the entries just returned visits every initial pair up to the first NULL value once, in order, removes exactly those, and leaves the rest as it is |
| TilePool.AlignTo | src/macro.h:52-55 | rounding up gives a multiple of the unit and adds less than one unit |
| TilePool.BlockFits | src/hashmap.c:80-83 | a new block holds its header and exactly as many tiles as fit, at least 512 and at least twice as many as the last, and is the least whole number of pages for that |
| TilePool.TilesApart | src/hashmap.c:96-98 | carved tiles of all pools are pairwise disjoint |
| TilePool.CarveAddsTile | src/hashmap.c:96-99 | carving adds exactly one tile that was none before |
| TilePool.FreeKeepsFree | src/hashmap.c:101-104 | freeing pushes the tile on the free list; carved tiles are still exactly the live and the free ones |
| TilePool.Allocator.Allocate | src/hashmap.c:64-99 | hands out the first free tile if there is one, and always a tile that is not live; fails only if no tile was free, the newest pool was full and malloc failed; keeps the number of carved tiles at the high-water mark of live ones, with all pools but the newest full |
| TilePool.Allocator.Deallocate | src/hashmap.c:101-104 | the tile is free again and is the next to be handed out |
| TilePool.Allocator.LiveTilesApart | src/hashmap.c:64-104 | after any history live tiles are disjoint and each lies in the block it was carved from |
| PooledMaps.Heap.NewMap | src/hashmap.c:150-181 | a new map has no entries and leaves the others alone |
| PooledMaps.Heap.Put | src/hashmap.c:308-338 | over one pool and any number of maps: a tile is taken only if the key is new, and putting fails only if malloc does; the other maps keep their pairs, and the live tiles are exactly the entries of all maps, none of them shared |
| PooledMaps.Heap.Remove | src/hashmap.c:250-264 | the same for removing a pair, whose tile is freed |
| PooledMaps.Heap.Replace | src/hashmap.c:340-355 | the same for replacing: no tile is taken if the key is there |
| PooledMaps.Heap.RemoveValue | src/hashmap.c:443-461 | the same for removing a pair with a given value |
| PooledMaps.Heap.StealFirst | src/hashmap.c:572-585 | the same for taking out the oldest pair |
| PooledMaps.Heap.Clear | src/hashmap.c:288-294 | all tiles of the map are freed, and no others |
| PooledMaps.Heap.RemoveAndPut | src/hashmap.c:391-414 | the entry is filled anew; no tile is taken or freed |
| PooledMaps.Heap.RemoveAndReplace | src/hashmap.c:416-441 | the same, and the tile of the entry that stood under the new key is freed |
| PooledMaps.Heap.Move | src/hashmap.c:637-663 | entries change owner; no tile is taken or freed, and third maps keep their pairs |
| PooledMaps.Heap.MoveOne | src/hashmap.c:665-686 | the same for one entry that lands in the bucket of its own key |
| PooledMaps.Heap.Merge | src/hashmap.c:618-635 | tiles are taken for the pairs with new keys, in order, until malloc fails, and only then does it stop |
| PooledMaps.Heap.Copy | src/hashmap.c:688-702 | a new map with the same pairs in tiles of its own or, only if malloc fails, with none and no tiles; all others are kept |
| PooledMaps.Heap.EntriesApart | src/hashmap.c:64-104 | after any history no two entries of any maps overlap in memory |
| ShiftFds.SlotIsHeld | src/execute.c:84-98 | a slot that is taken is held by an entry still to come in the pass |
| ShiftFds.SlotIsVacated | src/execute.c:79-98 | the occupant of a blocked slot leaves it in the same pass, and nobody enters it |
| ShiftFds.PassMoves | src/execute.c:79-98 | moving an entry keeps what a pass maintains: the entries before the first blocked one have their slots |
| ShiftFds.SlotIsFree | src/execute.c:87-88 | with room for 2n+3 descriptors fcntl finds a free one |
| ShiftFds.Shift | src/execute.c:64-106 | ends with entry i at descriptor i+3, each naming its original file, nothing else open from 3 up, after at most n+1 passes; if fcntl fails every entry still names its file |
| InstallContext.ResolvePush | src/install.c:908-961 | the first request with a name decides where the unit is looked for |
| InstallContext.InfoOfIs | src/install.c:963-974 | an absolute path asks for the unit named at its end, to be looked for there; anything else is a name |
| InstallContext.TotalJoins | src/install.c:1328-1329 | the total of two lists is the sum of their totals |
| InstallContext.TotalOfOne | src/install.c:1015-1052 | a single unit adds the number of its Alias= and WantedBy= entries |
| InstallContext.DoneIsClosure | src/install.c:1298-1337 | an empty worklist means the names are the least set that holds the requests and is closed under Also= |
| InstallContext.StuckMeansUnloadable | src/install.c:1322-1327 | the operation stops early only if some unit of the closure does not load |
| InstallContext.Context.AddRequest | src/install.c:908-974 | a valid name is listed once, by name or path; an invalid one is refused |
| InstallContext.Context.AddAlso | src/install.c:976-1013 | all names in Also= are listed if all are valid, and -EINVAL otherwise |
| InstallContext.Context.LoadNext | src/install.c:1314-1329 | the unit moved to the done list was not on it, so the assertion on the move holds; a unit that is not there, or names something invalid, gives its own error |
| InstallContext.Context.Apply | src/install.c:1298-1337 | on success the done list is the Also= closure of the requests, each name once, and the result is the total of Alias= and WantedBy= entries; otherwise the result is the first error |
| InstallContext.Context.MarkForRemoval | src/install.c:1339-1378 | on success exactly the names of the closure are marked; otherwise exactly those before the unit that does not load, whose error is the result |
| Symlinks.LeastFixpointUnique | src/install.c:321-358 | there is only one set of links that has to go |
| Symlinks.TrailOf | src/install.c:226-260 | to every link that is considered a trail leads through directories that can be opened |
| Symlinks.TrailIsLink | src/install.c:226-260 | and every link that such a trail leads to is considered |
| Symlinks.RemovalIsForced | src/install.c:283-309 | a link to something marked, or to a removed link, has to go in every solution |
| Symlinks.FixpointReached | src/install.c:339-353 | when a pass marks nothing new, what was removed is the least fixpoint |
| Symlinks.Remover.ScanLink | src/install.c:260-313 | a link is removed exactly if it points to a marked path or base name and can be unlinked, and is then marked itself |
| Symlinks.Remover.ScanDir | src/install.c:188-319 | a scan of a tree removes only links that have to go, reports whether anything new was marked, and an error if a directory is there but cannot be opened |
| Symlinks.Remover.RemoveMarked | src/install.c:321-358 | terminates; unless opening the directory or duplicating its descriptor fails, the removed links are the least fixpoint of the marks, whatever the scan order, no removable link to a marked target is left, and without an error none at all; if one fails, its error is returned and only links that have to go are gone |
| Automount.FateIs | src/automount.c:430-489 | a request is answered exactly if the descriptor opens at an attempt to answer before the unit is started anew, and lost exactly if the unit is started anew before that |
| Automount.AskKeepsAccount | src/automount.c:786-791 | reading a request keeps the account of all requests |
| Automount.FailureKeepsAccount | src/automount.c:440-443 | an attempt that fails keeps the account, and loses nothing |
| Automount.SuccessKeepsAccount | src/automount.c:453-466 | answering all pending requests keeps the account |
| Automount.ForgetKeepsAccount | src/automount.c:485-486 | starting anew loses exactly the requests that are pending |
| Automount.Unit.SendReady | src/automount.c:430-473 | answers all pending requests with the status, each once, or none if the descriptor does not open |
| Automount.Unit.SetState | src/automount.c:232-250 | leaving waiting and running closes the pipe and answers what is pending with -EHOSTDOWN |
| Automount.Unit.EnterDead | src/automount.c:293-300 | ends in failed exactly if a failure is noted; what is pending is answered with -EHOSTDOWN if the descriptor opens |
| Automount.Unit.EnterWaiting | src/automount.c:475-564 | forgets what was pending and ends in waiting or, if a system call fails, in failed |
| Automount.Unit.EnterRunning | src/automount.c:566-605 | ends in running with the requests pending, or answers them |
| Automount.Unit.Start | src/automount.c:607-625 | refuses with -EEXIST or -ENOENT without effect, else enters waiting; requests are lost exactly if it is not refused while some are pending |
| Automount.Unit.Stop | src/automount.c:627-636 | ends in dead, with what was pending answered with -EHOSTDOWN if the descriptor opens |
| Automount.Unit.FdEvent | src/automount.c:747-803 | every request read is accounted for: pending, or answered |
| Automount.Unit.MountDone | src/mount.c:640-650 | the outcome of mounting answers everything pending with its status, or nothing if the descriptor does not open |
| Automount.Unit.ResetFailed | src/automount.c:812-821 | failed becomes dead and nothing is answered |
| Automount.Unit.RequestsAreAnswered | src/automount.c:430-473 | over any history the answers with a token are as many as its requests with that fate, one is pending exactly if the token is, and some request was lost exactly if the unit was at some time started right after an attempt to answer failed |
| Automount.Unit.AllAnsweredExactlyWhen | src/automount.c:430-489 | while the unit is down, every request that ever came was answered exactly if the last attempt to answer did not fail, nor any that a start followed |
| Automount.RequestIsLost | src/automount.c:440-443 | a history in which the descriptor does not open at a stop and the next start loses a request |
| Automount.RequestIsAnsweredLater | src/automount.c:440-443 | a history in which the descriptor does not open once and the request is answered all the same |
| Devices.PrependKeeps | src/device.c:215-234 | adding a device keeps every device in exactly the chain of its path, and the key owned by the chain's head |
| Devices.RemoveKeepsIndex | src/device.c:39-59 | removing a device keeps the index right, the key re-owned by the new head |
| Devices.FollowingIsFlat | src/device.c:384-406 | a followed unit follows nobody |
| Devices.OneLeader | src/device.c:384-406 | if at most one unit of a chain is named after the path, all that follow follow the same one |
| Devices.Manager.SetSysfs | src/device.c:195-234 | a new device is put at the head of the chain of its path; a different path, compared component by component, is refused |
| Paths.FileNameIs | src/util.c:1240-1249 | the file name is what follows the last slash |
| Paths.PathEqual | src/util.c:1987-2018 | comparing two paths component by component tells whether they are the same without redundant slashes |
| Devices.Manager.Detach | src/device.c:39-59 | exactly the device leaves its chain, and nothing else changes |
| Devices.Manager.UnsetSysfs | src/device.c:39-59 | no key of the index is a string that was freed, and other paths are untouched |
| Devices.Manager.ProcessRemoved | src/device.c:365-382 | terminates; exactly the devices of the path lose it |
| Devices.Manager.Following | src/device.c:384-406 | the two loops compute the unit that is followed, which is another device of the same path that follows nobody itself |
| KillLoop.FirstHitPush | src/cgroup-util.c:233-242 | SIGCONT goes to the first process hit, unless an error came before |
| KillLoop.AllContinuedExactlyWhen | src/cgroup-util.c:233-242 | everybody who is hit also gets SIGCONT exactly if nobody who is hit comes after a signal that was delivered or refused |
| KillLoop.OneOfTwoContinued | src/cgroup-util.c:236-242 | two processes that are both hit, of which one gets SIGCONT |
| KillLoop.NoErrorCovers | src/cgroup-util.c:280-342 | if no error was met, each group of the tree was gone at its last reading, or everybody on its last list was reached |
| KillLoop.Killer.SignalAll | src/cgroup-util.c:223-252 | exactly those on the list who were not done or spared are signalled, and the pass is quiet exactly if there were none |
| KillLoop.Killer.Kill | src/cgroup-util.c:191-278 | terminates whatever each reading yields; nobody is signalled twice, and nobody who is on no list; everybody on every list read was signalled, and a complete last list holds nobody who was not on an earlier one; the result is the first error, or whether anything was delivered; SIGCONT goes to the first process hit if no error came before |
| KillLoop.Killer.KillRecursive | src/cgroup-util.c:280-342 | the same for every group of the tree, each after those before it, with nobody signalled twice in the whole tree and one SIGCONT at most for each group; the result is the first error met in the tree, or whether anything was delivered; without an error everybody on the last list of every group that is not gone was reached |
| Continuation.EndsEscaped | src/conf-parser.c:303-308 | the escape scan ends escaped exactly at an odd number of final backslashes |
| Continuation.TailIs | src/conf-parser.c:303-311 | the count is that of the backslashes at the end of the line |
| Continuation.ScanOfJoinIsScanOfLine | src/conf-parser.c:289-311 | rescanning the glued text decides like scanning the new line alone |
| Continuation.TakeLine | src/conf-parser.c:289-324 | one line extends the buffer, or completes the text held in it |
| Continuation.ParseLines | src/conf-parser.c:275-339 | exactly the logical lines are parsed, in order, up to the first that is refused, whose error is returned |
| Continuation.WrappedTextsReadBack | src/conf-parser.c:275-339 | texts cut into lines at unescaped blanks, in any way, read back as they were |
| Continuation.UnfinishedTextIsDropped | src/conf-parser.c:310-342 | final lines add no text exactly if all of them go on |

## Left out

- D-Bus: messages and the D-Bus queue are left out; only the removal signal of a job is recorded.
- Transactions: how jobs are collected, merged, ordered and checked for cycles in `src/manager.c` before they are installed; only the folding of types is modelled.
- JobManager.Manager.Install: what installing during a run means for the exclusion rule is left out, since a new job may be ordered before one that runs.
- JobManager.Manager.Deliver: only what a notification does to the job of the unit is modelled; retroactive dependencies, snapshots and the rest of `unit_notify` are left out.
- OnFailure=: the units whose OnFailure= is triggered are recorded in order; the jobs that this would install are not. `manager_check_finished` is left out.
- JobManager.Manager.DispatchRunQueue: a unit that asks for a retry and notifies other units in the same call is left out there, since dispatching then need not end (`JobRuns.RetriesGoOnForEver`).
- Job timers, job dumping, status messages, `job_type_is_redundant`: easy members.
- Integer widths: job ids, entry counts, tile numbers and block sizes are unbounded; the 32-bit and `size_t` limits are not modelled.
- Hash maps through NULL pointers, backward iteration, `hashmap_iterate_skip`, key-only and `get_strv` variants: easy members.
- PooledMaps.Heap.MoveOne: an entry that would land in a bucket its own key does not hash to is excluded by a precondition there, since the map would not be consistent any more; `Hashmap.Map.MoveOne` covers it.
- TilePool.Allocator.Allocate: that malloc returns a block apart from all others is a precondition; freeing whole pools (a debugging aid) is left out.
- ShiftFds.Shift: that all open descriptors from 3 up are entries, as the preceding `close_all_fds` leaves them (`src/execute.c:1268-1272`), is a precondition; the rest of `src/execute.c` is left out.
- InstallContext.Context.Apply: creating the symlinks is reduced to its result code, the `force` flag of `create_symlink` is left out, and unit files are a fixed map from names and paths.
- Symlinks.Remover.RemoveMarked: errors in the middle of reading a directory, the values of the errors of single entries, and the removal of empty parent directories are left out; a directory may be listed differently each time as long as its links are the same.
- Automount.Unit.FdEvent: reload, serialization and coldplug are left out; a token that is still pending does not come again.
- Automount.Unit.SendReady: an answer counts as sent even if the ioctl that delivers it fails; its result code is left out.
- Devices.Manager.SetSysfs: everything else that happens when a device appears is left out.
- KillLoop.Killer.Kill: memory running short in the set of processes is left out; `cg_kill_recursive_and_wait` is left out.
- Continuation.ParseLines: `.include`, the splitting of overlong lines by fgets, read errors and parsing proper are left out; what `parse_line` returns may depend on all texts so far.
- Out-of-memory paths other than those of the hash map and the tile pool.
- `src/bridge.c`, condition checks, cryptsetup, fsck and the other tools: left out.
