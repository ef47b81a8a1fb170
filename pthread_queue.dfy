/**
 * The thread-pool orchestrator of src/pthread_queue.cpp: the ring of job
 * slots, the submission index, and the routing of jobs either to one shared
 * queue (dynamic mode) or to one queue per worker (fixed mode). Blocking
 * waits are preconditions; worker threads run as explicit `RunWorker` steps.
 */
module Pool {
  import opened Common
  import opened Jobs
  import opened Queue
  import opened Workers
  import opened Routing

  class ThreadPool {
    var fixedAssign: bool             // m_b_fixed_assign
    var numThreads: int               // m_i_num_threads
    var numJobs: int                  // m_i_num_jobs
    var currJob: int                  // m_i_curr_job
    var sharedQueue: WorkQueue?       // m_pc_work_queue
    var fixedQueues: seq<WorkQueue>   // m_ppc_fixed_work_queue
    var handlers: seq<ThreadHandler>  // m_ppc_thread_handler
    var slots: seq<WorkItem>          // m_ppc_work_item
    ghost var Repr: set<object>

    /** The slots are distinct objects of the pool; handler t is worker t. */
    ghost predicate SlotsAndHandlersValid()
      reads this, Repr
    {
      && 0 <= numThreads && 0 <= numJobs
      && |handlers| == numThreads && |slots| == numJobs
      && 0 <= currJob <= numJobs
      && (forall k :: 0 <= k < numJobs ==> slots[k] in Repr)
      && (forall k, l :: 0 <= k < l < numJobs ==> slots[k] != slots[l])
      && (forall t :: 0 <= t < numThreads ==> handlers[t] in Repr && handlers[t].threadNum == t)
    }

    /** A live queue of the pool: valid, of the given capacity, holding only pool slots. */
    ghost predicate LiveQueue(q: WorkQueue, cap: int, bound: int)
      reads this, q, q.ring
    {
      && q.Valid()
      && q.capacity == cap
      && q.size <= bound
      && forall x :: x in q.Contents ==> x in slots
    }

    /**
     * Dynamic mode: one shared queue as large as the slot ring, every
     * worker bound to it, and no more jobs queued than were submitted in
     * this batch, so it can never be full when a job is submitted.
     */
    ghost predicate DynamicValid()
      reads this, Repr
      requires SlotsAndHandlersValid()
    {
      && sharedQueue != null
      && sharedQueue in Repr && sharedQueue.ring in Repr
      && LiveQueue(sharedQueue, numJobs, currJob)
      && forall t :: 0 <= t < numThreads ==> handlers[t].queue == sharedQueue
    }

    /**
     * Fixed mode: worker q owns queue q of capacity `1 + numJobs/numThreads`,
     * which holds no more than the jobs of this batch routed to it.
     */
    ghost predicate FixedValid()
      reads this, Repr
      requires SlotsAndHandlersValid()
    {
      && numThreads >= 1
      && |fixedQueues| == numThreads
      && (forall q :: 0 <= q < numThreads ==>
            && fixedQueues[q] in Repr && fixedQueues[q].ring in Repr
            && handlers[q].queue == fixedQueues[q])
      && (forall q :: 0 <= q < numThreads ==>
            LiveQueue(fixedQueues[q], 1 + numJobs / numThreads, RoutedCount(currJob, numThreads, q)))
      && (forall q, r :: 0 <= q < r < numThreads ==>
            fixedQueues[q] != fixedQueues[r] && fixedQueues[q].ring != fixedQueues[r].ring)
    }

    ghost predicate Valid()
      reads this, Repr
    {
      && this in Repr
      && SlotsAndHandlersValid()
      && (fixedAssign ==> FixedValid())
      && (!fixedAssign && sharedQueue != null ==> DynamicValid())
      && (!fixedAssign && sharedQueue == null ==> numThreads == 0 && numJobs == 0)
    }

    /** A pool has been sized by one of the two `make` operations. */
    predicate Configured()
      reads this
    {
      fixedAssign || sharedQueue != null
    }

    /** Every live queue is drained: what the batch waits block for. */
    ghost predicate AllDrained()
      reads this, Repr
      requires Valid()
    {
      if fixedAssign then forall q :: 0 <= q < numThreads ==> fixedQueues[q].Drained()
      else sharedQueue != null && sharedQueue.Drained()
    }

    /** An empty pool: no threads, no jobs, no queues (the mode flag is uninitialised in the source). */
    constructor ()
      ensures Valid() && fresh(Repr - {this})
      ensures numThreads == 0 && numJobs == 0 && currJob == 0
      ensures sharedQueue == null && fixedQueues == [] && !Configured()
    {
      fixedAssign := false;
      numThreads, numJobs, currJob := 0, 0, 0;
      sharedQueue := null;
      fixedQueues, handlers, slots := [], [], [];
      Repr := {this};
    }

    /**
     * Size the pool for dynamic assignment: one shared queue of capacity
     * `nJobs`, `nThreads` workers bound to it and started (thread creation
     * returns `spawnResults[t]` for worker t; the pool ignores it), and
     * `nJobs` fresh slots. The previous configuration is dropped; the
     * per-worker queues of an earlier fixed configuration are left as they were.
     */
    method MakeThreadPool(nThreads: nat, nJobs: nat, spawnResults: seq<int>)
      requires |spawnResults| == nThreads
      modifies this
      ensures Valid() && fresh(Repr - {this})
      ensures !fixedAssign && Configured()
      ensures numThreads == nThreads && numJobs == nJobs && currJob == 0
      ensures sharedQueue != null && sharedQueue.capacity == nJobs
      ensures sharedQueue.Contents == [] && sharedQueue.pending == 0
      ensures forall t :: 0 <= t < nThreads ==>
        && handlers[t].queue == sharedQueue && handlers[t].defaultFunc == None
        && handlers[t].Valid() && handlers[t].detached == 0
        && handlers[t].status == (if spawnResults[t] == 0 then 1 else 0)
      ensures fixedQueues == old(fixedQueues)
    {
      var q := new WorkQueue(nJobs);
      var hs, hObjs := NewHandlers(seq(nThreads, _ => q), spawnResults);
      var ws, wObjs := NewSlots(nJobs);
      InstallDynamic(q, hs, ws, {q, q.ring} + hObjs + wObjs);
    }

    /** Adopt a fresh shared queue, workers and slots as the dynamic-mode configuration. */
    method InstallDynamic(q: WorkQueue, hs: seq<ThreadHandler>, ws: seq<WorkItem>, ghost objs: set<object>)
      requires this !in objs && q in objs && q.ring in objs
      requires q.Valid() && q.capacity == |ws| && q.Contents == []
      requires forall t :: 0 <= t < |hs| ==> hs[t] in objs && hs[t].threadNum == t && hs[t].queue == q
      requires forall k :: 0 <= k < |ws| ==> ws[k] in objs
      requires forall k, l :: 0 <= k < l < |ws| ==> ws[k] != ws[l]
      modifies this
      ensures Valid() && Repr == {this} + objs
      ensures !fixedAssign && numThreads == |hs| && numJobs == |ws| && currJob == 0
      ensures sharedQueue == q && handlers == hs && slots == ws && fixedQueues == old(fixedQueues)
    {
      fixedAssign := false;
      numThreads, numJobs, currJob := |hs|, |ws|, 0;
      sharedQueue := q;
      handlers, slots := hs, ws;
      Repr := {this} + objs;
      assert SlotsAndHandlersValid();
      assert LiveQueue(q, numJobs, 0);
      assert DynamicValid();
    }

    /**
     * Size the pool for fixed assignment: `nThreads` queues of capacity
     * `1 + nJobs/nThreads`, worker t bound to queue t and started, and
     * `nJobs` fresh slots. The source divides by `nThreads`, so it must be
     * positive. The shared queue of an earlier dynamic configuration is left as it was.
     */
    method MakeThreadPoolFixed(nThreads: nat, nJobs: nat, spawnResults: seq<int>)
      requires nThreads >= 1 && |spawnResults| == nThreads
      modifies this
      ensures Valid() && fresh(Repr - {this})
      ensures fixedAssign && Configured()
      ensures numThreads == nThreads && numJobs == nJobs && currJob == 0
      ensures |fixedQueues| == nThreads
      ensures forall t :: 0 <= t < nThreads ==>
        && fixedQueues[t].capacity == 1 + nJobs / nThreads
        && fixedQueues[t].Contents == [] && fixedQueues[t].pending == 0
        && handlers[t].queue == fixedQueues[t] && handlers[t].defaultFunc == None
        && handlers[t].Valid() && handlers[t].detached == 0
        && handlers[t].status == (if spawnResults[t] == 0 then 1 else 0)
      ensures sharedQueue == old(sharedQueue)
    {
      var qs, qObjs := NewQueues(nThreads, 1 + nJobs / nThreads);
      var hs, hObjs := NewHandlers(qs, spawnResults);
      var ws, wObjs := NewSlots(nJobs);
      InstallFixed(qs, hs, ws, qObjs + hObjs + wObjs);
    }

    /** Adopt fresh queues, workers and slots as the fixed-mode configuration. */
    method InstallFixed(qs: seq<WorkQueue>, hs: seq<ThreadHandler>, ws: seq<WorkItem>, ghost objs: set<object>)
      requires 1 <= |qs| == |hs| && this !in objs
      requires forall t :: 0 <= t < |qs| ==> qs[t] in objs && qs[t].ring in objs && hs[t] in objs
      requires forall t :: 0 <= t < |qs| ==>
        && qs[t].Valid() && qs[t].capacity == 1 + |ws| / |qs| && qs[t].Contents == []
        && hs[t].threadNum == t && hs[t].queue == qs[t]
      requires forall t, u :: 0 <= t < u < |qs| ==> qs[t] != qs[u] && qs[t].ring != qs[u].ring
      requires forall k :: 0 <= k < |ws| ==> ws[k] in objs
      requires forall k, l :: 0 <= k < l < |ws| ==> ws[k] != ws[l]
      modifies this
      ensures Valid() && Repr == {this} + objs
      ensures fixedAssign && numThreads == |qs| && numJobs == |ws| && currJob == 0
      ensures fixedQueues == qs && handlers == hs && slots == ws && sharedQueue == old(sharedQueue)
    {
      fixedAssign := true;
      numThreads, numJobs, currJob := |qs|, |ws|, 0;
      fixedQueues := qs;
      handlers, slots := hs, ws;
      Repr := {this} + objs;
      assert SlotsAndHandlersValid();
      forall t | 0 <= t < numThreads
        ensures LiveQueue(qs[t], 1 + numJobs / numThreads, RoutedCount(0, numThreads, t))
      {
      }
      assert FixedValid();
    }

    /**
     * Submit a job: fill the next slot with the job's number, argument and
     * callback and enqueue it on the shared queue (dynamic mode) or on queue
     * `Route(k, numThreads)` (fixed mode). When the whole slot ring is in use
     * the source first waits until every live queue is drained and restarts
     * the batch at slot 0; that wait is the second precondition. The
     * enqueue never meets a full queue, so the result is always 0.
     */
    method AddToJobQueue(func: Option<FuncId>, args: ArgsRef) returns (r: int)
      requires Valid() && Configured() && numJobs > 0
      requires currJob == numJobs ==> AllDrained()
      modifies Repr
      ensures Valid() && Repr == old(Repr) && r == 0
      ensures currJob == (if old(currJob) == numJobs then 0 else old(currJob)) + 1
      ensures fixedAssign == old(fixedAssign) && numThreads == old(numThreads) && numJobs == old(numJobs)
      ensures sharedQueue == old(sharedQueue) && fixedQueues == old(fixedQueues)
      ensures handlers == old(handlers) && slots == old(slots)
      ensures slots[currJob - 1].itemNum == currJob - 1
      ensures slots[currJob - 1].func == func && slots[currJob - 1].args == args
      ensures !fixedAssign ==> sharedQueue.Contents == old(sharedQueue.Contents) + [slots[currJob - 1]]
      ensures fixedAssign ==> forall q :: 0 <= q < numThreads ==>
        fixedQueues[q].Contents ==
          old(fixedQueues[q].Contents) + if q == Route(currJob - 1, numThreads) then [slots[currJob - 1]] else []
      ensures !fixedAssign ==> sharedQueue.pending == old(sharedQueue.pending)
      ensures fixedAssign ==> forall q :: 0 <= q < numThreads ==> fixedQueues[q].pending == old(fixedQueues[q].pending)
      ensures var k := currJob - 1;
        slots[k].threadNum == old(slots[k].threadNum) && slots[k].threadTime == old(slots[k].threadTime)
      ensures forall j :: 0 <= j < numJobs && j != currJob - 1 ==> unchanged(slots[j])
      ensures forall t :: 0 <= t < numThreads ==> unchanged(handlers[t])
    {
      RestartBatchIfFull();
      var k := currJob;
      FillSlot(k, func, args);
      if fixedAssign {
        r := EnqueueFixed(k);
      } else {
        r := EnqueueDynamic(k);
      }
    }

    /** The batch-full branch: with every queue drained, restart at slot 0. */
    method RestartBatchIfFull()
      requires Valid() && numJobs > 0
      requires currJob == numJobs ==> AllDrained()
      modifies this`currJob
      ensures Valid() && 0 <= currJob < numJobs
      ensures currJob == if old(currJob) == numJobs then 0 else old(currJob)
    {
      if currJob == numJobs {
        currJob := 0;
      }
    }

    /** Write the job's number, argument and callback into slot k. */
    method FillSlot(k: int, func: Option<FuncId>, args: ArgsRef)
      requires Valid() && 0 <= k < numJobs
      modifies slots[k]
      ensures Valid()
      ensures slots[k].itemNum == k && slots[k].func == func && slots[k].args == args
      ensures slots[k].threadNum == old(slots[k].threadNum) && slots[k].threadTime == old(slots[k].threadTime)
    {
      var w := slots[k];
      w.itemNum, w.args, w.func := k, args, func;
    }

    /** Fixed mode: enqueue slot k on queue `Route(k, numThreads)`, which has room. */
    method EnqueueFixed(k: int) returns (r: int)
      requires Valid() && fixedAssign && numThreads > 0 && 0 <= k == currJob < numJobs
      modifies this`currJob, fixedQueues[Route(k, numThreads)], fixedQueues[Route(k, numThreads)].ring
      ensures Valid() && currJob == k + 1 && r == 0
      ensures forall q :: 0 <= q < numThreads ==>
        fixedQueues[q].Contents ==
          old(fixedQueues[q].Contents) + if q == Route(k, numThreads) then [slots[k]] else []
      ensures forall q :: 0 <= q < numThreads ==> fixedQueues[q].pending == old(fixedQueues[q].pending)
    {
      var q := Route(k, numThreads);
      FixedQueueHasRoom(k, numJobs, numThreads);
      r := fixedQueues[q].AddToJob(slots[k]);
      currJob := k + 1;
    }

    /** Dynamic mode: enqueue slot k on the shared queue, which has room. */
    method EnqueueDynamic(k: int) returns (r: int)
      requires Valid() && !fixedAssign && sharedQueue != null && 0 <= k == currJob < numJobs
      modifies this`currJob, sharedQueue, sharedQueue.ring
      ensures Valid() && currJob == k + 1 && r == 0
      ensures sharedQueue.Contents == old(sharedQueue.Contents) + [slots[k]]
      ensures sharedQueue.pending == old(sharedQueue.pending)
    {
      r := sharedQueue.AddToJob(slots[k]);
      currJob := k + 1;
    }

    /**
     * Wait for the batch: every live queue drained (the blocking wait is the
     * precondition); the next submission starts again at slot 0.
     */
    method WaitQueueDone()
      requires Valid() && Configured() && AllDrained()
      modifies this`currJob
      ensures Valid() && currJob == 0
    {
      currJob := 0;
    }

    /**
     * Install `f` as worker t's default callback. A worker number beyond the
     * pool is the source's fatal error (it exits); here it returns false and
     * changes nothing.
     */
    method RegisterFunction(t: nat, f: Option<FuncId>) returns (ok: bool)
      requires Valid()
      modifies if t < numThreads then {handlers[t]} else {}
      ensures Valid()
      ensures ok <==> t < numThreads
      ensures ok ==> handlers[t].defaultFunc == f
      ensures ok ==> handlers[t].status == old(handlers[t].status) && handlers[t].detached == old(handlers[t].detached)
      ensures ok ==> handlers[t].queue == old(handlers[t].queue) && handlers[t].threadNum == old(handlers[t].threadNum)
    {
      if t >= numThreads {
        return false;
      }
      handlers[t].SetDefaultFunction(f);
      ok := true;
    }

    /**
     * One step of worker t's thread: it takes the head of its queue (the
     * blocking wait is the precondition that the queue is non-empty), stamps
     * its number on that job and calls the job's callback.
     */
    method RunWorker(t: int) returns (item: WorkItem, called: FuncId)
      requires Valid() && 0 <= t < numThreads
      requires handlers[t].queue.Valid() && handlers[t].queue.size > 0
      requires handlers[t].queue.Contents[0].func.Some? || handlers[t].defaultFunc.Some?
      modifies handlers[t].queue, handlers[t].queue.Contents[0]
      ensures Valid()
      ensures item == old(handlers[t].queue.Contents[0]) && item.threadNum == t
      ensures item.func == old(item.func) && item.args == old(item.args) && item.itemNum == old(item.itemNum)
      ensures item.threadTime == old(item.threadTime)
      ensures handlers[t].queue.pending == old(handlers[t].queue.pending)
      ensures handlers[t].queue.Contents == old(handlers[t].queue.Contents[1..])
      ensures called == handlers[t].Callback(item.func)
    {
      var h := handlers[t];
      var drained;
      item, called, drained := h.RunOnce();
    }

    /** The time recorded in slot k. */
    method GetJobTime(k: int) returns (time: int)
      requires Valid() && 0 <= k < numJobs
      ensures time == slots[k].threadTime
    {
      time := slots[k].threadTime;
    }

    /** The worker that last ran the job in slot k. */
    method GetThreadIdForJobId(k: int) returns (t: int)
      requires Valid() && 0 <= k < numJobs
      ensures t == slots[k].threadNum
    {
      t := slots[k].threadNum;
    }

    /** Allocate `n` fresh, empty, pairwise distinct queues of capacity `cap`. */
    static method NewQueues(n: nat, cap: nat) returns (qs: seq<WorkQueue>, ghost objs: set<object>)
      ensures |qs| == n && fresh(objs)
      ensures forall t :: 0 <= t < n ==> qs[t] in objs && qs[t].ring in objs
      ensures forall t :: 0 <= t < n ==>
        && fresh(qs[t]) && fresh(qs[t].ring) && qs[t].Valid()
        && qs[t].capacity == cap && qs[t].Contents == [] && qs[t].pending == 0
      ensures forall t, u :: 0 <= t < u < n ==> qs[t] != qs[u] && qs[t].ring != qs[u].ring
    {
      qs, objs := [], {};
      for t := 0 to n
        invariant |qs| == t && fresh(objs)
        invariant forall u :: 0 <= u < t ==> qs[u] in objs && qs[u].ring in objs
        invariant forall u :: 0 <= u < t ==>
          && fresh(qs[u]) && fresh(qs[u].ring) && qs[u].Valid()
          && qs[u].capacity == cap && qs[u].Contents == [] && qs[u].pending == 0
        invariant forall u, v :: 0 <= u < v < t ==> qs[u] != qs[v] && qs[u].ring != qs[v].ring
      {
        var q := new WorkQueue(cap);
        qs, objs := qs + [q], objs + {q, q.ring};
      }
    }

    /** Create worker t on `queues[t]` and start it; creation returns `spawnResults[t]`. */
    static method NewHandlers(queues: seq<WorkQueue>, spawnResults: seq<int>) returns (hs: seq<ThreadHandler>, ghost objs: set<object>)
      requires |spawnResults| == |queues|
      ensures |hs| == |queues| && fresh(objs)
      ensures forall t :: 0 <= t < |hs| ==> hs[t] in objs
      ensures forall t :: 0 <= t < |hs| ==>
        && fresh(hs[t]) && hs[t].threadNum == t && hs[t].queue == queues[t]
        && hs[t].Valid() && hs[t].detached == 0 && hs[t].defaultFunc == None
        && hs[t].status == (if spawnResults[t] == 0 then 1 else 0)
    {
      hs, objs := [], {};
      for t := 0 to |queues|
        invariant |hs| == t && fresh(objs)
        invariant forall u :: 0 <= u < t ==> hs[u] in objs
        invariant forall u :: 0 <= u < t ==>
          && fresh(hs[u]) && hs[u].threadNum == u && hs[u].queue == queues[u]
          && hs[u].Valid() && hs[u].detached == 0 && hs[u].defaultFunc == None
          && hs[u].status == (if spawnResults[u] == 0 then 1 else 0)
      {
        var h := new ThreadHandler(t, queues[t]);
        var _ := h.StartThread(spawnResults[t]);
        hs, objs := hs + [h], objs + {h};
      }
    }

    /** Allocate `n` fresh, pairwise distinct work items as the slot ring. */
    static method NewSlots(n: nat) returns (ws: seq<WorkItem>, ghost objs: set<object>)
      ensures |ws| == n && fresh(objs) && forall k :: 0 <= k < n ==> fresh(ws[k]) && ws[k] in objs
      ensures forall k, l :: 0 <= k < l < n ==> ws[k] != ws[l]
    {
      ws, objs := [], {};
      for k := 0 to n
        invariant |ws| == k && fresh(objs) && forall j :: 0 <= j < k ==> fresh(ws[j]) && ws[j] in objs
        invariant forall j, l :: 0 <= j < l < k ==> ws[j] != ws[l]
      {
        var w := new WorkItem();
        ws, objs := ws + [w], objs + {w};
      }
    }
  }
}
