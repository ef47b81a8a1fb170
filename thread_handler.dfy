/**
 * The worker handle of src/thread_handler.cpp. The pthread calls are not
 * modelled: their return codes are inputs, and the endless `run_thread`
 * loop is modelled one iteration at a time.
 */
module Workers {
  import opened Common
  import opened Jobs
  import opened Queue

  class ThreadHandler {
    const threadNum: int            // m_i_thread_num
    const queue: WorkQueue          // m_pc_work_queue, shared with the pool
    var status: int                 // m_i_status: 1 running, 0 idle
    var detached: int               // m_i_detached: 1 detached or joined, 0 otherwise
    var defaultFunc: Option<FuncId> // m_p_func_ptr, used for jobs without a function

    /** Both flags are 0 or 1, and only a started thread can be detached or joined. */
    ghost predicate Valid()
      reads this
    {
      && (status == 0 || status == 1)
      && (detached == 0 || detached == 1)
      && (detached == 1 ==> status == 1)
    }

    constructor (threadNum: int, queue: WorkQueue)
      ensures Valid()
      ensures this.threadNum == threadNum && this.queue == queue
      ensures status == 0 && detached == 0 && defaultFunc == None
    {
      this.threadNum := threadNum;
      this.queue := queue;
      status := 0;
      detached := 0;
      defaultFunc := None;
    }

    /** `createResult` is what pthread_create returned; 0 means the thread runs. */
    method StartThread(createResult: int) returns (r: int)
      requires Valid()
      modifies this`status
      ensures Valid()
      ensures r == createResult
      ensures status == if createResult == 0 then 1 else old(status)
    {
      r := createResult;
      if r == 0 {
        status := 1;
      }
    }

    /** Join: -1 and no change unless running; `joinResult` is what pthread_join returned. */
    method WaitTillThreadFinished(joinResult: int) returns (r: int)
      requires Valid()
      modifies this`detached
      ensures Valid()
      ensures status != 1 ==> r == -1 && detached == old(detached)
      ensures status == 1 ==>
        && r == joinResult
        && detached == if joinResult == 0 then 1 else old(detached)
      ensures old(detached) == 1 ==> detached == 1
    {
      r := -1;
      if status == 1 {
        r := joinResult;
        if r == 0 {
          detached := 1;
        }
      }
    }

    /** Detach: acts only on a running, undetached thread; otherwise -1 and no change. */
    method DetachThread(detachResult: int) returns (r: int)
      requires Valid()
      modifies this`detached
      ensures Valid()
      ensures !(status == 1 && old(detached) == 0) ==> r == -1 && detached == old(detached)
      ensures status == 1 && old(detached) == 0 ==>
        && r == detachResult
        && detached == if detachResult == 0 then 1 else 0
      ensures old(detached) == 1 ==> detached == 1
    {
      r := -1;
      if status == 1 && detached == 0 {
        r := detachResult;
        if r == 0 {
          detached := 1;
        }
      }
    }

    method SetDefaultFunction(f: Option<FuncId>)
      modifies this`defaultFunc
      ensures defaultFunc == f
    {
      defaultFunc := f;
    }

    /** The callback a job runs: its own function if set, else the worker's default. */
    function Callback(func: Option<FuncId>): (f: FuncId)
      requires func.Some? || defaultFunc.Some?
      reads this
      ensures func.Some? ==> f == func.value
      ensures func.None? ==> Some(f) == defaultFunc
    {
      if func.Some? then func.value else defaultFunc.value
    }

    /**
     * One iteration of the run loop: take the head job (the blocking wait is
     * the precondition `size > 0`), count it in process, stamp this worker's
     * number on it, call its callback (returned as `called`; its effect is
     * not modelled) and count it done. A job without a function needs a
     * registered default: the source would call through NULL.
     */
    method RunOnce() returns (item: WorkItem, called: FuncId, drainSignalled: bool)
      requires queue.Valid() && queue.size > 0
      requires queue.Contents[0].func.Some? || defaultFunc.Some?
      modifies queue, queue.Contents[0]
      ensures queue.Valid()
      ensures item == old(queue.Contents[0]) && queue.Contents == old(queue.Contents[1..])
      ensures queue.pending == old(queue.pending)
      ensures item.threadNum == threadNum
      ensures item.func == old(item.func) && item.itemNum == old(item.itemNum)
      ensures item.args == old(item.args) && item.threadTime == old(item.threadTime)
      ensures called == Callback(item.func)
      ensures drainSignalled <==> queue.Drained()
    {
      item := queue.GetNextJob();
      queue.IncNumJobsInProcess();
      item.threadNum := threadNum;
      called := Callback(item.func);
      drainSignalled := queue.SetJobDone();
    }
  }
}
