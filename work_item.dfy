/** The job descriptor of inc/work_item.h. */
module Jobs {
  import opened Common

  /**
   * One unit of work. The pool keeps a fixed ring of these and overwrites
   * their fields in place on every submission; a worker stamps `threadNum`.
   */
  class WorkItem {
    var func: Option<FuncId>   // m_p_func_ptr; None is NULL (use the worker's default)
    var itemNum: int           // m_i_item_num
    var args: ArgsRef          // m_p_args
    var threadTime: int        // m_i_thread_time; nothing in the core assigns it
    var threadNum: int         // m_i_thread_num; written by the worker that runs the job

    /** The default constructor leaves every field indeterminate in the source; here they start at zero. */
    constructor ()
      ensures func == None && itemNum == 0 && args == 0 && threadTime == 0 && threadNum == 0
    {
      func, itemNum, args, threadTime, threadNum := None, 0, 0, 0, 0;
    }
  }
}
