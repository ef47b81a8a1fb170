/** The bounded circular job queue of src/work_queue.cpp, without its mutex and condition variables. */
module Queue {
  import opened Jobs

  /** For 0 <= x < 2m, `x % m` is x itself or x - m. */
  lemma ModBelowTwice(x: int, m: int)
    requires 0 < m && 0 <= x < 2 * m
    ensures x % m == if x < m then x else x - m
  {
    if x >= m {
      assert x == m * 1 + (x - m);
    }
  }

  /** Advancing a ring cursor and then moving i further lands where moving i + 1 from the start does. */
  lemma RingStep(rd: int, i: int, m: int)
    requires 0 <= rd < m && 0 <= i < m
    ensures ((rd + 1) % m + i) % m == (rd + 1 + i) % m
  {
    ModBelowTwice(rd + 1, m);
    if rd + 1 < m {
    } else {
      ModBelowTwice(i, m);
    }
  }

  /** Moving a cursor one cell on from a reduced position agrees with reducing afterwards. */
  lemma ModSucc(a: int, m: int)
    requires 0 < m && 0 <= a < 2 * m - 1
    ensures (a % m + 1) % m == (a + 1) % m
  {
    ModBelowTwice(a, m);
    ModBelowTwice(a + 1, m);
    ModBelowTwice(a % m + 1, m);
  }

  /** Distinct offsets below the capacity name distinct cells of the ring. */
  lemma RingCellsDistinct(rd: int, i: int, j: int, m: int)
    requires 0 <= rd < m && 0 <= i < j < m
    ensures (rd + i) % m != (rd + j) % m
  {
    ModBelowTwice(rd + i, m);
    ModBelowTwice(rd + j, m);
  }

  /** Dropping the head of a ring segment and stepping its start keeps the rest in place. */
  lemma RingDropHead<T>(r: seq<T>, c: seq<T>, rd: int, m: int)
    requires |r| == m && 0 <= rd < m && 0 < |c| <= m
    requires forall i :: 0 <= i < |c| ==> r[(rd + i) % m] == c[i]
    ensures forall i :: 0 <= i < |c| - 1 ==> r[((rd + 1) % m + i) % m] == c[1..][i]
  {
    forall i | 0 <= i < |c| - 1
      ensures r[((rd + 1) % m + i) % m] == c[1..][i]
    {
      RingStep(rd, i, m);
      assert r[(rd + (i + 1)) % m] == c[i + 1];
    }
  }

  /**
   * A fixed-capacity ring of work-item references with a write cursor, a read
   * cursor, an occupancy count and a count of dequeued jobs still running.
   * `Contents` is the FIFO the ring holds, oldest first.
   */
  class WorkQueue {
    const ring: array<WorkItem?>   // m_ppc_work_item_queue
    const capacity: int            // m_i_queue_size
    var size: int                  // m_i_curr_queue_size
    var readLoc: int               // m_i_curr_rd_loc
    var writeLoc: int              // m_i_curr_w_loc
    var pending: int               // m_i_pending_jobs
    ghost var Contents: seq<WorkItem>

    ghost predicate Valid()
      reads this, ring
    {
      && ring.Length == capacity
      && 0 <= size <= capacity
      && 0 <= pending
      && (capacity == 0 ==> readLoc == 0 && writeLoc == 0)
      && (capacity > 0 ==>
            && 0 <= readLoc < capacity
            && 0 <= writeLoc < capacity
            && (readLoc + size) % capacity == writeLoc)
      && |Contents| == size
      && forall i :: 0 <= i < size ==> ring[(readLoc + i) % capacity] == Contents[i]
    }

    /**
     * The state `wait_for_queue_empty` waits for: nothing buffered and
     * nothing dequeued but unfinished.
     */
    predicate Drained()
      requires Valid()
      reads this, ring
      ensures Drained() <==> Contents == [] && pending == 0
      ensures Drained() <==> !(pending > 0 || size > 0)
    {
      pending == 0 && size == 0
    }

    constructor (queueSize: nat)
      ensures Valid() && fresh(ring)
      ensures capacity == queueSize && size == 0 && pending == 0
      ensures readLoc == 0 && writeLoc == 0 && Contents == []
    {
      capacity := queueSize;
      size := 0;
      writeLoc := 0;
      readLoc := 0;
      pending := 0;
      ring := new WorkItem?[queueSize];
      Contents := [];
    }

    /** Enqueue at the back: 1 and no change when full, otherwise 0. */
    method AddToJob(item: WorkItem) returns (r: int)
      requires Valid()
      modifies this, ring
      ensures Valid()
      ensures r == if old(size) == capacity then 1 else 0
      ensures old(size) == capacity ==> unchanged(this, ring)
      ensures old(size) < capacity ==>
        && ring[old(writeLoc)] == item
        && writeLoc == (old(writeLoc) + 1) % capacity
        && size == old(size) + 1
        && readLoc == old(readLoc) && pending == old(pending)
        && Contents == old(Contents) + [item]
    {
      if size == capacity {
        return 1;
      }
      ghost var w := writeLoc;
      ghost var before := ring[..];
      ring[writeLoc] := item;
      writeLoc := (writeLoc + 1) % capacity;
      size := size + 1;
      Contents := Contents + [item];
      forall i | 0 <= i < size
        ensures ring[(readLoc + i) % capacity] == Contents[i]
      {
        if i < size - 1 {
          RingCellsDistinct(readLoc, i, size - 1, capacity);
          assert ring[(readLoc + i) % capacity] == before[(readLoc + i) % capacity];
        }
      }
      ModSucc(readLoc + size - 1, capacity);
      r := 0;
    }

    /**
     * Blocking dequeue from the front. The source waits while the queue is
     * empty; sequentially that wait is the precondition `size > 0`.
     */
    method GetNextJob() returns (item: WorkItem)
      requires Valid() && size > 0
      modifies this
      ensures Valid()
      ensures item == old(Contents)[0] && Contents == old(Contents)[1..]
      ensures readLoc == (old(readLoc) + 1) % capacity && size == old(size) - 1
      ensures writeLoc == old(writeLoc) && pending == old(pending)
    {
      ModBelowTwice(readLoc, capacity);
      assert ring[(readLoc + 0) % capacity] == Contents[0];
      item := ring[readLoc];
      Advance();
    }

    /** Non-blocking dequeue: None with no change on an empty queue. */
    method GetNextJobNoWait() returns (item: WorkItem?)
      requires Valid()
      modifies this
      ensures Valid()
      ensures old(size) == 0 ==> item == null && unchanged(this)
      ensures old(size) > 0 ==>
        && item == old(Contents)[0] && Contents == old(Contents)[1..]
        && readLoc == (old(readLoc) + 1) % capacity && size == old(size) - 1
        && writeLoc == old(writeLoc) && pending == old(pending)
    {
      item := null;
      if size > 0 {
        ModBelowTwice(readLoc, capacity);
        assert ring[(readLoc + 0) % capacity] == Contents[0];
        item := ring[readLoc];
        Advance();
      }
    }

    /** The read-cursor step shared by both dequeues. */
    method Advance()
      requires Valid() && size > 0
      modifies this
      ensures Valid()
      ensures Contents == old(Contents)[1..]
      ensures readLoc == (old(readLoc) + 1) % capacity && size == old(size) - 1
      ensures writeLoc == old(writeLoc) && pending == old(pending)
    {
      ghost var rd := readLoc;
      RingDropHead(ring[..], Contents, readLoc, capacity);
      RingStep(rd, size - 1, capacity);
      ModBelowTwice(rd + 1, capacity);
      readLoc := (readLoc + 1) % capacity;
      size := size - 1;
      Contents := Contents[1..];
    }

    /** The current occupancy; changes nothing. */
    method GetNumJobsInQueue() returns (n: int)
      requires Valid()
      ensures n == |Contents| && 0 <= n <= capacity
    {
      n := size;
    }

    /** A worker took a job and starts running it. */
    method IncNumJobsInProcess()
      requires Valid()
      modifies this`pending
      ensures Valid() && pending == old(pending) + 1
    {
      pending := pending + 1;
    }

    /**
     * A worker finished a job. `drainSignalled` tells whether the source
     * signals the queue-empty condition, waking `wait_for_queue_empty`.
     * The source has no guard against going negative: a call must follow
     * a matching `IncNumJobsInProcess`.
     */
    method SetJobDone() returns (drainSignalled: bool)
      requires Valid() && pending > 0
      modifies this`pending
      ensures Valid() && pending == old(pending) - 1
      ensures drainSignalled <==> Drained()
    {
      pending := pending - 1;
      drainSignalled := pending == 0 && size == 0;
    }
  }
}
