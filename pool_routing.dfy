/**
 * Fixed-assignment routing of src/pthread_queue.cpp: which per-thread queue
 * job index `job` goes to, and how many jobs of one batch each queue receives.
 */
module Routing {

  /** A positive number times at least one is at least itself. */
  lemma {:induction false} MulAtLeast(b: int, k: int)
    requires 0 < b && 1 <= k
    ensures b * k >= b
    decreases k
  {
    if k > 1 {
      MulAtLeast(b, k - 1);
      assert b * k == b * (k - 1) + b;
    }
  }

  /** If a = b*q + r with 0 <= r < b, then q and r are a's quotient and remainder. */
  lemma DivModUnique(a: int, b: int, q: int, r: int)
    requires 0 < b && 0 <= r < b && a == b * q + r
    ensures a / b == q && a % b == r
  {
    var q', r' := a / b, a % b;
    assert b * (q - q') == r' - r;
    if q - q' >= 1 {
      MulAtLeast(b, q - q');
    } else if q' - q >= 1 {
      assert b * (q' - q) == r - r';
      MulAtLeast(b, q' - q);
    }
  }

  /** Integer division by a positive number is monotone. */
  lemma DivMonotone(a: nat, c: nat, n: nat)
    requires 0 < n && a <= c
    ensures a / n <= c / n
  {
    var qa, qc := a / n, c / n;
    if qa > qc {
      assert n * qa == n * qc + n * (qa - qc);
      MulAtLeast(n, qa - qc);
    }
  }

  /** How quotient and remainder move from c - 1 to c. */
  lemma DivModStep(c: int, n: int)
    requires 1 <= c && 0 < n
    ensures (c - 1) % n + 1 < n ==> c / n == (c - 1) / n && c % n == (c - 1) % n + 1
    ensures (c - 1) % n + 1 == n ==> c / n == (c - 1) / n + 1 && c % n == 0
  {
    var d, r := (c - 1) / n, (c - 1) % n;
    assert c == n * d + r + 1;
    if r + 1 < n {
      DivModUnique(c, n, d, r + 1);
    } else {
      assert n * (d + 1) == n * d + n;
      DivModUnique(c, n, d + 1, 0);
    }
  }

  /** The queue index the source computes: `m_i_curr_job % (m_i_num_threads + 1)`. */
  function RouteAsWritten(job: nat, numThreads: nat): (q: nat)
    ensures q <= numThreads
  {
    job % (numThreads + 1)
  }

  /**
   * Only `numThreads` queues exist, yet whenever a batch has more than
   * `numThreads` slots the job in slot `numThreads` is routed to queue
   * `numThreads`, one past the last.
   */
  lemma AsWrittenRouteLeavesQueues(numThreads: nat, numJobs: nat)
    requires 1 <= numThreads < numJobs
    ensures exists job :: 0 <= job < numJobs && RouteAsWritten(job, numThreads) == numThreads
  {
    DivModUnique(numThreads, numThreads + 1, 0, numThreads);
    assert RouteAsWritten(numThreads, numThreads) == numThreads;
  }

  /** The corrected routing: job index modulo the number of queues. */
  function Route(job: nat, numThreads: nat): (q: nat)
    requires numThreads > 0
    ensures q < numThreads
  {
    job % numThreads
  }

  /** How many of the job indices 0 .. c-1 are routed to queue q. */
  function RoutedCount(c: nat, n: nat, q: nat): nat
    requires n > 0
  {
    if c == 0 then 0 else RoutedCount(c - 1, n, q) + (if Route(c - 1, n) == q then 1 else 0)
  }

  /** Round-robin share: queue q receives c/n jobs, one more if q is below c mod n. */
  lemma {:induction false} RoutedCountClosedForm(c: nat, n: nat, q: nat)
    requires 0 < n && q < n
    ensures RoutedCount(c, n, q) == c / n + (if q < c % n then 1 else 0)
  {
    if c == 0 {
      DivModUnique(0, n, 0, 0);
    } else {
      RoutedCountClosedForm(c - 1, n, q);
      DivModStep(c, n);
    }
  }

  /** Counting further jobs never lowers a queue's share. */
  lemma {:induction false} RoutedCountMonotone(c: nat, c': nat, n: nat, q: nat)
    requires 0 < n && c <= c'
    ensures RoutedCount(c, n, q) <= RoutedCount(c', n, q)
    decreases c' - c
  {
    if c < c' {
      RoutedCountMonotone(c, c' - 1, n, q);
    }
  }

  /**
   * Under the corrected routing, the queue that job k (< numJobs) goes to
   * holds fewer than its capacity `1 + numJobs / n` jobs of the batch so
   * far, so the enqueue finds room.
   */
  lemma FixedQueueHasRoom(k: nat, numJobs: nat, n: nat)
    requires 0 < n && k < numJobs
    ensures RoutedCount(k, n, Route(k, n)) < 1 + numJobs / n
  {
    RoutedCountClosedForm(k, n, Route(k, n));
    DivMonotone(k, numJobs, n);
  }

  /** A whole batch of numJobs jobs fits in every per-thread queue. */
  lemma BatchFitsFixedQueue(numJobs: nat, n: nat, q: nat)
    requires 0 < n && q < n
    ensures RoutedCount(numJobs, n, q) <= 1 + numJobs / n
  {
    RoutedCountClosedForm(numJobs, n, q);
  }
}
