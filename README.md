# wav2mp3 core in Dafny

This project models the sequential core of a multithreaded WAVE-to-MP3 batch
encoder written in C++, and proves properties of that model. The encoder
scans its command line and lists the `.wav` files to convert. It submits one
job per file to a home-made pthread pool and waits for each batch of 50.
Every worker reads the file's RIFF/WAVE header and PCM samples before handing
them to the MP3 codec.

The modelled parts, one Dafny module per source file:

- `Queue` (`work_queue.dfy`): the bounded circular job queue. It is a class
  over an array of work-item references with a write cursor, a read cursor,
  an occupancy count and a count of jobs taken but not finished. The ghost
  sequence `Contents` is the FIFO the ring holds. The blocking dequeue becomes
  a precondition that the queue is non-empty. The wait for an empty queue
  becomes the `Drained` predicate.
- `Jobs` (`work_item.dfy`): the job slot, with a callback identifier, an
  item number, an argument reference, a time and a worker number.
- `Workers` (`thread_handler.dfy`): the worker handle. It holds the
  status/detached flags around start, join and detach, with the pthread
  result codes as inputs. `RunOnce` is one iteration of the run loop.
- `Pool` and `Routing` (`pthread_queue.dfy`, `pool_routing.dfy`): the pool
  orchestrator. It covers the slot ring, the submission index and the batch
  restart. It routes each job to one shared queue (dynamic mode) or to one
  queue per worker (fixed mode). It also covers the per-queue capacities and
  the proof that no enqueue ever meets a full queue.
- `WaveFormat` and `WaveRead` (`wave_format.dfy`, `wave_read.dfy`): the WAVE
  reader.
  - It parses the canonical 44-byte header of the RIFF "WAVE" form (the
    "RIFF", "fmt " and "data" chunks of the Microsoft/IBM Multimedia
    Programming Interface and Data Specifications 1.0), little-endian, at
    fixed offsets.
  - It runs the nine compliance checks.
  - It derives the sample counts at initialisation.
  - It decodes interleaved samples, with the reader's own sign conversion,
    into a two-dimensional array.
  - The open file is the sequence of bytes it has not yet delivered.
- `App` (`app.dfy`): the driver's `main`. It covers the argv scan, the `.wav`
  filter and the `.mp3` output name, and the submission loop whose counter
  picks the argument slot.

Where the reader follows C semantics, the model writes them out:
- 32-bit and 16-bit fields are two's-complement readings of the little-endian
  bytes;
- the byte-rate product wraps at 32 bits;
- `/` truncates toward zero (`CDiv`);
- `>> 3` is a floor division;
- tags are copied with `strncpy`, so every byte after a NUL becomes NUL;
- dividing by zero, or `INT_MIN / -1`, is an explicit `DivideTrap` outcome.

The sign conversion is modelled as written: with `max = 2^(bits-1) - 1`, a
raw value above `max` loses `2 * max`. That is two's complement plus 2 on the
negative half, so raw all-ones (-1) comes out as +1
(`WaveFormat.SignConvertVsTwosComplement`, `WaveFormat.SignConvertCollides`).

Two facts of the pool code shape the model:
- Fixed-mode queues have capacity `1 + numJobs / numThreads`
  (src/pthread_queue.cpp:95).
- `set_job_done` decrements the in-flight count with no guard against it
  going negative (src/work_queue.cpp:101-115). `SetJobDone` therefore
  requires a matching earlier `IncNumJobsInProcess` (`pending > 0`).

## Model

| member | source | states |
|---|---|---|
| Jobs.WorkItem.constructor | inc/work_item.h:29 | a new slot has no callback and zero number, argument, time and worker |
| Queue.WorkQueue.constructor | src/work_queue.cpp:13-25 | a new queue has the requested capacity, occupancy 0, both cursors 0, nothing pending and empty contents |
| Queue.WorkQueue.AddToJob | src/work_queue.cpp:36-53 | on a full queue returns 1 and changes nothing; otherwise stores the item at the write cursor, advances it modulo capacity, grows occupancy by 1, appends the item to the FIFO and returns 0; the ring invariant is preserved |
| Queue.WorkQueue.GetNextJob | src/work_queue.cpp:55-68 | on a non-empty queue returns the oldest item, drops it from the FIFO, advances the read cursor modulo capacity and lowers occupancy by 1 |
| Queue.WorkQueue.GetNextJobNoWait | src/work_queue.cpp:70-84 | on an empty queue returns null with no change; otherwise behaves as the blocking dequeue |
| Queue.WorkQueue.Advance | src/work_queue.cpp:62-64 | the read-cursor step drops exactly the FIFO head and keeps the ring invariant |
| Queue.WorkQueue.GetNumJobsInQueue | src/work_queue.cpp:86-92 | returns the FIFO length, between 0 and the capacity, and changes nothing |
| Queue.WorkQueue.IncNumJobsInProcess | src/work_queue.cpp:94-99 | pending grows by exactly 1 and nothing else changes |
| Queue.WorkQueue.SetJobDone | src/work_queue.cpp:101-116 | pending drops by exactly 1; the drain signal fires exactly when nothing is queued or pending afterwards |
| Queue.WorkQueue.Drained | src/work_queue.cpp:118-126 | the exit condition of the empty-wait: no buffered item and nothing pending, equivalently an empty FIFO |
| Workers.ThreadHandler.constructor | src/thread_handler.cpp:12-18 | a new handler keeps its number and queue, with status 0, detached 0 and no default callback |
| Workers.ThreadHandler.StartThread | src/thread_handler.cpp:50-57 | status becomes 1 exactly when creation returns 0; the creation code is returned |
| Workers.ThreadHandler.WaitTillThreadFinished | src/thread_handler.cpp:59-69 | -1 and no change unless running; otherwise returns the join code and sets detached exactly when it is 0; detached never goes back to 0 |
| Workers.ThreadHandler.DetachThread | src/thread_handler.cpp:71-81 | acts only on a running, undetached thread, otherwise -1 with no change; detached becomes 1 exactly when the detach code is 0 and stays 1 |
| Workers.ThreadHandler.SetDefaultFunction | inc/thread_handler.h:69 | only the default callback changes, to the given one |
| Workers.ThreadHandler.Callback | src/thread_handler.cpp:41-44 | the job's own callback when set, otherwise the worker's registered default |
| Workers.ThreadHandler.RunOnce | src/thread_handler.cpp:33-48 | one loop iteration removes exactly the FIFO head, leaves pending unchanged, stamps the worker's number on that item and nothing else of it, and calls its callback |
| Routing.RouteAsWritten | src/pthread_queue.cpp:143 | the fixed-mode queue index as computed, `job mod (threads + 1)`, can reach `threads` |
| Routing.AsWrittenRouteLeavesQueues | src/pthread_queue.cpp:143 | with more slots than threads, some job of the batch is routed to queue `threads`, one past the last allocated queue |
| Routing.Route | src/pthread_queue.cpp:143 | the corrected index `job mod threads` always names an allocated queue |
| Routing.RoutedCountClosedForm | src/pthread_queue.cpp:142-147 | round-robin share: of the first c jobs, queue q receives c / n, plus one if q < c mod n |
| Routing.RoutedCountMonotone | src/pthread_queue.cpp:142-147 | submitting more jobs never lowers a queue's share |
| Routing.FixedQueueHasRoom | src/pthread_queue.cpp:93-95 | under the corrected routing, the queue that job k of a batch goes to holds fewer than its capacity `1 + numJobs / numThreads` |
| Routing.BatchFitsFixedQueue | src/pthread_queue.cpp:93-95 | a whole batch fits every per-thread queue |
| Pool.ThreadPool.constructor | src/pthread_queue.cpp:16-23 | an empty pool: no threads, no jobs, index 0, no queues, not configured |
| Pool.ThreadPool.MakeThreadPool | src/pthread_queue.cpp:25-65 | dynamic mode, index 0, one empty shared queue of capacity numJobs, worker t bound to it with number t, numJobs fresh slots; the pool invariant holds |
| Pool.ThreadPool.InstallDynamic | src/pthread_queue.cpp:48-64 | adopting the new queue, workers and slots establishes the dynamic-mode invariant |
| Pool.ThreadPool.MakeThreadPoolFixed | src/pthread_queue.cpp:67-108 | fixed mode, index 0, numThreads empty queues of capacity `1 + numJobs / numThreads`, worker t bound to queue t, numJobs fresh slots; the pool invariant holds |
| Pool.ThreadPool.InstallFixed | src/pthread_queue.cpp:88-107 | adopting the new queues, workers and slots establishes the fixed-mode invariant |
| Pool.ThreadPool.AddToJobQueue | src/pthread_queue.cpp:121-150 | restarts at slot 0 when the batch is full; writes the job number, argument and callback into the current slot; appends that slot to the shared queue or to its routed queue, leaving every other queue alone; advances the index; returns 0, and no queue overflows; no queue's in-process count, no worker and no other slot changes, and the filled slot keeps its thread number and time |
| Pool.ThreadPool.RestartBatchIfFull | src/pthread_queue.cpp:124-135 | with every queue drained, a full batch restarts at 0; the index then lies below numJobs |
| Pool.ThreadPool.FillSlot | src/pthread_queue.cpp:137-139 | only the slot's number, callback and argument change |
| Pool.ThreadPool.EnqueueFixed | src/pthread_queue.cpp:142-143 | the slot is appended to queue `Route(k)` only, and it had room; no queue's in-process count changes |
| Pool.ThreadPool.EnqueueDynamic | src/pthread_queue.cpp:144-145 | the slot is appended to the shared queue, which had room; its in-process count is unchanged |
| Pool.ThreadPool.WaitQueueDone | src/pthread_queue.cpp:152-164 | with every live queue drained, the index returns to 0 |
| Pool.ThreadPool.RegisterFunction | src/pthread_queue.cpp:110-119 | a worker number beyond the pool fails with no change; otherwise that worker's default callback becomes `f` while its status, detach flag, queue and number stay as they were |
| Pool.ThreadPool.RunWorker | src/thread_handler.cpp:38-45 | a worker step on the pool takes the head of that worker's queue, stamps the worker's number, leaves the job's callback, argument, number and time and the queue's in-process count as they were, returns the callback that was called, and keeps the pool invariant |
| Pool.ThreadPool.GetJobTime | src/pthread_queue.cpp:166-169 | returns the slot's recorded time, changing nothing |
| Pool.ThreadPool.GetThreadIdForJobId | src/pthread_queue.cpp:171-174 | returns the worker that last ran the slot, changing nothing |
| Pool.ThreadPool.NewQueues | src/pthread_queue.cpp:93-95 | n fresh, pairwise distinct, empty queues of the given capacity |
| Pool.ThreadPool.NewHandlers | src/pthread_queue.cpp:97-103 | worker t is fresh, numbered t, bound to queue t, and started when creation returns 0 |
| Pool.ThreadPool.NewSlots | src/pthread_queue.cpp:105-107 | n fresh, pairwise distinct slots |
| WaveFormat.LittleEndian | src/wave_read.cpp:302-306 | the value of n bytes, least significant first, lies below 2^(8n) |
| WaveFormat.LittleEndianAppend | src/wave_read.cpp:302-306 | one more byte adds at the next higher weight: the shift-and-add loop |
| WaveFormat.DecodeEncodeLE | src/wave_read.cpp:72-73 | decoding the n-byte encoding of v gives v |
| WaveFormat.EncodeDecodeLE | src/wave_read.cpp:72-73 | encoding a decoded byte sequence gives it back |
| WaveFormat.SignedUnsignedRoundTrip | src/wave_read.cpp:72-73 | two's-complement reading and the unsigned pattern are inverse |
| WaveFormat.Int32Wrap | src/wave_read.cpp:180-181 | a 32-bit result congruent to the exact value mod 2^32, equal to it when it fits |
| WaveFormat.CDiv | src/wave_read.cpp:47-48 | C division: the remainder is smaller than the divisor and has the dividend's sign |
| WaveFormat.StrNCpy | src/wave_read.cpp:65-67 | `strncpy` keeps n bytes, copies up to the first NUL and pads with NUL from there on |
| WaveFormat.StrNCpyPadded | src/wave_read.cpp:65-67 | copying an already padded tag changes nothing |
| WaveFormat.StrNCmpLiteral | src/wave_read.cpp:144 | `strncmp` against a NUL-free literal over its length is plain equality |
| WaveFormat.Int32Of | src/wave_read.cpp:70-73 | the shifted sum of four bytes stored in an `int` is a 32-bit value |
| WaveFormat.Int32OfSigned | src/wave_read.cpp:70-73 | that value is the little-endian value read as 32-bit two's complement |
| WaveFormat.Int16Of | src/wave_read.cpp:94-96 | the sum of two bytes stored in a `short int` is a 16-bit value |
| WaveFormat.Int16OfSigned | src/wave_read.cpp:94-96 | that value is the little-endian value read as 16-bit two's complement |
| WaveFormat.TagOf | src/wave_read.cpp:65-67 | a tag field is four NUL-padded bytes |
| WaveFormat.DecodeHeader | src/wave_read.cpp:55-138 | the header read from 44 bytes holds only values the C fields can hold |
| WaveFormat.Int32RoundTrip | src/wave_read.cpp:70-73 | every 32-bit value survives encoding and decoding |
| WaveFormat.Int16RoundTrip | src/wave_read.cpp:94-96 | every 16-bit value survives encoding and decoding |
| WaveFormat.Int32FromBytes | src/wave_read.cpp:70-73 | every four bytes survive decoding and encoding |
| WaveFormat.Int16FromBytes | src/wave_read.cpp:94-96 | every two bytes survive decoding and encoding |
| WaveFormat.DecodeEncodeHeader | src/wave_read.cpp:55-138 | parsing the canonical encoding of any header gives that header back |
| WaveFormat.EncodeDecodeHeader | src/wave_read.cpp:55-138 | re-encoding a parsed header gives the 44 bytes back whenever its tags are NUL-padded |
| WaveFormat.RiffFromBytes | src/wave_read.cpp:62-78 | the first 12 bytes re-encode exactly |
| WaveFormat.FmtFromBytes | src/wave_read.cpp:80-123 | bytes 12 to 35 re-encode exactly |
| WaveFormat.DataFromBytes | src/wave_read.cpp:125-136 | bytes 36 to 43 re-encode exactly |
| WaveFormat.LastFailing | src/wave_read.cpp:142-198 | the code the first k checks leave is at most k |
| WaveFormat.LastFailingMeaning | src/wave_read.cpp:142-198 | the code is 0 exactly when none of the checks fails; otherwise that check fails and no later one does |
| WaveFormat.SanityCode | src/wave_read.cpp:140-204 | the result of all nine checks lies in 0..9 |
| WaveFormat.TagChecksAreEquality | src/wave_read.cpp:144-178 | checks 1, 2, 3 and 6 fail exactly when the tag differs from "RIFF", "WAVE", "fmt " and "data" |
| WaveFormat.CanonicalHeaderPasses | src/wave_read.cpp:140-204 | the header a writer lays down for mono or stereo 8/16/24-bit PCM passes all nine checks |
| WaveFormat.ProductFitsInt32 | src/wave_read.cpp:180-181 | for such headers the byte-rate product cannot overflow |
| WaveFormat.NoChannelHeaderPasses | src/wave_read.cpp:194-198 | a canonical header with 0 channels also passes, though its frame size is 0 |
| WaveFormat.FormatCheckReadsOwnHeader | src/wave_read.cpp:168-178 | checks 5 and 6 judge the reader's own header, so a non-PCM argument passes them |
| WaveFormat.SignConvertVsTwosComplement | src/wave_read.cpp:307 | the conversion is two's complement plus 2 on the negative half |
| WaveFormat.SignConvertCollides | src/wave_read.cpp:307 | raw 1 and raw all-ones both convert to 1 |
| WaveFormat.RawSample | src/wave_read.cpp:298-306 | the raw sample of channel j in frame i is the little-endian value of its bytes, below 2^(8 bytes) |
| WaveRead.FramesRead | src/wave_read.cpp:290-292 | the decoded frame count is the largest count fitting the bytes read, capped by the request |
| WaveRead.WaveReader.constructor | src/wave_read.cpp:14-20 | no file and no sample buffer |
| WaveRead.WaveReader.FillWaveHeader | src/wave_read.cpp:55-138 | stepping the cursor through the 44 header bytes yields the decoded header |
| WaveRead.WaveReader.SanityCheck | src/wave_read.cpp:140-204 | returns the last failing check, 0 when all pass, and sets the pass flag exactly when it is 0 |
| WaveRead.WaveReader.Init | src/wave_read.cpp:22-53 | an unopenable file or a short header is an error; otherwise the header is parsed and checked, bytes per sample are `bits / 8`, the sample count is the data size over the frame size with a trap for a zero frame or overflow, and a buffer of the requested size is allocated |
| WaveRead.WaveReader.LoadHeader | src/wave_read.cpp:35-47 | the first 44 bytes become the parsed header and the rest stays unread; the check code and the pass flag agree |
| WaveRead.WaveReader.Fread | src/wave_read.cpp:290 | reads the first min(count, available) bytes into the buffer and consumes them |
| WaveRead.WaveReader.GatherSample | src/wave_read.cpp:302-306 | the shift-and-add loop yields the little-endian value of the sample's bytes |
| WaveRead.WaveReader.DecodeSample | src/wave_read.cpp:300-308 | one array cell becomes the sign-converted raw sample; no other cell changes |
| WaveRead.WaveReader.DecodeFrame | src/wave_read.cpp:298-309 | every channel of frame i is decoded and the cursor moves by one frame |
| WaveRead.WaveReader.DecodeFrames | src/wave_read.cpp:296-310 | every channel of every decoded frame is decoded; other cells keep their values |
| WaveRead.WaveReader.FillWaveBuffer | src/wave_read.cpp:271-314 | no buffer is an error; a request larger than the buffer is an error with nothing read and nothing written; every outcome other than a fill leaves the sample array unchanged; otherwise the bytes are read, the whole frames decoded, every other cell unchanged, and the bytes consumed returned |
| App.ParseCommandLine | src/app_wave_to_mp3_multithread.cpp:68-97 | the argv loop computes the scan result; fewer than three entries give the usage exit |
| App.ScanOutcome | src/app_wave_to_mp3_multithread.cpp:74-97 | from any position the scan completes exactly when the rest pairs up as flag and value, and meets a missing value exactly when the last flag has none |
| App.ParseOutcome | src/app_wave_to_mp3_multithread.cpp:68-97 | accepted exactly when there are at least three entries, an odd count, and a value flag at every odd position; an even count with flags there reads past argv; anything else, `-h` included, is usage |
| App.ApplyProjection | src/app_wave_to_mp3_multithread.cpp:76-86 | each flag sets its own setting and leaves the other three alone |
| App.ScanLastValueWins | src/app_wave_to_mp3_multithread.cpp:74-97 | from any position, a repeated flag's last value wins and an absent flag keeps its setting |
| App.ParseLastValueWins | src/app_wave_to_mp3_multithread.cpp:59-86 | for an accepted command line each setting is the value after its flag's last occurrence, or the default (threads 4, quality 0) |
| App.ScanDirectoryMode | src/app_wave_to_mp3_multithread.cpp:78-82 | from any position directory mode ends on exactly when it was on or `-d` occurs |
| App.ParseDirectoryMode | src/app_wave_to_mp3_multithread.cpp:66-82 | directory mode is on exactly when `-d` occurs |
| App.WaveFilterAsWritten | src/app_wave_to_mp3_multithread.cpp:147-149 | the unguarded suffix comparison reads outside the name exactly when the name is shorter than 4 |
| App.ShortNameReadsBeforeStart | src/app_wave_to_mp3_multithread.cpp:147-148 | the name "wav" makes the comparison start one character before the name |
| App.GuardedFilterAgrees | src/app_wave_to_mp3_multithread.cpp:147-149 | with the length guard, the filter agrees with the comparison wherever that reads inside the name |
| App.BuildMp3Name | src/app_wave_to_mp3_multithread.cpp:151-153 | the `strcpy`/`strncat`/`strcat` steps leave the mp3 name, NUL-terminated, in the buffer, and touch nothing beyond it |
| App.Mp3NameShape | src/app_wave_to_mp3_multithread.cpp:151-153 | the mp3 name has the wave name's length and stem and ends in ".mp3" |
| App.Mp3NameRoundTrip | src/app_wave_to_mp3_multithread.cpp:151-153 | putting ".wav" back on the stem gives the wave name |
| App.Mp3NameInjective | src/app_wave_to_mp3_multithread.cpp:151-153 | two different wave files never share an output file |
| App.AcceptedMembers | src/app_wave_to_mp3_multithread.cpp:142-149 | a name is submitted exactly when it is listed and is a wave name |
| App.SubmitAll | src/app_wave_to_mp3_multithread.cpp:141-164 | the loop submits exactly the accepted names in order, job k with slot k mod 50, always below 50, and waits once per full batch plus once at the end |
| App.BatchSlotsDistinct | src/app_wave_to_mp3_multithread.cpp:141-160 | within one batch no two jobs share an argument slot |

## Left out

- Threads, mutexes, condition variables and the pthread calls are not modelled. The model is sequential. Each pthread result code is an input. Each blocking wait (the dequeue, the empty-queue wait, the batch-full wait) is a precondition.
- Workers.ThreadHandler.RunOnce: the endless `run_thread` loop is one iteration; its exit and `pthread_exit` are not modelled.
- Workers.ThreadHandler.RunOnce: the callback's effect on the program is not modelled; only which callback is chosen.
- Queue.WorkQueue.SetJobDone: requires a pending job; the source has no guard, and a negative count is not modelled.
- Pool.ThreadPool.AddToJobQueue: fixed mode routes with `job mod threads`, the corrected index (see Findings); the as-written index would reach past the allocated queues.
- Pool.ThreadPool.MakeThreadPoolFixed: requires at least one thread, because the source divides by the thread count.
- Pool.ThreadPool.MakeThreadPool: the delete loops of a previous configuration are not modelled. The earlier per-worker queues are kept, unchanged, as the source's stale pointer keeps them. The same holds for MakeThreadPoolFixed and the shared queue.
- Destructors and every heap teardown are not modelled; memory is managed by the garbage collector. This includes the delete loops over `threads + 1` queues.
- Function pointers and `void*` arguments are opaque numbers.
- The work-item fields `m_i_mhz` and `m_i_tot_args` are not modelled. Nothing in the core assigns them.
- Jobs.WorkItem.constructor: fields start at zero rather than indeterminate.
- Opening, reading and closing files are replaced by byte sequences. The `exit(1)` paths are error outcomes. `display_wave_info` prints only and is left out.
- WaveRead.WaveReader.FillWaveBuffer: models the `int` overload only; the `short` overload is identical apart from its truncating store.
- WaveRead.WaveReader.FillWaveBuffer: requires sample widths of 8, 16 or 24 bits and a byte request that fits 32 bits; the source's undefined shifts for wider samples and its overflowing product are not modelled.
- WaveRead.WaveReader.FillWaveBuffer: widths that are not a multiple of 8 are not modelled. For them the source sizes a frame as `channels * bits / 8` bytes (src/wave_read.cpp:282, 291) but gathers `ceil(bits / 8)` bytes per sample (src/wave_read.cpp:302-306), so it reads past the bytes read and past the buffer: a 20-bit mono request of 4096 samples passes the size check for an 8192-byte buffer and then walks 12288 bytes. When `channels * bits < 8` the frame size is 0 and `init` divides by zero (src/wave_read.cpp:48); other widths below 8 (4-bit stereo has a 1-byte frame) over-read in the same way, gathering one byte per sample.
- The reader constructor taking a file name is declared but not defined in the repository, so it is not modelled.
- src/wave_to_mp3.cpp is not part of this model. It is a wrapper around the LAME codec and file output.
- Pool.ThreadPool.RegisterFunction: the worker number is a `nat`. The source's only guard is `i_thread_num >= m_i_num_threads` (src/pthread_queue.cpp:112), so a negative number would index before the handler array; no caller passes one, and that case is not modelled.
- App.ParseCommandLine: `atoi` is a parameter.
- App.ParseCommandLine: the wave file and directory names start as the empty string (`App.Defaults`); in the source they are uninitialised arrays (src/app_wave_to_mp3_multithread.cpp:57-58), so a command line with neither `-f` nor `-d` (such as `prog -t 2`) is accepted and then runs on an indeterminate name.
- The `system()` directory listing, the temporary file list and object creation are not modelled. `App.SubmitAll` takes the list of names and returns the submitted jobs rather than calling the pool.
- App.SubmitAll: reading tokens with `>>` splits names at white space, and a name longer than 1023 characters would overflow its buffer; neither is modelled.
- App.ParseCommandLine: copying a flag value longer than 1023 characters into its buffer with `strcpy` would overflow; not modelled.

## Findings

| source | as written | input that shows it | evidently intended | confidence | as-written member | corrected member |
|---|---|---|---|---|---|---|
| src/pthread_queue.cpp:143 | fixed mode picks queue `curr_job % (num_threads + 1)`, but only `num_threads` queues exist | 1 thread and 2 slots: job 1 is sent to queue 1, past the end of the queue array | `curr_job % num_threads` | high; not executed | Routing.AsWrittenRouteLeavesQueues | Routing.FixedQueueHasRoom |
| src/app_wave_to_mp3_multithread.cpp:148 | the `.wav` comparison starts at `name + len - 4` with no length check | the file name "wav": the comparison starts one character before the buffer | skip names shorter than four characters | high; not executed | App.ShortNameReadsBeforeStart | App.GuardedFilterAgrees |
