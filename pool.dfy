/** The thread pool of src/lib.rs as a sequential state machine.

    Worker threads, the Mutex around the Receiver and the channel are not
    modelled as concurrent objects.  The spawn of each worker thread is an
    input (true when `thread::Builder::spawn` succeeded), a job is an opaque
    id, the channel is the FIFO `queue` of jobs sent and not yet received,
    and a join of a worker runs that worker's receive loop until it breaks. */
module Pool {

  /** A job is opaque here: only its identity matters. */
  type JobId = nat

  datatype PoolError =
    | ThreadCreationError(message: string)
    | WorkerCreationError(message: string)

  datatype Result<T> = Ok(value: T) | Err(error: PoolError)

  /** A worker: its id and whether its `Option<JoinHandle>` is `Some`. */
  datatype Worker = Worker(id: nat, handlePresent: bool)

  /** What one turn of a worker's receive loop observes. */
  datatype Received =
    | Job(job: JobId)   // `recv` returned a job, which the worker runs
    | Disconnected      // `recv` failed: no sender and nothing queued; the loop breaks
    | Waiting           // `recv` would block: the sender is alive and nothing is queued

  /** Events of the teardown, in the order they happen. */
  datatype Event = SenderClosed | Joined(id: nat)

  datatype Phase = Running | ShuttingDown | Stopped

  const LowThreadsMessage := "Low number of threads!"

  // ---------------------------------------------------------------------------
  // Worker creation

  /** `Worker::new`, with the outcome of the thread spawn as input. */
  function NewWorker(id: nat, spawned: bool): (r: Result<Worker>)
    ensures r.Ok? <==> spawned
    ensures r.Ok? ==> r.value.id == id && r.value.handlePresent
    ensures r.Err? ==> r.error.WorkerCreationError?
  {
    if spawned then Ok(Worker(id, true))
    else Err(WorkerCreationError("Cannot create new thread"))
  }

  /** The workers kept by the construction loop when spawn `id` had outcome
      `outcomes[id]`: those whose `Worker::new` returned `Ok`, in id order. */
  function Spawned(outcomes: seq<bool>): (ws: seq<Worker>)
    ensures |ws| <= |outcomes|
    ensures forall k :: 0 <= k < |ws| ==> ws[k].handlePresent && ws[k].id < |outcomes|
  {
    if outcomes == [] then []
    else
      var id := |outcomes| - 1;
      Spawned(outcomes[..id]) + match NewWorker(id, outcomes[id]) {
        case Ok(w) => [w]
        case Err(_) => []
      }
  }

  /** Number of successful spawns. */
  function Successes(outcomes: seq<bool>): nat
  {
    if outcomes == [] then 0
    else Successes(outcomes[..|outcomes| - 1]) + if outcomes[|outcomes| - 1] then 1 else 0
  }

  ghost predicate IdsIncreasing(ws: seq<Worker>)
  {
    forall i, j :: 0 <= i < j < |ws| ==> ws[i].id < ws[j].id
  }

  ghost predicate IdsBelow(ws: seq<Worker>, n: nat)
  {
    forall i :: 0 <= i < |ws| ==> ws[i].id < n
  }

  ghost predicate HasId(ws: seq<Worker>, id: nat)
  {
    exists k :: 0 <= k < |ws| && ws[k].id == id
  }

  predicate AllHandles(ws: seq<Worker>, present: bool)
  {
    forall i :: 0 <= i < |ws| ==> ws[i].handlePresent == present
  }

  /** One turn of the construction loop: the worker for the last id is kept
      exactly when its spawn succeeded. */
  lemma SpawnedLast(outcomes: seq<bool>)
    requires outcomes != []
    ensures var id := |outcomes| - 1;
      Spawned(outcomes) == Spawned(outcomes[..id]) + if outcomes[id] then [Worker(id, true)] else []
  {
  }

  /** At most `size` workers are kept, one per successful spawn. */
  lemma {:induction false} SpawnedCount(outcomes: seq<bool>)
    ensures |Spawned(outcomes)| == Successes(outcomes) <= |outcomes|
  {
    if outcomes != [] {
      SpawnedLast(outcomes);
      SpawnedCount(outcomes[..|outcomes| - 1]);
    }
  }

  /** The kept workers have strictly increasing ids in `[0, size)` and every
      handle `Some`. */
  lemma {:induction false} SpawnedWellFormed(outcomes: seq<bool>)
    ensures IdsIncreasing(Spawned(outcomes))
    ensures IdsBelow(Spawned(outcomes), |outcomes|)
    ensures AllHandles(Spawned(outcomes), true)
  {
    if outcomes != [] {
      SpawnedLast(outcomes);
      SpawnedWellFormed(outcomes[..|outcomes| - 1]);
    }
  }

  lemma HasIdAppend(ws: seq<Worker>, more: seq<Worker>, id: nat)
    ensures HasId(ws + more, id) <==> HasId(ws, id) || HasId(more, id)
  {
    if HasId(ws + more, id) {
      var m :| 0 <= m < |ws + more| && (ws + more)[m].id == id;
      if m >= |ws| {
        assert more[m - |ws|].id == id;
      }
    }
    if HasId(ws, id) {
      var m :| 0 <= m < |ws| && ws[m].id == id;
      assert (ws + more)[m].id == id;
    }
    if HasId(more, id) {
      var m :| 0 <= m < |more| && more[m].id == id;
      assert (ws + more)[|ws| + m].id == id;
    }
  }

  /** Id `i` is kept exactly when spawn `i` succeeded. */
  lemma {:induction false} SpawnedIds(outcomes: seq<bool>)
    ensures forall id :: 0 <= id < |outcomes| ==> (HasId(Spawned(outcomes), id) <==> outcomes[id])
  {
    if outcomes != [] {
      var last := |outcomes| - 1;
      var prefix := outcomes[..last];
      var tail := if outcomes[last] then [Worker(last, true)] else [];
      SpawnedLast(outcomes);
      SpawnedIds(prefix);
      SpawnedWellFormed(prefix);
      assert Spawned(outcomes) == Spawned(prefix) + tail;
      forall id | 0 <= id < |outcomes|
        ensures HasId(Spawned(outcomes), id) <==> outcomes[id]
      {
        HasIdAppend(Spawned(prefix), tail, id);
        if id < last {
          assert prefix[id] == outcomes[id];
          assert !HasId(tail, id);
        } else {
          assert !HasId(Spawned(prefix), id);
          assert outcomes[id] ==> tail[0].id == id;
        }
      }
    }
  }

  /** Some worker is kept exactly when some spawn succeeded. */
  lemma {:induction false} SpawnedNonEmpty(outcomes: seq<bool>)
    ensures |Spawned(outcomes)| > 0 <==> true in outcomes
  {
    if outcomes != [] {
      var last := |outcomes| - 1;
      var prefix := outcomes[..last];
      SpawnedLast(outcomes);
      SpawnedNonEmpty(prefix);
      assert outcomes == prefix + [outcomes[last]];
    }
  }

  // ---------------------------------------------------------------------------
  // Teardown order

  /** The joins `Drop` performs on `ws`: one per worker whose handle is still
      `Some`, in id order. */
  function Joins(ws: seq<Worker>): (js: seq<Event>)
    ensures forall k :: 0 <= k < |js| ==> js[k].Joined?
    ensures |js| <= |ws|
  {
    if ws == [] then []
    else
      var last := ws[|ws| - 1];
      Joins(ws[..|ws| - 1]) + if last.handlePresent then [Joined(last.id)] else []
  }

  lemma JoinsLast(ws: seq<Worker>)
    requires ws != []
    ensures var last := ws[|ws| - 1];
      Joins(ws) == Joins(ws[..|ws| - 1]) + if last.handlePresent then [Joined(last.id)] else []
  {
  }

  /** Every join event names a worker of `ws` whose handle was `Some`. */
  lemma {:induction false} JoinsFromLive(ws: seq<Worker>)
    ensures forall e :: e in Joins(ws) ==>
      e.Joined? && exists i :: 0 <= i < |ws| && ws[i].id == e.id && ws[i].handlePresent
  {
    if ws != [] {
      var n := |ws| - 1;
      JoinsLast(ws);
      JoinsFromLive(ws[..n]);
      forall e | e in Joins(ws)
        ensures e.Joined? && exists i :: 0 <= i < |ws| && ws[i].id == e.id && ws[i].handlePresent
      {
        if e in Joins(ws[..n]) {
          var i :| 0 <= i < n && ws[..n][i].id == e.id && ws[..n][i].handlePresent;
          assert ws[i] == ws[..n][i];
        } else {
          assert ws[n].id == e.id && ws[n].handlePresent;
        }
      }
    }
  }

  /** Each worker is joined at most once: the joins come in strictly
      increasing id order. */
  lemma {:induction false} JoinsIncreasing(ws: seq<Worker>)
    requires IdsIncreasing(ws)
    ensures forall a, b :: 0 <= a < b < |Joins(ws)| ==> Joins(ws)[a].id < Joins(ws)[b].id
  {
    if ws != [] {
      var n := |ws| - 1;
      var prefix := Joins(ws[..n]);
      JoinsLast(ws);
      JoinsIncreasing(ws[..n]);
      JoinsFromLive(ws[..n]);
      forall a | 0 <= a < |prefix|
        ensures prefix[a].id < ws[n].id
      {
        assert prefix[a] in prefix;
        var i :| 0 <= i < n && ws[..n][i].id == prefix[a].id && ws[..n][i].handlePresent;
        assert ws[i].id < ws[n].id;
      }
    }
  }

  /** Exactly the workers whose handle is `Some` are joined. */
  lemma {:induction false} JoinsLive(ws: seq<Worker>)
    requires IdsIncreasing(ws)
    ensures forall i :: 0 <= i < |ws| ==> (Joined(ws[i].id) in Joins(ws) <==> ws[i].handlePresent)
  {
    JoinsFromLive(ws);
    forall i | 0 <= i < |ws|
      ensures Joined(ws[i].id) in Joins(ws) <==> ws[i].handlePresent
    {
      if Joined(ws[i].id) in Joins(ws) {
        var j :| 0 <= j < |ws| && ws[j].id == ws[i].id && ws[j].handlePresent;
        assert j == i;
      }
      if ws[i].handlePresent {
        JoinsContains(ws, i);
      }
    }
  }

  /** A live worker's join is among the joins. */
  lemma {:induction false} JoinsContains(ws: seq<Worker>, i: nat)
    requires i < |ws| && ws[i].handlePresent
    ensures Joined(ws[i].id) in Joins(ws)
  {
    var n := |ws| - 1;
    JoinsLast(ws);
    if i < n {
      JoinsContains(ws[..n], i);
    }
  }

  // ---------------------------------------------------------------------------
  // The pool

  class ThreadPool {
    /** The workers kept at construction, in id order. */
    var workers: seq<Worker>
    /** Whether `sender` is `Some`. */
    var senderPresent: bool
    /** Jobs sent on the channel and not yet received, oldest first. */
    var queue: seq<JobId>
    /** Jobs received and run by workers, in the order they were received. */
    var ran: seq<JobId>
    /** The teardown events so far. */
    ghost var trace: seq<Event>
    /** The `size` the pool was constructed with. */
    ghost const size: nat

    /** The pool's invariant at every method boundary: ids increasing and below
        `size`; while the sender lives every handle is `Some`; once it is gone
        every handle has been taken and the queue drained; and nothing is
        queued when no worker exists to receive it. */
    ghost predicate Valid()
      reads this
    {
      IdsIncreasing(workers) && IdsBelow(workers, size) &&
      (senderPresent ==> AllHandles(workers, true)) &&
      (!senderPresent ==> AllHandles(workers, false) && queue == []) &&
      (queue != [] ==> |workers| > 0)
    }

    /** The lifecycle state the fields encode. */
    function Phase(): Phase
      reads this
    {
      if senderPresent then Running
      else if exists i :: 0 <= i < |workers| && workers[i].handlePresent then ShuttingDown
      else Stopped
    }

    /** The struct literal `ThreadPool { workers, sender: Some(sender) }`
        with a fresh, empty channel. */
    constructor (ghost size: nat, workers: seq<Worker>)
      requires IdsIncreasing(workers) && IdsBelow(workers, size) && AllHandles(workers, true)
      ensures Valid() && Phase() == Running
      ensures this.size == size && this.workers == workers && senderPresent
      ensures queue == [] && ran == [] && trace == []
    {
      this.size := size;
      this.workers := workers;
      senderPresent := true;
      queue := [];
      ran := [];
      trace := [];
    }

    /** `execute`: the sender must be present (the first `unwrap`) and some
        receiver must still exist (the second `unwrap`); the job goes to the
        tail of the queue and nothing else changes. */
    method Execute(job: JobId)
      requires Valid() && senderPresent && |workers| > 0
      modifies this`queue
      ensures Valid() && Phase() == Running
      ensures queue == old(queue) + [job]
    {
      queue := queue + [job];
    }

    /** One turn of a worker's receive loop: take the head of the queue if
        there is one; otherwise `recv` fails once the sender is gone, and
        would block while it lives.  A received job is run.  The turn is the
        same while the pool runs and during teardown, where the invariant is
        suspended, so it keeps the invariant whenever it held before. */
    method Receive() returns (m: Received)
      requires |workers| > 0
      modifies this`queue, this`ran
      ensures old(Valid()) ==> Valid()
      ensures Phase() == old(Phase())
      ensures old(queue) != [] ==>
        m == Job(old(queue)[0]) && queue == old(queue)[1..] && ran == old(ran) + [m.job]
      ensures old(queue) == [] ==>
        queue == [] && ran == old(ran) && m == (if senderPresent then Waiting else Disconnected)
    {
      if queue != [] {
        m := Job(queue[0]);
        queue := queue[1..];
        ran := ran + [m.job];
      } else if senderPresent {
        m := Waiting;
      } else {
        m := Disconnected;
      }
    }

    /** A worker's receive loop once the sender is gone: it runs every queued
        job, oldest first, and breaks when `recv` reports disconnection. */
    method RunWorker()
      requires !senderPresent && |workers| > 0
      modifies this`queue, this`ran
      ensures queue == [] && ran == old(ran) + old(queue)
    {
      while true
        invariant ran + queue == old(ran) + old(queue)
        decreases |queue|
      {
        var m := Receive();
        if m.Disconnected? {
          break;
        }
      }
    }

    /** One turn of the teardown loop: take worker `i`'s handle and, if it
        was `Some`, join that worker, whose receive loop then runs every
        queued job and breaks since the sender is gone. */
    method TakeAndJoin(i: nat)
      requires !senderPresent && i < |workers|
      modifies this`workers, this`queue, this`ran, this`trace
      ensures workers == old(workers)[i := old(workers)[i].(handlePresent := false)]
      ensures old(workers)[i].handlePresent ==>
        trace == old(trace) + [Joined(old(workers)[i].id)] && queue == [] && ran == old(ran) + old(queue)
      ensures !old(workers)[i].handlePresent ==>
        trace == old(trace) && queue == old(queue) && ran == old(ran)
    {
      var w := workers[i];
      workers := workers[i := w.(handlePresent := false)];
      if w.handlePresent {
        trace := trace + [Joined(w.id)];
        RunWorker();
      }
    }

    /** The teardown loop: each worker, in id order, has its handle taken
        and, if it was `Some`, is joined.  The first join drains the queue. */
    method JoinAll()
      requires !senderPresent
      modifies this`workers, this`queue, this`ran, this`trace
      ensures workers == Taken(old(workers))
      ensures trace == old(trace) + Joins(old(workers))
      ensures Joins(old(workers)) != [] ==> queue == [] && ran == old(ran) + old(queue)
      ensures Joins(old(workers)) == [] ==> queue == old(queue) && ran == old(ran)
    {
      ghost var ws0 := workers;
      var i := 0;
      while i < |workers|
        invariant 0 <= i <= |workers| == |ws0|
        invariant workers == TakenBefore(ws0, i)
        invariant trace == old(trace) + Joins(ws0[..i])
        invariant Joins(ws0[..i]) != [] ==> queue == [] && ran == old(ran) + old(queue)
        invariant Joins(ws0[..i]) == [] ==> queue == old(queue) && ran == old(ran)
      {
        TakeAndJoin(i);
        TakenBeforeStep(ws0, i);
        JoinsStep(ws0, i);
        i := i + 1;
      }
      assert ws0[..i] == ws0;
    }

    /** `drop`: the sender is discarded before anything is joined, then every
        worker is visited by the teardown loop.  Afterwards every handle is
        `None`, ids and order are unchanged, every queued job has run, and the
        trace is the sender's closing followed by one join per live worker in
        id order. */
    method Drop()
      requires Valid()
      modifies this`senderPresent, this`workers, this`queue, this`ran, this`trace
      ensures Valid() && Phase() == Stopped && !senderPresent
      ensures workers == Taken(old(workers))
      ensures queue == [] && ran == old(ran) + old(queue)
      ensures trace == old(trace) + [SenderClosed] + Joins(old(workers))
      ensures forall k :: |old(trace)| < k < |trace| ==> trace[k].Joined?
    {
      if queue != [] {
        JoinsContains(workers, 0);
      }
      senderPresent := false;
      trace := trace + [SenderClosed];
      ghost var closed := trace;
      JoinAll();
      TakenShape(old(workers), size);
      assert forall k :: |closed| <= k < |trace| ==> trace[k] == Joins(old(workers))[k - |closed|];
    }
  }

  /** The workers after the teardown loop has visited the first `i`. */
  function TakenBefore(ws: seq<Worker>, i: nat): seq<Worker>
  {
    seq(|ws|, k requires 0 <= k < |ws| => if k < i then ws[k].(handlePresent := false) else ws[k])
  }

  /** Every handle taken, nothing else changed. */
  function Taken(ws: seq<Worker>): seq<Worker>
  {
    TakenBefore(ws, |ws|)
  }

  lemma TakenBeforeStep(ws: seq<Worker>, i: nat)
    requires i < |ws|
    ensures TakenBefore(ws, i)[i] == ws[i]
    ensures TakenBefore(ws, i)[i := ws[i].(handlePresent := false)] == TakenBefore(ws, i + 1)
  {
  }

  lemma JoinsStep(ws: seq<Worker>, i: nat)
    requires i < |ws|
    ensures Joins(ws[..i + 1]) == Joins(ws[..i]) + if ws[i].handlePresent then [Joined(ws[i].id)] else []
  {
    assert ws[..i + 1][..i] == ws[..i];
  }

  /** Taking every handle keeps the ids, their order and their bounds, and
      leaves no handle `Some`. */
  lemma TakenShape(ws: seq<Worker>, n: nat)
    requires IdsIncreasing(ws) && IdsBelow(ws, n)
    ensures |Taken(ws)| == |ws| && forall i :: 0 <= i < |ws| ==> Taken(ws)[i].id == ws[i].id
    ensures IdsIncreasing(Taken(ws)) && IdsBelow(Taken(ws), n) && AllHandles(Taken(ws), false)
    ensures !exists k :: 0 <= k < |Taken(ws)| && Taken(ws)[k].handlePresent
  {
  }

  /** `ThreadPool::new`: size 0 is refused with `ThreadCreationError` and
      creates nothing; any other size yields a running pool with its sender,
      even when every spawn failed, holding exactly the spawned workers. */
  method New(size: nat, spawned: seq<bool>) returns (r: Result<ThreadPool>)
    requires |spawned| == size
    ensures r.Err? <==> size == 0
    ensures r.Err? ==> r.error == ThreadCreationError(LowThreadsMessage)
    ensures r.Ok? ==> fresh(r.value) && r.value.Valid() && r.value.Phase() == Running
    ensures r.Ok? ==> r.value.size == size && r.value.senderPresent
    ensures r.Ok? ==> r.value.workers == Spawned(spawned)
    ensures r.Ok? ==> r.value.queue == [] && r.value.ran == [] && r.value.trace == []
  {
    if size > 0 {
      var workers: seq<Worker> := [];
      for id := 0 to size
        invariant workers == Spawned(spawned[..id])
      {
        assert spawned[..id + 1][..id] == spawned[..id];
        var w := NewWorker(id, spawned[id]);
        if w.Ok? {
          workers := workers + [w.value];
        }
      }
      assert spawned[..size] == spawned;
      SpawnedWellFormed(spawned);
      var pool := new ThreadPool(size, workers);
      r := Ok(pool);
    } else {
      r := Err(ThreadCreationError(LowThreadsMessage));
    }
  }

  /** A whole lifecycle: construct a pool, submit `jobs` in order, drop it.
      After submitting `jobs[i]`, workers take `steps[i]` turns of their
      receive loop while the pool runs (a turn finding nothing waits).
      Construction fails exactly for size 0; otherwise, whatever the turns,
      every job is received exactly once, in submission order, before the
      drop returns.  Submitting needs a live receiver, so some spawn must
      have succeeded when there are jobs. */
  method ExecuteAllThenDrop(size: nat, spawned: seq<bool>, jobs: seq<JobId>, steps: seq<nat>)
    returns (r: Result<seq<JobId>>)
    requires |spawned| == size && |steps| == |jobs|
    requires size > 0 && jobs != [] ==> true in spawned
    ensures r.Err? <==> size == 0
    ensures r.Ok? ==> r.value == jobs
  {
    var created := New(size, spawned);
    if created.Err? {
      return Err(created.error);
    }
    var pool := created.value;
    SpawnedNonEmpty(spawned);
    var i := 0;
    while i < |jobs|
      invariant 0 <= i <= |jobs|
      invariant pool.Valid() && pool.senderPresent && pool.workers == Spawned(spawned)
      invariant pool.ran + pool.queue == jobs[..i]
    {
      pool.Execute(jobs[i]);
      assert jobs[..i + 1] == jobs[..i] + [jobs[i]];
      var turn := 0;
      while turn < steps[i]
        invariant pool.Valid() && pool.senderPresent && pool.workers == Spawned(spawned)
        invariant pool.ran + pool.queue == jobs[..i + 1]
      {
        var m := pool.Receive();
        turn := turn + 1;
      }
      i := i + 1;
    }
    assert jobs[..i] == jobs;
    pool.Drop();
    r := Ok(pool.ran);
  }
}
