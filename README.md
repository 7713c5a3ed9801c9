# hello_server: the thread pool and the response framing, in Dafny

This project models the two sequential parts of `hello_server`, a small Rust
web server:

- **`Pool`** (`pool.dfy`) models `src/lib.rs`, the fixed-size thread pool.
  It is a sequential state machine. `ThreadPool` is a class with these fields:
  - `workers`: each worker's id and whether its `Option<JoinHandle>` is `Some`.
  - `senderPresent`: whether the `Option<Sender>` is `Some`.
  - `queue`: the FIFO of job ids sent on the channel and not yet received.
  - `ran`: the jobs workers have received and run, in the order they were received.
  - `trace`: a ghost log of the teardown events.

  The outcome of each `thread::Builder::spawn` is an input (`seq<bool>`).
  One worker-loop turn is `Receive`. The loop run until it breaks is
  `RunWorker`. `Drop` closes the sender, then visits the workers in id order.
  It takes each handle and joins the worker if the handle was `Some`.
  The lifecycle (`Phase`) is Running while the sender lives, ShuttingDown
  while some handle is still `Some` after that, and Stopped afterwards.
- **`Server`** (`server.dfy`) models the pure part of `handle_connection` in
  `src/bin/main.rs`:
  - the request line, with a missing first line becoming `""`;
  - the exact route `match`;
  - the response bytes `status CRLF "Content-Length: " len CRLF CRLF body`.

  The body is a `seq<byte>` because Rust's `String::len` counts UTF-8 bytes.
  A separate parser, `ParseResponse`, reads back the framing this program
  writes: a line without CR ended by CRLF, the single field
  `Content-Length: ` with a canonical decimal value, an empty line, and a body
  of exactly that many octets. It does not check the status-line grammar of
  RFC 9112, section 4, accepts no other header field, and rejects the leading
  zeros that RFC 9110, section 8.6 allows. Two lemmas prove that framing and
  parsing invert each other. `RespondFraming` proves that every response
  declares its own body's byte length, including on the file-error path.

Where the code and its documentation disagree, the model follows the code:

- The doc comment of `ThreadPool::new` (src/lib.rs:60-62) says it panics on
  size 0. The code returns `Err(ThreadCreationError("Low number of
  threads!"))`, and `New` models that.
- `new` returns `Ok` even when every spawn failed. The only `Receiver` is then
  dropped when `new` returns, so in `execute` the `send(..).unwrap()` panics.
  So `Execute` requires a sender (the first `unwrap`) and at least one worker
  (the second `unwrap`). Its requires is not limited to teardown.

## Model

| member | source | states |
|---|---|---|
| `Pool.NewWorker` | src/lib.rs:27-47 | `Worker::new` succeeds exactly when the spawn succeeded. On success the worker has the given id and a `Some` handle. Otherwise the result is `WorkerCreationError`. |
| `Pool.Spawned` | src/lib.rs:67-73 | The construction loop keeps at most `size` workers, each with an id below `size` and a `Some` handle. |
| `Pool.SpawnedCount` | src/lib.rs:67-73 | The construction loop keeps one worker per successful spawn, so it keeps at most `size` workers. |
| `Pool.SpawnedWellFormed` | src/lib.rs:67-73 | The kept workers have strictly increasing ids, all in `[0, size)`, and every handle is `Some`. |
| `Pool.SpawnedIds` | src/lib.rs:68-72 | Id `i` is among the kept workers exactly when spawn `i` succeeded. |
| `Pool.SpawnedNonEmpty` | src/lib.rs:64-74 | Some worker is kept exactly when some spawn succeeded. |
| `Pool.New` | src/lib.rs:63-78 | Size 0 gives `ThreadCreationError("Low number of threads!")` and creates nothing. Any other size gives a fresh pool that is Running and has its sender, an empty queue and exactly the spawned workers, even when every spawn failed. |
| `Pool.ThreadPool.constructor` | src/lib.rs:74 | The pool holds the given workers and a live sender, with an empty channel and the invariant established. |
| `Pool.ThreadPool.Execute` | src/lib.rs:80-86 | The caller needs a sender and a live receiver, or an `unwrap` panics. The job goes to the tail of the queue. Only the queue changes, and the pool stays Running. |
| `Pool.ThreadPool.Receive` | src/lib.rs:30-39 | A non-empty queue hands out its head, which is run. An empty queue reports disconnection exactly when the sender is gone, and otherwise it blocks. The turn keeps the pool's invariant and its lifecycle phase. |
| `Pool.ThreadPool.RunWorker` | src/lib.rs:29-41 | With the sender gone, the worker loop runs every queued job oldest first and stops only once the queue is empty. |
| `Pool.ThreadPool.TakeAndJoin` | src/lib.rs:93-97 | The worker's handle becomes `None`. A `Some` handle is joined once: a join event is logged and the queue is drained. A `None` handle changes nothing else. |
| `Pool.ThreadPool.JoinAll` | src/lib.rs:92-98 | Every handle is taken, with ids and order unchanged. One join is logged per `Some` handle, in id order. The queue is drained when anything was joined. |
| `Pool.ThreadPool.Drop` | src/lib.rs:90-99 | The sender is closed before the first join: the trace is the closing followed only by joins. Afterwards every handle is `None`, the ids are unchanged, every queued job has run, and the pool is Stopped. |
| `Pool.Joins` | src/lib.rs:92-97 | The teardown loop produces only join events, at most one per worker. |
| `Pool.JoinsIncreasing` | src/lib.rs:92-97 | Joins come in strictly increasing id order, so no worker is joined twice. |
| `Pool.JoinsLive` | src/lib.rs:92-97 | A worker is joined exactly when its handle was still `Some`. |
| `Pool.JoinsFromLive` | src/lib.rs:95-96 | Every join event names a worker whose handle was `Some`. |
| `Pool.ExecuteAllThenDrop` | src/lib.rs:63-99 | The whole lifecycle: construct, submit the jobs with any number of worker turns after each submission, drop. It fails exactly for size 0. Otherwise, whatever the turns, every submitted job is received exactly once, in submission order, before the drop returns. |
| `Server.RequestLine` | src/bin/main.rs:36-41 | A missing first line becomes the empty request line. A line read, or the text of a read error, is used as it is. |
| `Server.RouteOf` | src/bin/main.rs:43-50 | Status 200 is given exactly for `GET / HTTP/1.1` and `GET /sleep HTTP/1.1`, compared exactly. Status 200 goes with `hello.html` and anything else is `404 NOT FOUND` with `404.html`. Only the sleep route waits, for 5 seconds. |
| `Server.MissingLineIsNotFound` | src/bin/main.rs:36-50 | A connection without a first line has the empty request line and gets the 404 route. |
| `Server.SleepServesRoot` | src/bin/main.rs:44-48 | The sleep route has the root route's status and file, and differs only in its delay. |
| `Server.StatusLineBytes` | src/bin/main.rs:43-50 | Both status lines a route can carry are ASCII with no carriage return, so the status line ends at the response's first CRLF. |
| `Server.Decimal` | src/bin/main.rs:59 | The length is printed as a non-empty string of decimal digits with no leading zero, one digit exactly below 10. |
| `Server.DecimalValue` | src/bin/main.rs:57-59 | The printed length reads back as the length. |
| `Server.ValueDecimal` | src/bin/main.rs:59 | Every canonical digit string is the printed form of its value. |
| `Server.Body` | src/bin/main.rs:52-56 | The body is the file's contents. On a read error it is the error text wrapped as `Repsponse error {err} !`: it starts with `Repsponse error `, holds the message at offset 16 and is 18 bytes longer than the message. |
| `Server.Frame` | src/bin/main.rs:59 | The response starts with the status line and ends with the body. |
| `Server.ParseResponse` | src/bin/main.rs:57-59 | Whatever parses has a decoded Content-Length value equal to its body's byte count and a status line without a carriage return. |
| `Server.ParseFrame` | src/bin/main.rs:57-59 | Parsing a framed response gives back the status line and the body, with the body's byte length as Content-Length. |
| `Server.FrameParse` | src/bin/main.rs:59 | Every response that parses is exactly the framing of its status line and body. |
| `Server.Respond` | src/bin/main.rs:36-59 | The bytes written start with the routed status line and its CRLF and end with the body read for the routed file. |
| `Server.RespondFraming` | src/bin/main.rs:36-59 | For every first line and every answer of the file system, the response parses to the routed status line and the body written. Its Content-Length is that body's byte length, also when the file read failed and the body is the error text. |

## Left out

- Real threads, `thread::Builder::spawn`, `JoinHandle::join`, `Arc<Mutex<Receiver>>` and the `mpsc` channel internals are not modelled as concurrent objects. A spawn is an input and the channel is `queue`. A join runs the joined worker's loop to completion, so the first join drains the queue. Which worker runs which job, and when, is not modelled.
- Job bodies are opaque ids. A panic inside a job, which kills its worker thread, is not modelled.
- A worker whose `recv` blocks (the sender is alive and the queue is empty) is the `Waiting` outcome of `Receive`. Blocking itself is not modelled, and `RunWorker` is only run after the sender is gone.
- The `println!` logging in both files and the `Display` impl of `ThreadPoolError` are not modelled. The text of `WorkerCreationError` is a fixed string because OS error text is not stable.
- Sockets are inputs or left out: `TcpListener::bind`, `incoming().take(2)`, reading the request and `write_all` of the response. The first line read is an input (`FirstLine`), and the response is returned as bytes.
- `fs::read_to_string` is an input function from file name to contents or error text. `thread::sleep` is the route's `delaySeconds`.
- `main`'s loop over two connections is not modelled. It submits one job per accepted stream, which `ExecuteAllThenDrop` covers for any list of jobs.
- The panics of the two `unwrap`s in `execute` are modelled as preconditions of `Execute`, not as outcomes.
- `Pool.New`: does not model the capacity-overflow panic of `Vec::with_capacity(size)` (src/lib.rs:67). That panic happens when `size` times the size of a `Worker` exceeds `isize::MAX`. Sizes are unbounded naturals here, so `New` promises `Ok` for every `size > 0`.
