# HttpServer core, modelled in Dafny

This project models the core of a small C++ static-file HTTP/1.1 server and proves properties of that model. The server accepts connections and hands each one to a worker pool as a task. The task reads the request line and looks up the file the URI names. It replies with the file, or with a 404 page when the file cannot be opened.

The model has six modules:

- `HttpServer` (http_server.dfy): what `Request::Perform` does for one request. It splits the request line into method, URI and version as `istringstream >>` does, and cuts the URI at the first `?` to get the file path. It frames the response with the successive appends of the `response` lambda and picks the content type with the ordered `strstr` lookup. It also covers the size of the worker pool and the hand-over of an accepted connection to that pool.
- `HttpSyntax` (http_syntax.dfy): text building blocks.
  - The prefix before a delimiter (`find_first_of`, then `substr`).
  - Substring search (`strstr`).
  - Unsigned decimals (`std::to_string`).
  - A strict reader for the status line and field lines of RFC 9112, sections 4 and 5. The reader is not part of the server. It is the independent counterpart against which the framing is proved: every reply reads back as its status, its five fields and its body, and `Content-length` always equals the body's length.
- `IO` (io.dfy):
  - `Socket`, with the shared `CtlBlock` reference count. The ghost field `owners` is the set of handles that share a block, and `close` is recorded in an `Os` object.
  - `BufReader`, with its 1024-octet buffer and the `cur`/`remaining` indices, over a `Stream` of the pieces that successive `read` calls return. The ghost field `pending` is the octets still to be delivered. `ReadChar` and `ReadLine` are proved against it.
- `Queue` (message_queue.dfy): `MessageQueue<T>`. The queue's behaviour is first given on values (`Sent`, `Received`, `Stopped`, and `Run` for a whole sequence of operations), then as the class whose methods update its fields exactly as those functions say.
- `Pool` (worker_pool.dfy): `Worker` and `RoundRobinWorkerPool`, with the `WorkerPool` base folded into it. The ghost counter `submitted` ties `next_worker` to the number of tasks submitted so far.
- `Wrappers` (wrappers.dfy): `Option` and `Result`.

The inputs the original gets from the operating system become parameters:

- The file system is a map `files` from a path to the octets of the file there, each kept as one character in the reply. A path not in the map is one `ifstream` cannot open.
- The bytes of a connection are an `IO.Stream`.
- `std::thread::hardware_concurrency()` is the parameter `hw`.
- The reply that `send` would write is the result of `HttpServer.Perform`.

Where the header files declare an operation differently from the `.cpp` files that define it, the model follows the `.cpp`. For example, `SubmitTask` takes the task and returns nothing, as src/worker_pool.cpp defines it.

## Model

| member | source | states |
|---|---|---|
| HttpServer.SkipSpace | src/http_server.cpp:37 | an extraction first skips white space: the skipped prefix is all spaces and the text left starts with a non-space |
| HttpServer.Word | src/http_server.cpp:37 | an extraction takes the longest prefix without white space, and stops at white space or the end |
| HttpServer.NextToken | src/http_server.cpp:37 | one `>> str`: the text is white space, then the token, then the rest; the token holds no space and the rest starts with space or is empty; the token is empty exactly when the text is all white space, and then nothing is left |
| HttpServer.NextTokenOf | src/http_server.cpp:37 | a token with white space before it and white space or nothing after it is extracted exactly, and what follows stays |
| HttpServer.ParseRequestLine | src/http_server.cpp:36-37 | method, URI and version are space-free; the method is empty exactly when the line is all white space; an empty method means an empty URI, and an empty URI an empty version |
| HttpServer.RequestLineOf | src/http_server.cpp:36-37 | three tokens separated and surrounded by any white space are read back as method, URI and version in order |
| HttpServer.OneToken | src/http_server.cpp:36-37 | a line with a single token gives that token as the method, and an empty URI and version |
| HttpServer.TwoTokens | src/http_server.cpp:36-37 | a line with two tokens gives them as method and URI, and an empty version |
| HttpServer.FilePath | src/http_server.cpp:38 | the path is `dir` followed by the longest prefix of the URI that holds no `?`, cut exactly at the first `?` |
| HttpServer.FilePathDropsQuery | src/http_server.cpp:38 | `dir + path + "?" + query` gives `dir + path`, and a URI without `?` is used whole, with nothing normalised |
| HttpServer.CString | src/http_server.cpp:64 | what the C library sees of the path is its prefix up to the first NUL |
| HttpServer.RequestedPath | src/http_server.cpp:37-64 | the path opened for a request line is the file part of its URI, NUL-free |
| HttpServer.ResponseText | src/http_server.cpp:45-61 | the response ends with the content, verbatim |
| HttpServer.Frame | src/http_server.cpp:40-62 | the successive appends build exactly the response text: status line, Server, Connection, Content-length, Content-type and nosniff headers, the empty line, the content |
| HttpServer.ResponseFields | src/http_server.cpp:50-58 | five fields, with Content-length the decimal of the body length and Content-type the given type |
| HttpServer.ResponseLayout | src/http_server.cpp:45-60 | the response is the status line, the five field lines, the empty line and the body |
| HttpServer.ResponseFieldsSafe | src/http_server.cpp:50-58 | every generated field has a colon-free one-line name and a one-line value without leading white space |
| HttpServer.FieldsReadBack | src/http_server.cpp:50-60 | the field lines, the empty line and the body are read back by a field-line reader as those fields and that body |
| HttpServer.StatusLineReadsBack | src/http_server.cpp:45-49 | the status line is read back as version `HTTP/1.1`, the code and the message |
| HttpServer.ContentLengthReadsBack | src/http_server.cpp:52-54 | the Content-length value read back is the length the fields were built with |
| HttpServer.ResponseReadsBack | src/http_server.cpp:45-61 | any response reads back as status, the five fields and the body, and its Content-length is exactly the body's length |
| HttpServer.FirstMatchSpec | src/http_server.cpp:71-96 | the reference lookup gives the type of the first listed extension that occurs in the name, and text/plain when none occurs |
| HttpServer.ContentType | src/http_server.cpp:71-97 | the `type` if-chain equals the first-match lookup over the extension table on every name; what that lookup gives is stated by FirstMatchSpec and ContentTypeFirstListed |
| HttpServer.ContentTypeFirstListed | src/http_server.cpp:71-96 | the type is that of the first listed extension occurring anywhere in the name, and text/plain exactly when none occurs |
| HttpServer.FirstMatchSafe | src/http_server.cpp:71-96 | every type the lookup can give is a one-line field value |
| HttpServer.ContentTypeSafe | src/http_server.cpp:55-96 | every content type can be sent as a field value |
| HttpServer.ContentTypeAnywhere | src/http_server.cpp:73-74 | the test is for a substring, not a suffix: `.html` anywhere in the name gives text/html |
| HttpServer.WoffTwoUnreachable | src/http_server.cpp:91-94 | the font/woff2 type is never given; a `.woff2` name that no earlier extension claims gets font/woff |
| HttpServer.JsonIsJavascript | src/http_server.cpp:77-78 | a `.json` name that has no `.html` or `.css` gets text/javascript |
| HttpServer.FoundReadsBack | src/http_server.cpp:99-101 | the 200 reply reads back with the looked-up type and the file's bytes as its body |
| HttpServer.NotFoundReadsBack | src/http_server.cpp:64-66 | the 404 reply reads back as text/plain with body `Error occured` and length 13 |
| HttpServer.Respond | src/http_server.cpp:64-101 | the reply ends with the file's octets when the path can be opened and with the 404 message otherwise; what a client reads from it is stated by RespondReadsBack |
| HttpServer.RespondReadsBack | src/http_server.cpp:34-103 | the reply to any request line reads back: 200 with the file and its type when the path can be opened, 404 otherwise; Content-length is always its body's length |
| HttpServer.Perform | src/http_server.cpp:34-103 | a fresh BufReader reads the first line of the connection; the reply built for it is the reply for that line |
| HttpServer.PoolSize | src/http_server.cpp:166 | the pool size is `max(1, hw * 11)` on 32-bit unsigned arithmetic, so at least 1, and `hw * 11` itself when it does not wrap and hw is not 0 |
| HttpServer.NewServerPool | src/http_server.cpp:166 | the server's pool has PoolSize(hw) workers, at least one, and starts at worker 0 |
| HttpServer.AcceptRequest | src/http_server.cpp:180-183 | the accepted connection goes, as a new task, to the queue of the worker whose turn it is |
| HttpSyntax.Before | src/http_server.cpp:38 | the prefix before the first occurrence of a character, or the whole string when it does not occur |
| HttpSyntax.BeforeDelimited | src/http_server.cpp:38 | the first delimiter is where the cut happens, whatever follows it |
| HttpSyntax.Contains | src/http_server.cpp:73 | `strstr` finds the pattern exactly when it occurs at some position |
| HttpSyntax.ContainsPrefix | src/http_server.cpp:91-94 | a name that contains a pattern also contains every prefix of it |
| HttpSyntax.Decimal | src/http_server.cpp:53 | `std::to_string` of a size: a non-empty string of digits, with a leading 0 only for 0 |
| HttpSyntax.ParseDecimal | src/http_server.cpp:53 | a value is read exactly from a non-empty string of digits |
| HttpSyntax.DecimalRoundTrip | src/http_server.cpp:53 | reading the numeral back gives the size it was written from |
| HttpSyntax.SplitLineOf | src/http_server.cpp:49 | a CR-free line followed by CRLF is split off exactly |
| IO.CtlBlock.constructor | src/io.cpp:18-21 | a new control block starts with count 1 for the given descriptor |
| IO.Socket.Empty | src/io.cpp:25-29 | the default socket has descriptor -1 and no control block |
| IO.Socket.constructor | src/io.cpp:31-35 | a control block with count 1 is allocated exactly when fd >= 0 |
| IO.Socket.IsOpen | src/io.cpp:83-86 | `operator bool` is true exactly when the socket holds a descriptor, and so a control block |
| IO.Socket.Copy | src/io.cpp:48-55 | a copy shares descriptor and block, and the count grows by one |
| IO.Socket.Move | src/io.cpp:66-72 | a move takes over descriptor and block and leaves the source at -1 and null; the count is unchanged |
| IO.Socket.Swap | src/io.cpp:93-97 | descriptors and blocks are exchanged, no count changes, and every other valid socket stays valid |
| IO.Socket.Destroy | src/io.cpp:37-46 | the count drops by one, and the descriptor is closed exactly when the last handle goes |
| IO.Socket.Assign | src/io.cpp:57-64 | copy assignment: the new value is shared and counted, the old one is released and closed when it was the last handle, self-assignment changes nothing, and every other valid socket stays valid |
| IO.Socket.MoveAssign | src/io.cpp:74-81 | move assignment: the value is taken over, the source is left empty, the old one is released, self-assignment changes nothing, and every socket other than the two stays valid |
| IO.CloseOnLastHandle | src/io.cpp:37-55 | two handles on one descriptor: destroying the first closes nothing, destroying the second closes the descriptor exactly once |
| IO.Os.Close | src/io.cpp:40 | `close` is recorded once per call |
| IO.LineOf | src/io.cpp:139-152 | the line is a prefix of the input; a newline can appear only as its last octet; a line shorter than the input ends in a newline; the line is empty only at end of stream |
| IO.LineOfTerminated | src/io.cpp:148-150 | the line ends at the first newline, whatever follows |
| IO.Chars | src/io.cpp:147 | `line += c` keeps each octet as one character of the same value |
| IO.Stream.Read | src/io.cpp:130 | `read` copies the next piece to the front of the buffer and returns its length, or 0 at end of stream |
| IO.BufReader.constructor | src/io.cpp:111-123 | a new reader starts with cur = remaining = 0 and all of the stream pending |
| IO.BufReader.Refill | src/io.cpp:129-134 | a refill restarts at the front of the buffer when `read` returns data; at end of stream it fails and `cur` is left unchanged |
| IO.BufReader.ReadChar | src/io.cpp:127-137 | -1 at end of stream; otherwise the next pending octet, with no loss or duplication across refills; `read` is called only when the buffer is used up, and `cur` grows and `remaining` shrinks by one |
| IO.BufReader.ReadLine | src/io.cpp:139-153 | the line returned is LineOf of what was pending, and exactly the rest stays pending |
| Queue.Fresh | src/message_queue.h:37-42 | a new queue is empty, not stopped, with the given bound |
| Queue.Sent | src/message_queue.h:57-72 | Send succeeds exactly when fewer than max_size messages are there; on success the message joins the back, otherwise nothing changes; the stop flag plays no part |
| Queue.Received | src/message_queue.h:74-87 | once stopped, Receive throws and leaves the queue as it is, even with messages there; otherwise the front message is returned and removed |
| Queue.Stopped | src/message_queue.h:89-97 | StopReceiving raises the flag and keeps the messages |
| Queue.BoundKept | src/message_queue.h:38-66 | `Size() <= MaxSize()` is kept by every operation, and MaxSize never changes |
| Queue.StopSticky | src/message_queue.h:80-94 | stopping is idempotent; nothing lowers the flag; every Receive after it throws without changing the queue |
| Queue.SendIgnoresStop | src/message_queue.h:58-66 | a stopped queue accepts exactly what the queue would accept if it were running |
| Queue.Run | src/message_queue.h:57-97 | a run of operations keeps the bound, and a stopped queue delivers nothing and stays stopped |
| Queue.RunConserves | src/message_queue.h:63-85 | FIFO with no loss or duplication: the messages there plus those accepted equal those delivered followed by those still queued |
| Queue.RunBounded | src/message_queue.h:63 | the bound holds after any run that starts within it |
| Queue.MessageQueue.constructor | src/message_queue.h:37-42 | the fields are those of Fresh with the given bound |
| Queue.MessageQueue.Default | src/message_queue.h:19 | the default bound is the largest size_t |
| Queue.MessageQueue.Size | src/message_queue.h:44-49 | the number of queued messages, at most the bound |
| Queue.MessageQueue.MaxSize | src/message_queue.h:51-55 | the bound fixed at construction, never below the size |
| Queue.MessageQueue.Send | src/message_queue.h:57-72 | the fields change exactly as Sent says, and the result is Sent's verdict |
| Queue.MessageQueue.Receive | src/message_queue.h:74-87 | the fields and the result are those of Received |
| Queue.MessageQueue.StopReceiving | src/message_queue.h:89-97 | the fields become those of Stopped |
| Pool.Worker.constructor | src/worker_pool.cpp:8-11 | a worker owns a fresh queue with the default bound and has no thread |
| Pool.Worker.Start | src/worker_pool.cpp:22-27 | afterwards a thread is running; a second Start does not start another |
| Pool.Worker.Quit | src/worker_pool.cpp:29-32 | the worker's queue is stopped and keeps its messages |
| Pool.Worker.Wait | src/worker_pool.cpp:34-39 | afterwards no thread is left |
| Pool.Worker.AssignTask | src/worker_pool.cpp:41-44 | exactly a Send on the worker's own queue |
| Pool.Turn | src/worker_pool.cpp:98-105 | the worker index of a task is below the pool size |
| Pool.TurnAdvances | src/worker_pool.cpp:105 | `(next_worker + 1) % n` is the turn of the next task, so the k-th task goes to worker `k mod n` |
| Pool.RoundRobinWorkerPool.constructor | src/worker_pool.cpp:60-100 | exactly pool_size fresh, distinct, idle workers with empty queues, and next worker 0 |
| Pool.RoundRobinWorkerPool.Start | src/worker_pool.cpp:73-78 | every worker has a running thread, and the queues are untouched |
| Pool.RoundRobinWorkerPool.Quit | src/worker_pool.cpp:80-85 | every worker's queue is stopped and keeps its messages |
| Pool.RoundRobinWorkerPool.Wait | src/worker_pool.cpp:87-92 | every thread is joined |
| Pool.RoundRobinWorkerPool.Destroy | src/worker_pool.cpp:67-71 | afterwards every queue is stopped and no thread is left |
| Pool.RoundRobinWorkerPool.SubmitTask | src/worker_pool.cpp:102-106 | the task is offered to the queue of worker `k mod n` for the k-th task, and a rejected task is dropped; the index advances either way; every other queue is unchanged |

## Left out

- Sockets, `bind`, `listen`, `accept`, `inet_pton` (src/http_server.cpp:107-148): operating-system I/O. An accepted connection is its descriptor, an `int`, in `HttpServer.Request`.
- `send` (src/http_server.cpp:67, 102): I/O. The reply is returned by `HttpServer.Perform` instead.
- `ifstream` and `rdbuf` (src/http_server.cpp:64, 99-100): I/O. They are the map `files`, and whether a path can be opened is whether it is a key.
- `Server::Impl::Run` (src/http_server.cpp:171-178): a non-terminating accept loop. Only the one step `AcceptRequest` is modelled. The `Server` pimpl forwarding and the `Acceptor` are left out too.
- Threads, mutexes, condition variables and `std::atomic`: concurrency is not modelled.
  - `ref_cnt` is a plain counter.
  - The wait in `Receive` is its precondition "non-empty or stopped".
  - A worker's thread is the flag `running`.
- `Worker::Run` (src/worker_pool.cpp:46-56): left out. It needs a thread, and it runs each task's `Perform`, which can do anything. Queues therefore change only through the pool in this model.
- `Pool.Worker.Wait` and `Pool.RoundRobinWorkerPool.Wait`: the precondition that the queue is stopped when a thread is running stands in for the thread having ended. The join itself is not modelled.
- The `WorkerPool` base class and its virtual `SubmitTask`: merged into `RoundRobinWorkerPool`, since the pool has one implementation.
- src/opts.h and src/main.cpp: option parsing and process setup.
- `Logger` and `BufReader::Eof`: declared in src/io.h but not defined in the files modelled.
- Signed `char`: bytes are modelled as 0..255. On a platform where `char` is signed, an octet of 0x80 or more would come back from `ReadChar` as a negative number and end `ReadLine` early (src/io.cpp:136, 144). That path is not modelled.
- A `read` error: a `read` that returns -1 stores -1 in `remaining` (src/io.cpp:130). The model's `read` returns 0 only at end of stream and never fails.
- `Socket::operator int` (src/io.cpp:88-91): only the field read `fd`, used in the model directly.
- `istringstream` white space: only the "C" locale's white space is modelled (space, tab, LF, VT, FF, CR).
- `delete ctl` (src/io.cpp:43): freeing memory is not modelled. The block stays allocated, with count 0 and no sharers.
- HttpSyntax.ParseResponse and the reader around it follow RFC 9112 only as far as the replies need:
  - field names are matched with exact case;
  - only leading white space is dropped from a field value;
  - the reader and those helpers carry no contracts beyond the length facts their termination needs.
