# WebServer request parsing and worker hand-off, in Dafny

This project models the per-connection HTTP/1.1 request parser of a small
epoll/thread-pool web server (`HttpConn`), together with the bounded FIFO
through which the event loop hands connections to worker threads
(`ThreadPool`). Everything is stated as pure state transitions:

- `wrappers.dfy` (`Wrappers`): the shared `Option` type and the `Min`/`Max`
  helpers.
- `ctext.dfy` (`CText`): the C string routines the parser relies on.
  - `strpbrk`/`strchr` become `FirstIndex`.
  - `strcasecmp` becomes `EqualsIgnoreCase`.
  - The NUL-terminated view of a `char *` becomes `UntilNul`.
- `connection.dfy` (`Connection`): the `HttpConn` fields and enums; `Init`,
  `Init(sockfd, addr)` (`Accept`) and `CloseConn`; `GetLine`; and the
  `Read()` drain loop over a script of `recv` outcomes. Also the
  `user_count_` bookkeeping over a table of connections.
- `line_splitter.dfy` (`LineSplitter`): the sub-state-machine `ParseLine()`.
  It is given both as intended (`ParseLine`, and `ScanLine` as its loop) and
  as written (`ParseLineAsWritten`).
- `request_line.dfy` (`RequestLineParser`): `ParseRequestLine(text)`. It is
  given both as intended (`ParseRequestLineText`) and as written
  (`ParseRequestLineTextAsWritten`). A declarative grammar (`Accepts`) is
  proved equivalent to the intended parse.
- `request_machine.dfy` (`RequestMachine`): the main state machine
  `ProcessRead()` and the worker entry point `Process()` with its decision
  whether to re-arm the socket.
- `worker_pool.dfy` (`WorkerPool`): the `ThreadPool` constructor checks,
  `Append`, and one dequeue step of `Run`. The list is a sequence (a null
  pointer is `None`) and the semaphore is a natural number.

The read buffer is a `string` of exactly 2048 characters. The cursors are
integers with `0 <= start_line_ <= checked_index_ <= read_index_ <= 2048`
(`Connection.Valid`), and every operation proves that it keeps this.

Where the code departs from its own evident intent, the model has both
readings. The intended one is what the rest of the model builds on, and the
literal one sits next to it with a lemma that exhibits the difference (see
"## Findings"). Three behaviours of the code are modelled as the code has
them, although a general description of such a server would promise
otherwise:

- `LINE_BAD` does not end `ProcessRead` with `BAD_REQUEST`. The loop
  condition only asks whether the status is `LINE_OK`, so a malformed line
  yields `NO_REQUEST`, the same answer as an incomplete one.
- `ParseHeaders` and `ParseContent` are stubs that return `NO_REQUEST`. So
  no header or body ever completes a request, and `DoRequest` is never
  reached (`RequestMachine.HeadersNeverComplete`).
- The method and version comparisons use `strcasecmp`. So `get` and
  `http/1.1` are accepted, where an exact match might be expected.

## Model

| member | source | states |
|---|---|---|
| CText.FirstIndex | http_conn.cc:193 | `strpbrk`: the result is the least index holding a character of the set, and `None` means no character of the set occurs |
| CText.UntilNul | http_conn.h:106 | the C string at a `char *`: a prefix of the bytes without NUL, ended by the first NUL when there is one |
| CText.EqualsIgnoreCaseMeans | http_conn.cc:198 | `EqualsIgnoreCase`, the model of `strcasecmp(a, b) == 0`, holds exactly when the strings have the same length and differ at most in the case of ASCII letters |
| CText.UntilNulCut | http_conn.h:106 | a NUL written at a position ends the C string no later than there: cutting the bytes at it changes nothing |
| Connection.Init | http_conn.cc:66-79 | every parser field is reset: state is the request line, the cursors are 0, the method is GET, url and version are null, linger is off, the buffer is all NUL; the socket is kept |
| Connection.Accept | http_conn.cc:50-64 | the connection takes the new socket, is fresh as after `Init()`, and the user count goes up by one |
| Connection.CloseConn | http_conn.cc:82-90 | afterwards the socket is -1 and nothing else changes; the user count drops by one exactly when the socket was live |
| Connection.Receive | http_conn.cc:104-105 | bytes a `recv` delivers land at `read_index_` and the cursor moves past them; the bytes before and after, and every other field, are unchanged |
| Connection.GetLineIsCString | http_conn.h:106 | `GetLine()` is the NUL-free run of bytes from `start_line_`, ended by the first NUL or the end of `read_buf_` |
| Connection.Read | http_conn.cc:92-125 | a buffer already full fails and changes nothing; otherwise earlier bytes are never overwritten and `read_index_` never goes back |
| Connection.Drain | http_conn.cc:102-122 | the drain loop keeps the cursor invariant, only appends to the buffer, and never moves `read_index_` back |
| Connection.DrainStoresPayload | http_conn.cc:102-122 | when all data fits, the loop appends exactly the bytes the peer sent and ends successfully exactly when the data ran out on `EAGAIN` |
| Connection.ReadStoresPayload | http_conn.cc:92-124 | when all data fits, `Read()` appends exactly the bytes the peer sent, and succeeds exactly when the data ran out on `EAGAIN`; a peer close or error fails it |
| Connection.ReadFillingBuffer | http_conn.cc:102-124 | a chunk that reaches the end of the buffer fills it with its first bytes. The next `recv` is asked for 0 bytes, so the unread rest of a longer chunk fails `Read()`. `Read()` succeeds exactly when the chunk fitted whole and that call reports `EAGAIN`, or nothing more happens |
| Connection.AcceptKeepsCount | http_conn.cc:61 | accepting into a closed slot keeps `user_count_` equal to the number of live slots |
| Connection.CloseKeepsCount | http_conn.cc:84-89 | closing any slot keeps `user_count_` equal to the number of live slots, even a slot already closed |
| Connection.CloseConnIdempotent | http_conn.cc:84-89 | closing twice has the effect of closing once |
| LineSplitter.FindTerminator | http_conn.cc:243-245 | the scan stops at the first CR or LF at or after the cursor, or at `read_index_` when there is none |
| LineSplitter.ParseLine | http_conn.cc:239-273 | the splitter keeps the cursor invariant and moves only `checked_index_` forward. LINE_OPEN: every byte was scanned, or a CR is the last byte. LINE_BAD: the cursor is on a CR without LF or an LF without CR. LINE_OK: the cursor is just past a CR LF, both bytes are now NUL, no terminator precedes them, and nothing else in the buffer changed |
| LineSplitter.ScanLine | http_conn.cc:243-271 | the byte-by-byte loop computes exactly the splitter's status and connection |
| LineSplitter.LineOkIff | http_conn.h:45-50 | LINE_OK is reported exactly when the buffer holds a complete line at the cursor |
| LineSplitter.CrAtEndIsOpen | http_conn.cc:246-251 | a CR that is the last buffered byte leaves the line open, with the cursor on the CR |
| LineSplitter.NoTerminatorIsOpen | http_conn.cc:243-272 | bytes with no CR or LF leave the line open, with the cursor at `read_index_` |
| LineSplitter.CrLfIsOk | http_conn.cc:252-256 | a CR LF after ordinary bytes completes the line: both become NUL and the cursor moves past them |
| LineSplitter.CrWithoutLfIsBad | http_conn.cc:246-258 | a CR followed by anything but LF is a malformed line, with the cursor on the CR |
| LineSplitter.BareLfIsBad | http_conn.cc:260-268 | an LF not preceded by CR is a malformed line, with the cursor on the LF |
| LineSplitter.LfAfterCrIsOk | http_conn.cc:260-266 | an LF at the cursor right after a CR completes the line: both become NUL and the cursor moves past the LF |
| LineSplitter.GetLineAfterOk | http_conn.cc:138 | after LINE_OK, `GetLine()` yields the bytes from `start_line_` up to the CR, cut at any NUL among them |
| LineSplitter.NotOkIsStable | http_conn.cc:135-136 | calling the splitter again after a non-OK status, with no new bytes, gives the same status and changes nothing |
| LineSplitter.DecidedIgnoresMore | http_conn.cc:252-268 | re-assembly: a LINE_OK or LINE_BAD verdict, its cursor and the NULs it writes do not change when more bytes arrive before the scan |
| LineSplitter.ResumeAfterOpen | http_conn.cc:248-251 | re-assembly: scanning, getting LINE_OPEN, receiving more bytes and scanning again gives the same result as receiving first and scanning once |
| LineSplitter.ParseLineAsWritten | http_conn.cc:239-273 | the literal splitter: an out-of-bounds store can only be at `read_buf_[2048]`; otherwise the cursor invariant holds, `start_line_` stays, and `checked_index_` moves at most one byte forward |
| LineSplitter.AsWrittenFreshCrLfOverruns | http_conn.cc:252-256 | as written, a fresh connection whose first read fills the buffer with bytes beginning with CR LF stores at `read_buf_[2048]` on the first call, where the intended splitter reports LINE_OK |
| LineSplitter.AsWrittenCrLfOverruns | http_conn.cc:255 | as written, a CR LF when `read_index_` is 2048 stores past the end of `read_buf_`; the intended splitter completes the line |
| LineSplitter.AsWrittenCrLfLeavesLf | http_conn.cc:254-255 | as written, a CR LF grows `read_index_` by one and leaves the LF at the cursor, so the next call reports LINE_BAD; the intended splitter leaves `read_index_` alone |
| LineSplitter.AsWrittenStopsAtFirstByte | http_conn.cc:270 | as written, an ordinary first byte ends the scan with LINE_OPEN and the cursor unmoved, even when a CR LF follows; the intended splitter finds that line |
| LineSplitter.AsWrittenEmptyScanIsOk | http_conn.cc:272 | as written, an empty scan reports LINE_OK; the intended splitter reports LINE_OPEN |
| LineSplitter.AsWrittenLfAtOneIsBad | http_conn.cc:262 | as written, CR at index 0 with LF at index 1 is LINE_BAD; the intended splitter reports LINE_OK |
| RequestLineParser.ParseRequestLineText | http_conn.cc:190-228 | an accepted line always has method GET, a non-empty url starting with `/`, and a version equal to `HTTP/1.1` ignoring case |
| RequestLineParser.ParseRequestLine | http_conn.cc:190-232 | returns NO_REQUEST exactly when the text parses, then sets method, url and version and moves to the header state and changes nothing else; BAD_REQUEST leaves the connection unchanged |
| RequestLineParser.StripScheme | http_conn.cc:219-224 | a target without `http://` is kept whole; one with it keeps a non-empty url that starts with `/` and lies after the scheme |
| RequestLineParser.StripSchemeKeepsTail | http_conn.cc:219-224 | the url left is always a tail of the target, since the code only moves a pointer into the line |
| RequestLineParser.StripSchemeIsPathOf | http_conn.cc:219-224 | an `http://` target (any case) is cut at the first `/` after the scheme, and has no path when there is none; any other target is kept whole |
| RequestLineParser.ParseSound | http_conn.cc:192-228 | every accepted line is `GET SP target SP HTTP/1.1` with separator-free parts, and its url is the target's path |
| RequestLineParser.ParseComplete | http_conn.cc:192-228 | every such line is accepted, with the fields it spells |
| RequestLineParser.ParseMatchesGrammar | http_conn.cc:192-228 | the parse accepts a line with given fields if and only if the grammar does |
| RequestLineParser.AcceptsGetLine | http_conn.cc:192-231 | `GET <target> HTTP/1.1` with a separator-free target is accepted with the path the target names |
| RequestLineParser.AbsoluteTarget | http_conn.cc:219-224 | `http://<host><path>` with a slash-free host holds no separator and names `<path>` |
| RequestLineParser.OriginFormRoundTrip | http_conn.cc:192 | `GET <path> HTTP/1.1` parses back to that path, GET and `HTTP/1.1` |
| RequestLineParser.AbsoluteFormRoundTrip | http_conn.cc:219-224 | `GET http://<host><path> HTTP/1.1` parses back to the path alone |
| RequestLineParser.RejectsOtherMethod | http_conn.cc:197-206 | any first token other than GET (ignoring case) is a bad request |
| RequestLineParser.RejectsOtherVersion | http_conn.cc:215-218 | any version other than `HTTP/1.1` (ignoring case) is a bad request |
| RequestLineParser.RejectsNoSeparator | http_conn.cc:193-194 | a line with no space or tab is a bad request |
| RequestLineParser.RejectsMissingVersion | http_conn.cc:208-212 | a GET line with no second separator is a bad request |
| RequestLineParser.RejectsAbsoluteFormWithoutPath | http_conn.cc:223 | an `http://host` target with no `/` after the host is a bad request |
| RequestLineParser.ExampleGet | http_conn.cc:192 | `GET /a/b HTTP/1.1` yields GET, `/a/b`, `HTTP/1.1` |
| RequestLineParser.ExamplePost | http_conn.cc:198-206 | `POST / HTTP/1.1` is a bad request |
| RequestLineParser.ExampleVersion10 | http_conn.cc:215-218 | `GET /x HTTP/1.0` is a bad request |
| RequestLineParser.ParseRequestLineTextAsWritten | http_conn.cc:190-228 | the literal parse: it faults exactly when the line has no space or tab, and every line it accepts has method GET, version `HTTP/1.1` ignoring case, and a url that does not start with `/` |
| RequestLineParser.AsWrittenInvertsTargetCheck | http_conn.cc:226-228 | as written, every line the intended parse accepts is rejected, and every line the code accepts has a url not starting with `/` |
| RequestLineParser.AsWrittenRejectsOriginForm | http_conn.cc:226 | as written, `GET /<path> HTTP/1.1` is rejected; the intended parse accepts it |
| RequestLineParser.AsWrittenFaultsWithoutSeparator | http_conn.cc:193-194 | as written, a line with no space or tab writes through a null pointer; the intended parse rejects it |
| RequestMachine.Interpret | http_conn.cc:138-183 | a line in hand moves `start_line_` to `checked_index_` and leaves the buffer and both other cursors alone. Only a request-line rejection exits (with BAD_REQUEST). The state never goes back. The content step sets the line status to LINE_OPEN |
| RequestMachine.Step | http_conn.cc:135-183 | one loop pass strictly shrinks the loop measure (twice the bytes left to scan, plus one while the content step is due without the splitter), and the state never goes back. Exiting with NO_REQUEST means the splitter had no complete line, and calling it again changes nothing |
| RequestMachine.Drive | http_conn.cc:130-186 | the loop ends with NO_REQUEST or BAD_REQUEST. It never moves `read_index_` or `checked_index_` back, nor the state, and it leaves the socket and linger alone. NO_REQUEST leaves no complete line behind |
| RequestMachine.ProcessRead | http_conn.cc:128-187 | the result is NO_REQUEST or BAD_REQUEST and the cursor invariant holds |
| RequestMachine.Process | http_conn.cc:286-294 | the socket is re-armed exactly when the result is NO_REQUEST, and then no complete line is left unparsed; otherwise the result is BAD_REQUEST |
| RequestMachine.ProcessReadMonotone | http_conn.cc:128-187 | `ProcessRead` never moves `checked_index_` back, never changes `read_index_`, and never returns the state machine to an earlier state |
| RequestMachine.BadRequestLineStops | http_conn.cc:144-150 | a complete request line that fails to parse ends `ProcessRead` with BAD_REQUEST at once |
| RequestMachine.HeadersNeverComplete | http_conn.cc:154-177 | past the request line, every buffered line is consumed and ignored; the result is NO_REQUEST and the state is unchanged |
| RequestMachine.ReprocessIsIdle | http_conn.cc:135-136 | running `ProcessRead` again after NO_REQUEST, with no new bytes and outside the content state, returns the same result and connection (in the content state the loop body runs again without the splitter) |
| RequestMachine.WholeLineArrives | http_conn.cc:138 | a line and its CR LF at the end of the buffered bytes is the next line handed out, and `GetLine()` yields it |
| RequestMachine.FirstRequestLine | http_conn.cc:128-152 | one complete request line is taken in a single `ProcessRead`. A failing parse gives BAD_REQUEST. Otherwise the result is NO_REQUEST, in the header state, with the url and version stored |
| RequestMachine.FreshGetRequest | http_conn.cc:66-79 | end to end: after `Init()` and receipt of `GET <path> HTTP/1.1` CR LF, `ProcessRead` gives NO_REQUEST in the header state, with that url and version |
| WorkerPool.Create | threadpool.h:48-55 | construction fails exactly when the thread count or the queue bound is not positive; otherwise the queue is empty and the invariant holds |
| WorkerPool.Append | threadpool.h:86-102 | a full queue refuses the request and nothing changes; otherwise the request goes to the back and the semaphore goes up by one, keeping the invariant |
| WorkerPool.Dequeue | threadpool.h:118-134 | with no post, the worker blocks. Otherwise one post is consumed, and the front is popped (processed, or discarded when null). An empty queue is left as it is, which the invariant rules out |
| WorkerPool.Serve | threadpool.h:113-136 | the requests workers process while the semaphore lasts: at most one per post, and at most as many as are queued |
| WorkerPool.ServeIsFifo | threadpool.h:126-135 | workers dequeuing until the semaphore is spent process exactly the queued non-null requests, in queue order |
| WorkerPool.AppendIsServedLast | threadpool.h:97 | an accepted request is processed after every request already waiting |
| WorkerPool.AppendAllFills | threadpool.h:89-101 | a burst of appends queues requests in order up to the bound; the excess is refused and the earlier entries keep their order |
| WorkerPool.AppendAllFullIsIdle | threadpool.h:91-95 | once the queue is full, appends change nothing |
| WorkerPool.AppendAsWritten | threadpool.h:89-101 | as written, the queue stays within `max_requests_ + 1`, and a queue holding exactly `max_requests_` accepts one more, which breaks the intended invariant |
| WorkerPool.AsWrittenBound | threadpool.h:89-101 | as written, appends and dequeues keep the queue within `max_requests_ + 1` |
| WorkerPool.AsWrittenOverfills | threadpool.h:91 | as written, a full queue accepts one request more and breaks the intended bound; the corrected `Append` refuses it |

## Left out

- The event loop, the listening socket, signals and the connection table
  allocation in `main.cc` are not part of this model. The table appears only
  as the sequence the `user_count_` lemmas quantify over.
- `setnonblocking`, `Addfd`, `Removefd` and `Modfd` are left out, because
  they are system calls on file descriptors. `Process` reports whether it
  re-arms; it does not perform the re-arm.
- `Addfd` computes `event.events | EPOLLONESHOT` and discards the result
  (http_conn.cc:24), so accepted sockets are not one-shot until `Process`
  first re-arms them through `Modfd` (http_conn.cc:45, :292), which also
  drops `EPOLLET`. This is left out with the rest of the epoll registration.
- `locker.h` (mutex, condition variable and semaphore wrappers) is not part
  of this model. Its effect is the atomicity of `Append` and of one dequeue
  step, and a natural-number counter.
- The constructor's default arguments (8 threads, at most 10000 queued
  requests, threadpool.h:16), which `main.cc` relies on, are not fixed in
  the model: `WorkerPool.Create` takes both numbers as parameters, and
  every property holds for any positive pair.
- Thread creation and detach in the `ThreadPool` constructor, the destructor
  and `stop_` are left out, because they are concurrency. A failed
  `pthread_create` or `new` is not modelled.
- `Write`, `DoRequest` and the response side are left out: they are empty
  stubs. `DoRequest` is never reached, because no header step returns
  `GET_REQUEST`.
- `ParseHeaders` and `ParseContent` are modelled by their effect (return
  `NO_REQUEST`, change nothing) inside `RequestMachine.Interpret`, with no
  member of their own. `host_` is never touched, so it has no field.
  `HttpConn` declares no write buffer; only the
  constant `write_buffer_size_` exists, and nothing uses it.
- The `default:` branch of `ProcessRead`'s switch (`INTERNAL_ERROR`) is
  absent, because `CheckState` has only the three states.
- `address_` and `setsockopt` in `Init(sockfd, addr)` are left out, because
  they are socket plumbing.
- The `printf` calls are left out.
- RequestLineParser.ParseRequestLine: the NULs the code writes into the
  buffer at the two separators, and the half-set `url_`/`version_` left on a
  failure path, are not modelled. The model keeps the parsed fields and
  leaves the connection unchanged on failure. Nothing later reads those
  bytes or fields.
- Connection.Read: `recv` is a script of outcomes given as a parameter, and
  the script ending stands for `EAGAIN`. Once the buffer is full, `recv` is
  asked for 0 bytes. A data event then counts as a 0-byte result, and
  `WouldBlock` counts as `EAGAIN`. `errno` values other than
  `EAGAIN`/`EWOULDBLOCK` are one outcome, `Failed`.
- Connection.ReadStoresPayload: states the bytes stored and the result only
  when the whole payload fits. A payload that reaches the end of the buffer
  is covered by `Connection.ReadFillingBuffer` for its first chunk that does.
- Integer widths: the cursors are `int` in the code but never exceed 2049.
  The queue size is compared as `size_t` against an `int` that the
  constructor has made positive. So no wrap-around arises and none is
  modelled.

## Findings

| source | as written | input that shows it | evidently intended | confidence | as-written member | corrected member |
|---|---|---|---|---|---|---|
| http_conn.cc:255 | on `CR LF` the second NUL goes to `read_buf_[read_index_++]`, not `read_buf_[checked_index_++]` | a `CR LF` at the cursor with room left: `read_index_` grows and the LF stays at the cursor, so the next call of the splitter reports `LINE_BAD`. As written this is reached only once line 270 is fixed: until then the only `CR LF` the splitter meets is at index 0, whose empty line makes `ParseRequestLine` fault at :194 first | both terminator bytes become NUL and the cursor moves past them | high, not executed | LineSplitter.AsWrittenCrLfLeavesLf | LineSplitter.CrLfIsOk |
| http_conn.cc:255 | the same store, at a full buffer | a fresh connection whose first read delivers 2048 bytes that begin with `CR LF`: the store lands at `read_buf_[2048]` | the line completes inside the buffer | high, not executed | LineSplitter.AsWrittenFreshCrLfOverruns | LineSplitter.ParseLine |
| http_conn.cc:270 | `return LINE_OPEN` sits inside the loop, after the CR and LF tests | `GET / HTTP/1.1\r\n`: the first byte `G` ends the scan, LINE_OPEN, cursor unmoved, forever | skip ordinary bytes and keep scanning | high, not executed | LineSplitter.AsWrittenStopsAtFirstByte | LineSplitter.ScanLine |
| http_conn.cc:272 | an exhausted scan returns `LINE_OK` | `checked_index_ == read_index_`, such as an empty read | an exhausted scan means the line is incomplete | high, not executed | LineSplitter.AsWrittenEmptyScanIsOk | LineSplitter.NoTerminatorIsOpen |
| http_conn.cc:262 | an LF completes a line only if `checked_index_ > 1` | `CR` at index 0, `LF` at index 1, cursor on the LF | `checked_index_ > 0`, so that the CR at index 0 counts | medium, not executed | LineSplitter.AsWrittenLfAtOneIsBad | LineSplitter.LfAfterCrIsOk |
| http_conn.cc:226 | returns `BAD_REQUEST` when `url_` is null or when `url_[0] == '/'` | `GET /index.html HTTP/1.1` is rejected, while `GET x HTTP/1.1` is accepted | reject a url that does not start with `/` | high, not executed | RequestLineParser.AsWrittenRejectsOriginForm | RequestLineParser.OriginFormRoundTrip |
| http_conn.cc:193-194 | `*url_++ = '\0'` right after `strpbrk`, with no null test | a line with no space or tab, such as `GET` | reject the line as a bad request | high, not executed | RequestLineParser.AsWrittenFaultsWithoutSeparator | RequestLineParser.RejectsNoSeparator |
| threadpool.h:91 | refuses only when `size() > max_requests_` | a queue holding `max_requests_` requests accepts one more | refuse when `size() >= max_requests_` | high, not executed | WorkerPool.AsWrittenOverfills | WorkerPool.AppendAllFills |
