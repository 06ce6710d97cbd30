/**
 * One HTTP connection slot: the fixed 2048-byte read buffer, its three
 * cursors, the parsed request fields and the main state machine's state,
 * together with the lifecycle operations that reset, close and fill it.
 *
 * The source keeps `user_count_` as a process-wide static; here it is passed
 * in and handed back explicitly.
 */
module Connection {
  import opened Wrappers
  import opened CText

  /** `read_buffer_size_`. */
  const BufferSize: int := 2048

  const CR: char := '\r'
  const LF: char := '\n'

  /** `METHOD`: only `Get` is ever produced by the parser. */
  datatype Method = Get | Post | Head | Put | Delete | Trace | Options | Connect

  /** `CHECK_STATE`, the main state machine. */
  datatype CheckState = CheckRequestLine | CheckHeader | CheckContent

  /** `LINE_STATUS`: a complete line, a malformed line, or an incomplete one. */
  datatype LineStatus = LineOk | LineBad | LineOpen

  /** `HTTP_CODE`. */
  datatype HttpCode =
    | NoRequest          // incomplete, read more
    | GetRequest         // a complete request
    | BadRequest         // syntax error
    | NoResource
    | ForbiddenRequest
    | FileRequest
    | InternalError
    | CloseConnection

  /** The fields of `HttpConn` the parser and the lifecycle touch. `url` and
      `version` stand for the `char *` fields: `None` is `nullptr`, `Some(s)`
      the C string the pointer denotes. */
  datatype Conn = Conn(
    sockfd: int,
    buf: string,
    readIndex: int,
    checkedIndex: int,
    startLine: int,
    requestMethod: Method,
    url: Option<string>,
    version: Option<string>,
    linger: bool,
    state: CheckState)

  /** The cursor invariant: `0 <= start_line_ <= checked_index_ <= read_index_
      <= read_buffer_size_`, over a buffer of exactly that size. */
  predicate Valid(c: Conn) {
    && |c.buf| == BufferSize
    && 0 <= c.startLine <= c.checkedIndex <= c.readIndex <= BufferSize
  }

  /** Position of a state in `REQUESTLINE -> HEADER -> CONTENT`. */
  function Rank(s: CheckState): nat {
    match s
    case CheckRequestLine => 0
    case CheckHeader => 1
    case CheckContent => 2
  }

  /** A connection as `Init()` leaves it, whatever its socket. */
  predicate IsFresh(c: Conn) {
    && |c.buf| == BufferSize
    && (forall i :: 0 <= i < |c.buf| ==> c.buf[i] == NUL)
    && c.readIndex == 0 && c.checkedIndex == 0 && c.startLine == 0
    && c.state == CheckRequestLine
    && c.requestMethod == Get && c.url == None && c.version == None
    && !c.linger
  }

  /** `Init()`: reset the parser state for a new request; the socket stays. */
  function Init(c: Conn): (r: Conn)
    ensures IsFresh(r) && Valid(r)
    ensures r.sockfd == c.sockfd
  {
    c.(buf := seq(BufferSize, _ => NUL), readIndex := 0, checkedIndex := 0,
       startLine := 0, requestMethod := Get, url := None, version := None,
       linger := false, state := CheckRequestLine)
  }

  /** `Init(sockfd, addr)`: take over a freshly accepted socket and count one
      more user. */
  function Accept(c: Conn, sockfd: int, users: int): (r: (Conn, int))
    ensures IsFresh(r.0) && Valid(r.0)
    ensures r.0.sockfd == sockfd
    ensures r.1 == users + 1
  {
    (Init(c.(sockfd := sockfd)), users + 1)
  }

  /** `CloseConn()`: a connection with a live socket gives it up and counts
      one user fewer; a closed one is left alone. */
  function CloseConn(c: Conn, users: int): (r: (Conn, int))
    ensures r.0.sockfd == -1
    ensures r.0.(sockfd := c.sockfd) == c
    ensures r.1 == (if c.sockfd != -1 then users - 1 else users)
  {
    if c.sockfd != -1 then (c.(sockfd := -1), users - 1) else (c, users)
  }

  /** `GetLine()`: the C string that starts at `start_line_`. */
  function GetLine(c: Conn): string
    requires Valid(c)
  {
    UntilNul(c.buf[c.startLine..])
  }

  /** `GetLine()` is the NUL-free run of bytes at `start_line_`, ended by the
      first NUL or by the end of `read_buf_`. */
  lemma GetLineIsCString(c: Conn)
    requires Valid(c)
    ensures var line := GetLine(c);
      && c.startLine + |line| <= BufferSize
      && line == c.buf[c.startLine..c.startLine + |line|]
      && NUL !in line
      && (c.startLine + |line| < BufferSize ==> c.buf[c.startLine + |line|] == NUL)
  {
  }

  /** `recv` storing `data` at `read_index_` and the cursor moving past it. */
  function Receive(c: Conn, data: string): (r: Conn)
    requires Valid(c) && c.readIndex + |data| <= BufferSize
    ensures Valid(r)
    ensures r.readIndex == c.readIndex + |data|
    ensures r.buf[..c.readIndex] == c.buf[..c.readIndex]
    ensures r.buf[c.readIndex..r.readIndex] == data
    ensures r.buf[r.readIndex..] == c.buf[r.readIndex..]
    ensures r.(buf := c.buf, readIndex := c.readIndex) == c
  {
    c.(buf := c.buf[..c.readIndex] + data + c.buf[c.readIndex + |data|..],
       readIndex := c.readIndex + |data|)
  }

  // ---------------------------------------------------------------------
  // Read: the non-blocking drain loop
  // ---------------------------------------------------------------------

  /** What one call of `recv` reports: bytes, `EAGAIN`/`EWOULDBLOCK`, an
      orderly shutdown by the peer (0), or any other error. */
  datatype RecvEvent = Data(bytes: string) | WouldBlock | PeerClosed | Failed

  /** Outcome of `Read()`: its boolean result and the connection after it. */
  datatype ReadResult = ReadResult(ok: bool, conn: Conn)

  /** The bytes the peer sends before the first event that is not data. */
  function Payload(events: seq<RecvEvent>): string {
    if |events| == 0 || !events[0].Data? then []
    else events[0].bytes + Payload(events[1..])
  }

  /** The event that ends the run of data at the head of `events`; a script
      that runs out stands for a socket with nothing more to deliver. */
  function EndEvent(events: seq<RecvEvent>): RecvEvent {
    if |events| == 0 then WouldBlock
    else if events[0].Data? then EndEvent(events[1..])
    else events[0]
  }

  /** Every chunk before the terminating event carries at least one byte. */
  predicate NoEmptyChunk(events: seq<RecvEvent>) {
    forall i :: 0 <= i < |events| && events[i].Data? ==> |events[i].bytes| > 0
  }

  /** `Read()`: refuse a full buffer, otherwise drain the socket. */
  function Read(c: Conn, events: seq<RecvEvent>): (r: ReadResult)
    requires Valid(c)
    ensures Valid(r.conn)
    ensures c.readIndex <= r.conn.readIndex
    ensures r.conn.(buf := c.buf, readIndex := c.readIndex) == c
    ensures r.conn.buf[..c.readIndex] == c.buf[..c.readIndex]
    ensures c.readIndex >= BufferSize ==> !r.ok && r.conn == c
  {
    if c.readIndex >= BufferSize then ReadResult(false, c) else Drain(c, events)
  }

  /** The `while (true)` loop of `Read()`: each chunk is stored at
      `read_index_`, `EAGAIN` ends the loop successfully, and a zero-byte
      result or a hard error ends it with failure. `recv` is asked for no
      more bytes than there is room for, so the part of a chunk that does
      not fit stays pending in the socket and heads the script for the next
      call. Once the buffer is full, `recv` is asked for zero bytes: pending
      data then yields a zero-byte result, while `EAGAIN` still ends the
      loop successfully. */
  function Drain(c: Conn, events: seq<RecvEvent>): (r: ReadResult)
    requires Valid(c)
    ensures Valid(r.conn)
    ensures c.readIndex <= r.conn.readIndex
    ensures r.conn.(buf := c.buf, readIndex := c.readIndex) == c
    ensures r.conn.buf[..c.readIndex] == c.buf[..c.readIndex]
    decreases BufferSize - c.readIndex
  {
    if |events| == 0 then ReadResult(true, c)
    else
      match events[0]
      case WouldBlock => ReadResult(true, c)
      case PeerClosed => ReadResult(false, c)
      case Failed => ReadResult(false, c)
      case Data(bytes) =>
        var n := Min(|bytes|, BufferSize - c.readIndex);
        if n == 0 then ReadResult(false, c)
        else
          var c' := Receive(c, bytes[..n]);
          assert c'.buf[..c.readIndex] == c.buf[..c.readIndex];
          var pending := if n < |bytes| then [Data(bytes[n..])] + events[1..] else events[1..];
          var r := Drain(c', pending);
          assert r.conn.buf[..c.readIndex] == r.conn.buf[..c'.readIndex][..c.readIndex];
          r
  }

  /** The drain loop, when everything the peer sends fits: it appends
      exactly those bytes and succeeds precisely when the run of data ended
      in `EAGAIN`. */
  lemma {:induction false} DrainStoresPayload(c: Conn, events: seq<RecvEvent>)
    requires Valid(c)
    requires NoEmptyChunk(events)
    requires c.readIndex + |Payload(events)| <= BufferSize
    ensures Drain(c, events).conn.readIndex == c.readIndex + |Payload(events)|
    ensures Drain(c, events).conn.buf[c.readIndex..Drain(c, events).conn.readIndex] == Payload(events)
    ensures Drain(c, events).ok <==> EndEvent(events) == WouldBlock
    decreases |events|
  {
    if |events| > 0 && events[0].Data? {
      var bytes := events[0].bytes;
      assert |bytes| > 0;
      assert bytes[..|bytes|] == bytes;
      var c' := Receive(c, bytes);
      assert NoEmptyChunk(events[1..]) by {
        forall i | 0 <= i < |events[1..]| && events[1..][i].Data?
          ensures |events[1..][i].bytes| > 0
        {
          assert events[1..][i] == events[i + 1];
        }
      }
      DrainStoresPayload(c', events[1..]);
      var r := Drain(c', events[1..]);
      assert Drain(c, events) == r;
      var p := Payload(events[1..]);
      assert r.conn.buf[c'.readIndex..r.conn.readIndex] == p;
      assert r.conn.buf[..c'.readIndex] == c'.buf[..c'.readIndex];
      assert r.conn.buf[c.readIndex..c'.readIndex] == bytes by {
        assert r.conn.buf[c.readIndex..c'.readIndex] == r.conn.buf[..c'.readIndex][c.readIndex..];
        assert c'.buf[..c'.readIndex][c.readIndex..] == c'.buf[c.readIndex..c'.readIndex];
      }
      assert r.conn.buf[c.readIndex..r.conn.readIndex]
          == r.conn.buf[c.readIndex..c'.readIndex] + r.conn.buf[c'.readIndex..r.conn.readIndex];
    }
  }

  /** When everything the peer sends fits, `Read()` appends exactly those
      bytes after the old data and reports success precisely when the run of
      data ended in `EAGAIN`; a shutdown or an error fails it. */
  lemma ReadStoresPayload(c: Conn, events: seq<RecvEvent>)
    requires Valid(c)
    requires NoEmptyChunk(events)
    requires c.readIndex < BufferSize
    requires c.readIndex + |Payload(events)| <= BufferSize
    ensures Read(c, events).conn.readIndex == c.readIndex + |Payload(events)|
    ensures Read(c, events).conn.buf[c.readIndex..Read(c, events).conn.readIndex] == Payload(events)
    ensures Read(c, events).ok <==> EndEvent(events) == WouldBlock
  {
    DrainStoresPayload(c, events);
  }

  /** A chunk that reaches the end of the buffer: its first bytes fill the
      buffer to the last byte and the next `recv` is asked for zero bytes.
      `Read()` then succeeds exactly when the chunk fitted whole and that
      call reports `EAGAIN` (or nothing more happens); the unread rest of a
      longer chunk is a zero-byte result, and so fails it, as does further
      data, a shutdown or an error. */
  lemma ReadFillingBuffer(c: Conn, bytes: string, rest: seq<RecvEvent>)
    requires Valid(c) && c.readIndex < BufferSize
    requires c.readIndex + |bytes| >= BufferSize
    ensures Read(c, [Data(bytes)] + rest).conn.readIndex == BufferSize
    ensures Read(c, [Data(bytes)] + rest).conn.buf[c.readIndex..] == bytes[..BufferSize - c.readIndex]
    ensures Read(c, [Data(bytes)] + rest).ok <==>
      c.readIndex + |bytes| == BufferSize && (|rest| == 0 || rest[0] == WouldBlock)
  {
    var events := [Data(bytes)] + rest;
    var n := BufferSize - c.readIndex;
    assert events[0] == Data(bytes);
    assert events[1..] == rest;
    var c' := Receive(c, bytes[..n]);
    assert c'.buf[c.readIndex..] == bytes[..n];
    if n < |bytes| {
      var pending := [Data(bytes[n..])] + rest;
      assert Drain(c, events) == Drain(c', pending);
      assert Drain(c', pending) == ReadResult(false, c');
    } else {
      assert bytes[..n] == bytes;
      assert Drain(c, events) == Drain(c', rest);
      if |rest| > 0 && rest[0].Data? {
        assert Drain(c', rest) == ReadResult(false, c');
      }
    }
  }

  // ---------------------------------------------------------------------
  // The active-connection counter
  // ---------------------------------------------------------------------

  /** Number of slots of a connection table that hold a live socket. */
  function OpenCount(table: seq<Conn>): nat {
    if |table| == 0 then 0
    else OpenCount(table[..|table| - 1]) + (if table[|table| - 1].sockfd != -1 then 1 else 0)
  }

  lemma {:induction false} OpenCountUpdate(table: seq<Conn>, i: nat, c: Conn)
    requires i < |table|
    ensures OpenCount(table[i := c])
         == OpenCount(table) - (if table[i].sockfd != -1 then 1 else 0) + (if c.sockfd != -1 then 1 else 0)
    decreases |table|
  {
    var t' := table[i := c];
    var n := |table|;
    if i < n - 1 {
      assert t'[..n - 1] == table[..n - 1][i := c];
      OpenCountUpdate(table[..n - 1], i, c);
    } else {
      assert t'[..n - 1] == table[..n - 1];
    }
  }

  /** `user_count_` equals the number of live slots as long as every accept
      lands in a closed slot and every close goes through `CloseConn`. */
  predicate CountMatches(table: seq<Conn>, users: int) {
    users == OpenCount(table)
  }

  lemma AcceptKeepsCount(table: seq<Conn>, users: int, fd: nat)
    requires CountMatches(table, users)
    requires fd < |table| && table[fd].sockfd == -1
    ensures CountMatches(table[fd := Accept(table[fd], fd, users).0], Accept(table[fd], fd, users).1)
  {
    OpenCountUpdate(table, fd, Accept(table[fd], fd, users).0);
  }

  lemma CloseKeepsCount(table: seq<Conn>, users: int, i: nat)
    requires CountMatches(table, users)
    requires i < |table|
    ensures CountMatches(table[i := CloseConn(table[i], users).0], CloseConn(table[i], users).1)
  {
    OpenCountUpdate(table, i, CloseConn(table[i], users).0);
  }

  /** Closing twice is closing once: the second call finds `sockfd_ == -1`. */
  lemma CloseConnIdempotent(c: Conn, users: int)
    ensures CloseConn(CloseConn(c, users).0, CloseConn(c, users).1) == CloseConn(c, users)
  {
  }
}
