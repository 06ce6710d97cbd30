/**
 * The main state machine (`ProcessRead`) and the worker's entry point
 * (`Process`). The drive loop takes complete lines from the splitter and
 * interprets each according to `check_state_`; it stops with `BAD_REQUEST`
 * as soon as a step rejects its line, and with `NO_REQUEST` as soon as the
 * splitter has no complete line to give.
 *
 * `ParseHeaders` and `ParseContent` are stubs in the source that return
 * `NO_REQUEST` and change nothing, so the header and content steps below
 * always fall through to the next line; neither ever reports a complete
 * request, so `DoRequest` is never reached.
 */
module RequestMachine {
  import opened Wrappers
  import opened CText
  import opened Connection
  import opened LineSplitter
  import opened RequestLineParser

  /** One pass of the `while` loop: leave `ProcessRead` with a code, or go
      round again with the connection and the current `line_status`. */
  datatype StepResult = Exit(code: HttpCode, conn: Conn) | Next(conn: Conn, lineStatus: LineStatus)

  /** Bytes left to scan, counted twice, plus one while the loop would enter
      the content step without calling the splitter. */
  function Measure(c: Conn, ls: LineStatus): int {
    2 * (c.readIndex - c.checkedIndex) + (if c.state == CheckContent && ls == LineOk then 1 else 0)
  }

  /** The loop body once a line is in hand: take `GetLine()`, move
      `start_line_` to `checked_index_`, and dispatch on the state. */
  function Interpret(c: Conn): (r: StepResult)
    requires Valid(c)
    ensures Valid(r.conn)
    ensures r.conn.buf == c.buf && r.conn.readIndex == c.readIndex && r.conn.checkedIndex == c.checkedIndex
    ensures r.conn.startLine == c.checkedIndex
    ensures r.conn.sockfd == c.sockfd && r.conn.linger == c.linger
    ensures Rank(c.state) <= Rank(r.conn.state)
    ensures r.Exit? ==> r.code == BadRequest && c.state == CheckRequestLine
    ensures r.Next? ==> r.conn.state != CheckContent || r.lineStatus == LineOpen
  {
    var text := GetLine(c);
    var c1 := c.(startLine := c.checkedIndex);
    match c1.state
    case CheckRequestLine =>
      var (code, c2) := ParseRequestLine(c1, text);
      if code == BadRequest then Exit(BadRequest, c2) else Next(c2, LineOk)
    case CheckHeader =>
      Next(c1, LineOk)
    case CheckContent =>
      Next(c1, LineOpen)
  }

  /** One evaluation of the loop condition and, if it holds, the body. In
      the content state with `line_status == LINE_OK` the body runs without
      asking the splitter; otherwise the splitter is asked for a line and
      anything but `LINE_OK` ends the loop with `NO_REQUEST`. */
  function Step(c: Conn, ls: LineStatus): (r: StepResult)
    requires Valid(c)
    ensures Valid(r.conn)
    ensures r.conn.readIndex == c.readIndex && c.checkedIndex <= r.conn.checkedIndex
    ensures r.conn.sockfd == c.sockfd && r.conn.linger == c.linger
    ensures Rank(c.state) <= Rank(r.conn.state)
    ensures r.Next? ==> Measure(r.conn, r.lineStatus) < Measure(c, ls)
    ensures r.Exit? ==> r.code == NoRequest || r.code == BadRequest
    ensures r.Exit? && r.code == NoRequest ==>
      && ParseLine(r.conn) == LineResult(ParseLine(c).status, r.conn)
      && ParseLine(r.conn).status != LineOk
      && r.conn.startLine == c.startLine
    ensures r.Next? || r.code == BadRequest ==> r.conn.startLine == r.conn.checkedIndex
  {
    if c.state == CheckContent && ls == LineOk then Interpret(c)
    else
      var pl := ParseLine(c);
      if pl.status == LineOk then Interpret(pl.conn)
      else
        NotOkIsStable(c);
        Exit(NoRequest, pl.conn)
  }

  /** The `while` loop of `ProcessRead`, from a given `line_status`. */
  function Drive(c: Conn, ls: LineStatus): (r: (HttpCode, Conn))
    requires Valid(c)
    ensures Valid(r.1)
    ensures r.1.readIndex == c.readIndex && c.checkedIndex <= r.1.checkedIndex
    ensures r.1.sockfd == c.sockfd && r.1.linger == c.linger
    ensures Rank(c.state) <= Rank(r.1.state)
    ensures r.0 == NoRequest || r.0 == BadRequest
    ensures r.0 == NoRequest ==> ParseLine(r.1).status != LineOk && ParseLine(r.1).conn == r.1
    decreases Measure(c, ls)
  {
    match Step(c, ls)
    case Exit(code, c') => (code, c')
    case Next(c', ls') => Drive(c', ls')
  }

  /** `ProcessRead()`: the loop starts with `line_status = LINE_OK`. */
  function ProcessRead(c: Conn): (r: (HttpCode, Conn))
    requires Valid(c)
    ensures Valid(r.1)
    ensures r.0 == NoRequest || r.0 == BadRequest
  {
    Drive(c, LineOk)
  }

  /** What a worker's call of `Process()` leads to: the parse result, whether
      read interest is re-armed, and the connection afterwards. */
  datatype ProcessResult = ProcessResult(code: HttpCode, rearm: bool, conn: Conn)

  /** `Process()`: re-arm the socket for reading exactly when the request is
      still incomplete; a rejected request is left without re-arming. */
  function Process(c: Conn): (r: ProcessResult)
    requires Valid(c)
    ensures Valid(r.conn)
    ensures r.rearm <==> r.code == NoRequest
    ensures !r.rearm ==> r.code == BadRequest
    ensures r.rearm ==> !HasCompleteLine(r.conn)
  {
    var (code, c') := ProcessRead(c);
    LineOkIff(c');
    ProcessResult(code, code == NoRequest, c')
  }

  // ---------------------------------------------------------------------
  // Properties of the drive loop
  // ---------------------------------------------------------------------

  /** `ProcessRead` never moves `checked_index_` back, never touches
      `read_index_`, and never moves the main state machine backwards; only
      `Init` returns it to the request-line state. */
  lemma ProcessReadMonotone(c: Conn)
    requires Valid(c)
    ensures c.checkedIndex <= ProcessRead(c).1.checkedIndex
    ensures ProcessRead(c).1.readIndex == c.readIndex
    ensures Rank(c.state) <= Rank(ProcessRead(c).1.state)
    ensures c.state != CheckRequestLine ==> ProcessRead(c).1.state != CheckRequestLine
  {
  }

  /** A request line the parser rejects ends `ProcessRead` with
      `BAD_REQUEST` at once. */
  lemma BadRequestLineStops(c: Conn)
    requires Valid(c) && c.state == CheckRequestLine
    requires ParseLine(c).status == LineOk
    requires ParseRequestLineText(GetLine(ParseLine(c).conn)).None?
    ensures ProcessRead(c).0 == BadRequest
    ensures ProcessRead(c).1.startLine == ProcessRead(c).1.checkedIndex == ParseLine(c).conn.checkedIndex
  {
  }

  /** A connection already past the request line never completes a request
      with the stub header and content steps: every buffered line is taken
      and ignored, and `ProcessRead` asks for more data. */
  lemma {:induction false} HeadersNeverComplete(c: Conn, ls: LineStatus)
    requires Valid(c) && c.state != CheckRequestLine
    ensures Drive(c, ls).0 == NoRequest
    ensures Drive(c, ls).1.state == c.state
    ensures !HasCompleteLine(Drive(c, ls).1)
    decreases Measure(c, ls)
  {
    var r := Drive(c, ls);
    LineOkIff(r.1);
    match Step(c, ls)
    case Exit(code, c') =>
      assert (c.state == CheckContent && ls == LineOk) || ParseLine(c).status != LineOk;
    case Next(c', ls') =>
      HeadersNeverComplete(c', ls');
  }

  /** Running `ProcessRead` again before new bytes arrive changes nothing. */
  lemma ReprocessIsIdle(c: Conn)
    requires Valid(c)
    requires ProcessRead(c).0 == NoRequest && ProcessRead(c).1.state != CheckContent
    ensures ProcessRead(ProcessRead(c).1) == ProcessRead(c)
  {
    var c' := ProcessRead(c).1;
    assert Step(c', LineOk) == Exit(NoRequest, c');
  }

  /** A line followed by `CR LF` at the end of the buffered bytes is what
      the splitter hands out next, and `GetLine` then yields it. */
  lemma WholeLineArrives(c: Conn, line: string)
    requires Valid(c)
    requires c.readIndex == c.checkedIndex + |line| + 2
    requires c.buf[c.checkedIndex..c.readIndex] == line + [CR, LF]
    requires forall t :: 0 <= t < |line| ==> line[t] != CR && line[t] != LF && line[t] != NUL
    ensures ParseLine(c).status == LineOk
    ensures ParseLine(c).conn.checkedIndex == c.readIndex
    ensures c.startLine == c.checkedIndex ==> GetLine(ParseLine(c).conn) == line
  {
    var k := c.checkedIndex + |line|;
    var window := c.buf[c.checkedIndex..c.readIndex];
    assert NoTerminator(c.buf, c.checkedIndex, k) by {
      forall i | c.checkedIndex <= i < k ensures !IsTerminator(c.buf[i]) {
        assert c.buf[i] == window[i - c.checkedIndex];
      }
    }
    assert c.buf[k] == window[|line|];
    assert c.buf[k + 1] == window[|line| + 1];
    CrLfIsOk(c, k);
    if c.startLine == c.checkedIndex {
      GetLineAfterOk(c);
      assert c.buf[c.startLine..k] == window[..|line|];
    }
  }

  /** A request line that arrives with its `CR LF` and nothing after it is
      taken in one `ProcessRead`: rejected with `BAD_REQUEST` when the
      request-line parse fails, otherwise stored, with the state moved to the
      header state and `NO_REQUEST` returned while the headers are awaited. */
  lemma FirstRequestLine(c: Conn, line: string)
    requires Valid(c) && c.state == CheckRequestLine
    requires c.startLine == c.checkedIndex
    requires c.readIndex == c.checkedIndex + |line| + 2
    requires c.buf[c.checkedIndex..c.readIndex] == line + [CR, LF]
    requires forall t :: 0 <= t < |line| ==> line[t] != CR && line[t] != LF && line[t] != NUL
    ensures ParseRequestLineText(line).None? ==> ProcessRead(c).0 == BadRequest
    ensures ParseRequestLineText(line).Some? ==>
      var r := ProcessRead(c);
      && r.0 == NoRequest
      && r.1.state == CheckHeader
      && r.1.url == Some(ParseRequestLineText(line).value.url)
      && r.1.version == Some(ParseRequestLineText(line).value.version)
      && r.1.startLine == r.1.checkedIndex == c.readIndex
  {
    WholeLineArrives(c, line);
    var pl := ParseLine(c);
    var c1 := pl.conn.(startLine := pl.conn.checkedIndex);
    assert Step(c, LineOk) == Interpret(pl.conn);
    match ParseRequestLineText(line)
    case None =>
    case Some(rl) =>
      var c2 := ParseRequestLine(c1, line).1;
      assert Interpret(pl.conn) == Next(c2, LineOk);
      NoTerminatorIsOpen(c2);
      assert Step(c2, LineOk) == Exit(NoRequest, c2);
      assert Drive(c2, LineOk) == (NoRequest, c2);
      assert Drive(c, LineOk) == Drive(c2, LineOk);
  }

  /** End to end: a fresh connection that receives `GET <path> HTTP/1.1`
      and its `CR LF` comes out of `ProcessRead` in the header state with
      that path as `url_`, waiting for more data. */
  lemma FreshGetRequest(c: Conn, path: string)
    requires |path| > 0 && path[0] == '/' && NoSep(path)
    requires forall t :: 0 <= t < |path| ==> path[t] != CR && path[t] != LF && path[t] != NUL
    requires |path| + 15 <= BufferSize
    ensures var line := MethodGet + " " + path + " " + Version11;
      var r := ProcessRead(Receive(Init(c), line + [CR, LF]));
      && r.0 == NoRequest
      && r.1.state == CheckHeader
      && r.1.url == Some(path)
      && r.1.version == Some(Version11)
  {
    var line := MethodGet + " " + path + " " + Version11;
    var c0 := Receive(Init(c), line + [CR, LF]);
    OriginFormRoundTrip(path);
    forall t | 0 <= t < |line| ensures line[t] != CR && line[t] != LF && line[t] != NUL {
      if 4 <= t < 4 + |path| {
        assert line[t] == path[t - 4];
      }
    }
    FirstRequestLine(c0, line);
  }
}
