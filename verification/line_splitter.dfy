/**
 * The line splitter (`ParseLine`): the sub-state-machine that scans the read
 * buffer from `checked_index_` towards `read_index_` for the `CR LF` that
 * ends a line, the line terminator of HTTP/1.1.
 *
 * `ParseLine` is the behaviour the `LINE_STATUS` enum and the branch comments
 * describe; `ParseLineAsWritten` is the code as it stands, kept so that its
 * divergences can be shown input by input.
 */
module LineSplitter {
  import opened Wrappers
  import opened CText
  import opened Connection

  predicate IsTerminator(ch: char) { ch == CR || ch == LF }

  /** No line terminator among `buf[lo..hi]`. */
  predicate NoTerminator(buf: string, lo: int, hi: int)
    requires 0 <= lo <= hi <= |buf|
  {
    forall i :: lo <= i < hi ==> !IsTerminator(buf[i])
  }

  /** The first position in `[lo, hi)` that holds `CR` or `LF`, or `hi`. */
  function FindTerminator(buf: string, lo: int, hi: int): (k: int)
    requires 0 <= lo <= hi <= |buf|
    ensures lo <= k <= hi
    ensures NoTerminator(buf, lo, k)
    ensures k < hi ==> IsTerminator(buf[k])
    decreases hi - lo
  {
    if lo == hi then hi
    else if IsTerminator(buf[lo]) then lo
    else FindTerminator(buf, lo + 1, hi)
  }

  /** Result of one call of the splitter: the status and the connection. */
  datatype LineResult = LineResult(status: LineStatus, conn: Conn)

  /** The intended `ParseLine()`. Ordinary bytes are skipped; at a `CR` the
      line is incomplete if the `CR` is the last buffered byte (the cursor
      stays on it), complete if an `LF` follows (both become NUL and the
      cursor moves past them), malformed otherwise; an `LF` completes a line
      only right after a `CR`. Running out of bytes leaves the line open. */
  function ParseLine(c: Conn): (r: LineResult)
    requires Valid(c)
    ensures Valid(r.conn)
    ensures r.conn.(buf := c.buf, checkedIndex := c.checkedIndex) == c
    ensures c.checkedIndex <= r.conn.checkedIndex
    ensures r.status != LineOk ==> r.conn.buf == c.buf
    ensures r.status != LineOk ==> NoTerminator(c.buf, c.checkedIndex, r.conn.checkedIndex)
    ensures r.status == LineOpen ==>
      r.conn.checkedIndex == c.readIndex
      || (r.conn.checkedIndex == c.readIndex - 1 && c.buf[r.conn.checkedIndex] == CR)
    ensures r.status == LineBad ==>
      var k := r.conn.checkedIndex;
      || (k + 1 < c.readIndex && c.buf[k] == CR && c.buf[k + 1] != LF)
      || (k < c.readIndex && c.buf[k] == LF && (k == 0 || c.buf[k - 1] != CR))
    ensures r.status == LineOk ==>
      var e := r.conn.checkedIndex;
      && 2 <= e && c.checkedIndex < e <= c.readIndex
      && c.checkedIndex - 1 <= e - 2
      && c.buf[e - 2] == CR && c.buf[e - 1] == LF
      && (forall i :: c.checkedIndex <= i < e - 2 ==> !IsTerminator(c.buf[i]))
      && r.conn.buf == c.buf[e - 2 := NUL][e - 1 := NUL]
  {
    Classify(c, FindTerminator(c.buf, c.checkedIndex, c.readIndex))
  }

  /** What the splitter decides once the scan has stopped at `k`, the first
      terminator ahead of the cursor or the end of the buffered bytes. */
  function Classify(c: Conn, k: int): LineResult
    requires Valid(c) && c.checkedIndex <= k <= c.readIndex
  {
    if k == c.readIndex then
      LineResult(LineOpen, c.(checkedIndex := k))
    else if c.buf[k] == CR then
      if k + 1 == c.readIndex then LineResult(LineOpen, c.(checkedIndex := k))
      else if c.buf[k + 1] == LF then
        LineResult(LineOk, c.(buf := c.buf[k := NUL][k + 1 := NUL], checkedIndex := k + 2))
      else LineResult(LineBad, c.(checkedIndex := k))
    else if k > 0 && c.buf[k - 1] == CR then
      LineResult(LineOk, c.(buf := c.buf[k - 1 := NUL][k := NUL], checkedIndex := k + 1))
    else LineResult(LineBad, c.(checkedIndex := k))
  }

  /** The `for` loop of `ParseLine()` with the intended returns, scanning one
      byte per iteration; it computes exactly `ParseLine`. */
  method ScanLine(c: Conn) returns (status: LineStatus, c': Conn)
    requires Valid(c)
    ensures LineResult(status, c') == ParseLine(c)
  {
    var i := c.checkedIndex;
    while i < c.readIndex
      invariant c.checkedIndex <= i <= c.readIndex
      invariant FindTerminator(c.buf, i, c.readIndex) == FindTerminator(c.buf, c.checkedIndex, c.readIndex)
    {
      var ch := c.buf[i];
      if ch == CR {
        if i + 1 == c.readIndex {
          return LineOpen, c.(checkedIndex := i);
        } else if c.buf[i + 1] == LF {
          return LineOk, c.(buf := c.buf[i := NUL][i + 1 := NUL], checkedIndex := i + 2);
        }
        return LineBad, c.(checkedIndex := i);
      } else if ch == LF {
        if i > 0 && c.buf[i - 1] == CR {
          return LineOk, c.(buf := c.buf[i - 1 := NUL][i := NUL], checkedIndex := i + 1);
        }
        return LineBad, c.(checkedIndex := i);
      }
      i := i + 1;
    }
    return LineOpen, c.(checkedIndex := i);
  }

  // ---------------------------------------------------------------------
  // Properties of the splitter
  // ---------------------------------------------------------------------

  /** A buffer holds a complete line at the cursor: a `CR LF` after nothing
      but ordinary bytes, or an `LF` at the cursor right after a `CR`. */
  predicate HasCompleteLine(c: Conn)
    requires Valid(c)
  {
    || (exists k :: c.checkedIndex <= k && k + 1 < c.readIndex
          && c.buf[k] == CR && c.buf[k + 1] == LF && NoTerminator(c.buf, c.checkedIndex, k))
    || (c.checkedIndex < c.readIndex && c.buf[c.checkedIndex] == LF
          && c.checkedIndex > 0 && c.buf[c.checkedIndex - 1] == CR)
  }

  /** The splitter reports a complete line exactly when there is one. */
  lemma LineOkIff(c: Conn)
    requires Valid(c)
    ensures ParseLine(c).status == LineOk <==> HasCompleteLine(c)
  {
  }

  /** A `CR` that is the last buffered byte, after ordinary bytes, leaves the
      line open with the cursor on the `CR`, so the next call looks at it
      again. */
  lemma CrAtEndIsOpen(c: Conn)
    requires Valid(c) && c.checkedIndex < c.readIndex
    requires NoTerminator(c.buf, c.checkedIndex, c.readIndex - 1)
    requires c.buf[c.readIndex - 1] == CR
    ensures ParseLine(c) == LineResult(LineOpen, c.(checkedIndex := c.readIndex - 1))
  {
    assert FindTerminator(c.buf, c.checkedIndex, c.readIndex) == c.readIndex - 1;
  }

  /** Without any `CR` or `LF` ahead of the cursor the line is incomplete and
      the whole buffered tail has been scanned. */
  lemma NoTerminatorIsOpen(c: Conn)
    requires Valid(c)
    requires NoTerminator(c.buf, c.checkedIndex, c.readIndex)
    ensures ParseLine(c) == LineResult(LineOpen, c.(checkedIndex := c.readIndex))
  {
  }

  /** A `CR LF` after ordinary bytes completes the line: both bytes become NUL,
      the cursor ends just past the `LF`, and `read_index_` is untouched. */
  lemma CrLfIsOk(c: Conn, k: int)
    requires Valid(c) && c.checkedIndex <= k && k + 1 < c.readIndex
    requires NoTerminator(c.buf, c.checkedIndex, k)
    requires c.buf[k] == CR && c.buf[k + 1] == LF
    ensures ParseLine(c) == LineResult(LineOk, c.(buf := c.buf[k := NUL][k + 1 := NUL], checkedIndex := k + 2))
  {
    assert FindTerminator(c.buf, c.checkedIndex, c.readIndex) == k;
  }

  /** A `CR` followed by anything but `LF` is a malformed line. */
  lemma CrWithoutLfIsBad(c: Conn, k: int)
    requires Valid(c) && c.checkedIndex <= k && k + 1 < c.readIndex
    requires NoTerminator(c.buf, c.checkedIndex, k)
    requires c.buf[k] == CR && c.buf[k + 1] != LF
    ensures ParseLine(c) == LineResult(LineBad, c.(checkedIndex := k))
  {
    assert FindTerminator(c.buf, c.checkedIndex, c.readIndex) == k;
  }

  /** An `LF` that does not follow a `CR` is a malformed line. */
  lemma BareLfIsBad(c: Conn, k: int)
    requires Valid(c) && c.checkedIndex <= k < c.readIndex
    requires NoTerminator(c.buf, c.checkedIndex, k)
    requires c.buf[k] == LF && (k == 0 || c.buf[k - 1] != CR)
    ensures ParseLine(c) == LineResult(LineBad, c.(checkedIndex := k))
  {
    assert FindTerminator(c.buf, c.checkedIndex, c.readIndex) == k;
  }

  /** An `LF` at the cursor right after a `CR` completes the line, even when
      the `CR` is the very first byte of the buffer. */
  lemma LfAfterCrIsOk(c: Conn)
    requires Valid(c) && 0 < c.checkedIndex < c.readIndex
    requires c.buf[c.checkedIndex - 1] == CR && c.buf[c.checkedIndex] == LF
    ensures ParseLine(c) == LineResult(LineOk,
      c.(buf := c.buf[c.checkedIndex - 1 := NUL][c.checkedIndex := NUL], checkedIndex := c.checkedIndex + 1))
  {
  }

  /** After a complete line, `GetLine()` yields the line's bytes from
      `start_line_` up to the terminator (cut at an embedded NUL, as any C
      string is). */
  lemma GetLineAfterOk(c: Conn)
    requires Valid(c)
    requires ParseLine(c).status == LineOk
    ensures var e := ParseLine(c).conn.checkedIndex - 2;
      GetLine(ParseLine(c).conn) == UntilNul(c.buf[c.startLine .. Max(c.startLine, e)])
  {
    var r := ParseLine(c).conn;
    var e := r.checkedIndex - 2;
    assert r.buf == c.buf[e := NUL][e + 1 := NUL];
    NulPairEndsLine(c.buf, c.startLine, e);
  }

  /** Writing NUL over a `CR LF` at `e` and `e + 1` ends the C string that
      starts at `start` (at most one past `e`) at `e`. */
  lemma NulPairEndsLine(b: string, start: nat, e: nat)
    requires start <= e + 1 && e + 1 < |b|
    ensures UntilNul(b[e := NUL][e + 1 := NUL][start..]) == UntilNul(b[start..Max(start, e)])
  {
    var s := b[e := NUL][e + 1 := NUL][start..];
    if start <= e {
      assert s[e - start] == NUL;
      UntilNulCut(s, e - start);
      assert s[..e - start] == b[start..e];
    } else {
      assert s[0] == NUL;
      UntilNulCut(s, 0);
      assert s[..0] == b[start..start];
    }
  }

  /** A status other than `LineOk` is stable: calling the splitter again on
      its result, with no new bytes, changes nothing and says the same. */
  lemma NotOkIsStable(c: Conn)
    requires Valid(c)
    requires ParseLine(c).status != LineOk
    ensures ParseLine(ParseLine(c).conn) == ParseLine(c)
  {
    var r := ParseLine(c);
    var c1 := r.conn;
    assert FindTerminator(c1.buf, c1.checkedIndex, c1.readIndex) == c1.checkedIndex;
  }

  /** Skipping ordinary bytes does not change where the next terminator is. */
  lemma FindTerminatorSkip(buf: string, lo: int, mid: int, hi: int)
    requires 0 <= lo <= mid <= hi <= |buf|
    requires NoTerminator(buf, lo, mid)
    ensures FindTerminator(buf, lo, hi) == FindTerminator(buf, mid, hi)
  {
  }

  /** Re-assembly independence, open case: when the splitter stops on an
      open line and more bytes arrive, resuming from where it stopped gives
      exactly what scanning the grown buffer from the original cursor gives.
      With `DecidedIgnoresMore` for the other two outcomes, splitting the
      stream at any read boundary yields the same lines. */
  lemma {:induction false} ResumeAfterOpen(c: Conn, more: string)
    requires Valid(c) && c.readIndex + |more| <= BufferSize
    requires ParseLine(c).status == LineOpen
    ensures ParseLine(Receive(ParseLine(c).conn, more)) == ParseLine(Receive(c, more))
  {
    var r := ParseLine(c);
    var k := r.conn.checkedIndex;
    assert r.conn == c.(checkedIndex := k);
    var grown := Receive(c, more);
    var resumed := Receive(r.conn, more);
    assert resumed == grown.(checkedIndex := k);
    assert NoTerminator(grown.buf, c.checkedIndex, k) by {
      forall i | c.checkedIndex <= i < k
        ensures !IsTerminator(grown.buf[i])
      {
        assert grown.buf[i] == grown.buf[..c.readIndex][i];
      }
    }
    FindTerminatorSkip(grown.buf, c.checkedIndex, k, grown.readIndex);
    var k2 := FindTerminator(grown.buf, k, grown.readIndex);
    ClassifyIgnoresCursor(grown, k, k2);
  }

  /** Re-assembly independence, decided case: a `LINE_OK` or `LINE_BAD`
      verdict depends only on bytes already buffered, so bytes arriving
      later change neither the verdict nor the cursor, and the NULs of a
      complete line land in the same places. */
  lemma DecidedIgnoresMore(c: Conn, more: string)
    requires Valid(c) && c.readIndex + |more| <= BufferSize
    requires ParseLine(c).status != LineOpen
    ensures ParseLine(Receive(c, more)) == LineResult(ParseLine(c).status, Receive(ParseLine(c).conn, more))
  {
    var k := FindTerminator(c.buf, c.checkedIndex, c.readIndex);
    if c.buf[k] == CR && c.buf[k + 1] == LF {
      CrLfIgnoresMore(c, more, k);
    } else if c.buf[k] == LF && k > 0 && c.buf[k - 1] == CR {
      LfAfterCrIgnoresMore(c, more);
    } else {
      BadIgnoresMore(c, more, k);
    }
  }

  /** `DecidedIgnoresMore` for a `CR LF` ahead of the cursor. */
  lemma CrLfIgnoresMore(c: Conn, more: string, k: int)
    requires Valid(c) && c.readIndex + |more| <= BufferSize
    requires c.checkedIndex <= k && k + 1 < c.readIndex
    requires NoTerminator(c.buf, c.checkedIndex, k)
    requires c.buf[k] == CR && c.buf[k + 1] == LF
    ensures ParseLine(Receive(c, more)) == LineResult(LineOk, Receive(ParseLine(c).conn, more))
  {
    var grown := Receive(c, more);
    AgreesBelow(c, more);
    assert NoTerminator(grown.buf, c.checkedIndex, k);
    CrLfIsOk(c, k);
    CrLfIsOk(grown, k);
    NulsCommuteWithReceive(c, more, k);
  }

  /** `DecidedIgnoresMore` for an `LF` at the cursor right after a `CR`. */
  lemma LfAfterCrIgnoresMore(c: Conn, more: string)
    requires Valid(c) && c.readIndex + |more| <= BufferSize
    requires 0 < c.checkedIndex < c.readIndex
    requires c.buf[c.checkedIndex - 1] == CR && c.buf[c.checkedIndex] == LF
    ensures ParseLine(Receive(c, more)) == LineResult(LineOk, Receive(ParseLine(c).conn, more))
  {
    var grown := Receive(c, more);
    AgreesBelow(c, more);
    LfAfterCrIsOk(c);
    LfAfterCrIsOk(grown);
    NulsCommuteWithReceive(c, more, c.checkedIndex - 1);
  }

  /** `DecidedIgnoresMore` for a malformed line: the verdict rests on the
      bytes at and before the first terminator, all already buffered. */
  lemma BadIgnoresMore(c: Conn, more: string, k: int)
    requires Valid(c) && c.readIndex + |more| <= BufferSize
    requires k == FindTerminator(c.buf, c.checkedIndex, c.readIndex)
    requires ParseLine(c).status == LineBad
    ensures ParseLine(Receive(c, more)) == LineResult(LineBad, Receive(ParseLine(c).conn, more))
  {
    var grown := Receive(c, more);
    AgreesBelow(c, more);
    assert k < c.readIndex;
    assert NoTerminator(grown.buf, c.checkedIndex, k);
    if c.buf[k] == CR {
      CrWithoutLfIsBad(c, k);
      CrWithoutLfIsBad(grown, k);
    } else {
      BareLfIsBad(c, k);
      BareLfIsBad(grown, k);
    }
    ReceiveIgnoresCursor(c, more, k);
  }

  /** Receiving does not look at `checked_index_`. */
  lemma ReceiveIgnoresCursor(c: Conn, more: string, k: int)
    requires Valid(c) && c.readIndex + |more| <= BufferSize
    requires c.startLine <= k <= c.readIndex
    ensures Receive(c.(checkedIndex := k), more) == Receive(c, more).(checkedIndex := k)
  {
  }

  /** Receiving bytes leaves every byte below `read_index_` as it was. */
  lemma AgreesBelow(c: Conn, more: string)
    requires Valid(c) && c.readIndex + |more| <= BufferSize
    ensures forall i :: 0 <= i < c.readIndex ==> Receive(c, more).buf[i] == c.buf[i]
  {
    var grown := Receive(c, more);
    forall i | 0 <= i < c.readIndex
      ensures grown.buf[i] == c.buf[i]
    {
      assert grown.buf[i] == grown.buf[..c.readIndex][i];
    }
  }

  /** Writing the two NULs of a complete line before or after receiving more
      bytes gives the same connection. */
  lemma NulsCommuteWithReceive(c: Conn, more: string, a: int)
    requires Valid(c) && c.readIndex + |more| <= BufferSize
    requires 0 <= a && c.startLine <= a + 2 && a + 1 < c.readIndex
    ensures var done := c.(buf := c.buf[a := NUL][a + 1 := NUL], checkedIndex := a + 2);
      Receive(c, more).(buf := Receive(c, more).buf[a := NUL][a + 1 := NUL], checkedIndex := a + 2)
        == Receive(done, more)
  {
    var done := c.(buf := c.buf[a := NUL][a + 1 := NUL], checkedIndex := a + 2);
    var x := Receive(c, more).buf[a := NUL][a + 1 := NUL];
    var y := Receive(done, more).buf;
    assert |x| == |y|;
    forall i | 0 <= i < |x|
      ensures x[i] == y[i]
    {
      if i < c.readIndex {
        assert y[i] == y[..c.readIndex][i];
        assert Receive(c, more).buf[i] == Receive(c, more).buf[..c.readIndex][i];
      } else if i < c.readIndex + |more| {
        assert y[i] == y[c.readIndex..c.readIndex + |more|][i - c.readIndex];
        assert Receive(c, more).buf[i] == Receive(c, more).buf[c.readIndex..c.readIndex + |more|][i - c.readIndex];
      } else {
        assert y[i] == y[c.readIndex + |more|..][i - c.readIndex - |more|];
        assert Receive(c, more).buf[i] == Receive(c, more).buf[c.readIndex + |more|..][i - c.readIndex - |more|];
      }
    }
  }

  /** The decision after the scan does not look at where the scan began. */
  lemma ClassifyIgnoresCursor(c: Conn, x: int, k: int)
    requires Valid(c) && Valid(c.(checkedIndex := x))
    requires c.checkedIndex <= k <= c.readIndex && x <= k
    ensures Classify(c.(checkedIndex := x), k) == Classify(c, k)
  {
  }

  // ---------------------------------------------------------------------
  // The code as written
  // ---------------------------------------------------------------------

  /** One call of `ParseLine()` exactly as written: either a status and the
      new connection, or a store outside `read_buf_` at the given index. */
  datatype RawLine = RawLine(status: LineStatus, conn: Conn) | WildStore(index: int)

  /** The literal `ParseLine()`: the loop body returns on its first
      iteration, the `CR LF` branch stores its second NUL at `read_index_`
      and advances that cursor instead of `checked_index_`, the `LF` branch
      demands `checked_index_ > 1`, and an empty scan reports `LINE_OK`. */
  function ParseLineAsWritten(c: Conn): (r: RawLine)
    requires Valid(c)
    ensures r.RawLine? ==> Valid(r.conn)
    ensures r.RawLine? ==> r.conn.startLine == c.startLine && r.conn.checkedIndex <= c.checkedIndex + 1
    ensures r.WildStore? ==> r.index == BufferSize
  {
    if c.checkedIndex >= c.readIndex then RawLine(LineOk, c)
    else
      var i := c.checkedIndex;
      if c.buf[i] == CR then
        if i + 1 == c.readIndex then RawLine(LineOpen, c)
        else if c.buf[i + 1] == LF then
          if c.readIndex >= BufferSize then WildStore(c.readIndex)
          else RawLine(LineOk, c.(buf := c.buf[i := NUL][c.readIndex := NUL],
                                  checkedIndex := i + 1, readIndex := c.readIndex + 1))
        else RawLine(LineBad, c)
      else if c.buf[i] == LF then
        if i > 1 && c.buf[i - 1] == CR then
          RawLine(LineOk, c.(buf := c.buf[i - 1 := NUL][i := NUL], checkedIndex := i + 1))
        else RawLine(LineBad, c)
      else RawLine(LineOpen, c)
  }

  /** http_conn.cc:255: a `CR LF` that ends a full buffer makes the code store
      one byte past `read_buf_`, where the intended splitter completes the
      line inside the buffer. */
  lemma AsWrittenCrLfOverruns(c: Conn)
    requires Valid(c) && c.readIndex == BufferSize && c.checkedIndex + 1 < c.readIndex
    requires c.buf[c.checkedIndex] == CR && c.buf[c.checkedIndex + 1] == LF
    ensures ParseLineAsWritten(c) == WildStore(BufferSize)
    ensures ParseLine(c).status == LineOk && ParseLine(c).conn.checkedIndex == c.checkedIndex + 2
  {
    CrLfIsOk(c, c.checkedIndex);
  }

  /** The overrun is reachable: a fresh connection whose first read fills
      the buffer with 2048 bytes that begin with `CR LF` makes the first
      call store at `read_buf_[2048]`. (A full buffer that begins with an
      ordinary byte never gets there: the return at line 270 comes first.)
      The intended splitter completes the empty line instead. */
  lemma AsWrittenFreshCrLfOverruns(c: Conn, bytes: string)
    requires |bytes| == BufferSize && bytes[0] == CR && bytes[1] == LF
    ensures ParseLineAsWritten(Receive(Init(c), bytes)) == WildStore(BufferSize)
    ensures ParseLine(Receive(Init(c), bytes)).status == LineOk
  {
    var r := Receive(Init(c), bytes);
    assert r.buf[0] == r.buf[0..BufferSize][0] && r.buf[1] == r.buf[0..BufferSize][1];
    AsWrittenCrLfOverruns(r);
  }

  /** http_conn.cc:255, with room left: the code grows `read_index_` by a
      phantom NUL and leaves the `LF` behind the cursor, so the very next
      call reports the `LF` as a malformed line. */
  lemma AsWrittenCrLfLeavesLf(c: Conn)
    requires Valid(c) && c.readIndex < BufferSize && c.checkedIndex + 1 < c.readIndex
    requires c.buf[c.checkedIndex] == CR && c.buf[c.checkedIndex + 1] == LF
    ensures var r := ParseLineAsWritten(c);
      && r.RawLine? && r.status == LineOk
      && r.conn.readIndex == c.readIndex + 1
      && r.conn.checkedIndex == c.checkedIndex + 1
      && ParseLineAsWritten(r.conn) == RawLine(LineBad, r.conn)
    ensures ParseLine(c).conn.readIndex == c.readIndex
  {
  }

  /** http_conn.cc:270: the code gives up after the first ordinary byte and
      reports an open line without moving the cursor, so a buffered request
      line is never found; the intended splitter scans on and finds it. */
  lemma AsWrittenStopsAtFirstByte(c: Conn, k: int)
    requires Valid(c) && c.checkedIndex < k && k + 1 < c.readIndex
    requires NoTerminator(c.buf, c.checkedIndex, k)
    requires c.buf[k] == CR && c.buf[k + 1] == LF
    ensures ParseLineAsWritten(c) == RawLine(LineOpen, c)
    ensures ParseLine(c).status == LineOk && ParseLine(c).conn.checkedIndex == k + 2
  {
    assert !IsTerminator(c.buf[c.checkedIndex]);
    CrLfIsOk(c, k);
  }

  /** http_conn.cc:272: with nothing left to scan the code claims a complete
      line; the enum calls that situation an incomplete line. */
  lemma AsWrittenEmptyScanIsOk(c: Conn)
    requires Valid(c) && c.checkedIndex == c.readIndex
    ensures ParseLineAsWritten(c) == RawLine(LineOk, c)
    ensures ParseLine(c) == LineResult(LineOpen, c)
  {
  }

  /** http_conn.cc:262: an `LF` at index 1 after a `CR` at index 0 is
      rejected by the `> 1` test, although it ends a line. */
  lemma AsWrittenLfAtOneIsBad(c: Conn)
    requires Valid(c) && c.checkedIndex == 1 && c.readIndex >= 2
    requires c.buf[0] == CR && c.buf[1] == LF
    ensures ParseLineAsWritten(c) == RawLine(LineBad, c)
    ensures ParseLine(c).status == LineOk
  {
    LfAfterCrIsOk(c);
  }
}
