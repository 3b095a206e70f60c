/**
 * The reader's handling of one line (shell.c:116-134): clear the shared
 * 513-byte buffer, read at most 513 bytes into it, terminate it at its
 * last cell, and decide what becomes of the line.  The read itself is a
 * parameter: the count `read` returned (-1 on error, 0 at end of input)
 * and the bytes it delivered.
 */
module Reader {
  import opened CLib
  import opened Tokens
  import opened Parser
  import opened ParserLemmas

  /** The size of `thread_data_t.buff`. */
  const BuffSize: nat := 513

  /** A result of `read(0, buff, 513)`: a count and that many bytes (none on error). */
  predicate ReadResult(res: int, bytes: seq<char>) {
    -1 <= res <= BuffSize && |bytes| == (if res < 0 then 0 else res)
  }

  /** The buffer after `memset(buff, 0, 513)`, the read, and `buff[512] = '\0'`. */
  function ReadBuffer(res: int, bytes: seq<char>): (r: seq<char>)
    requires ReadResult(res, bytes)
    ensures |r| == BuffSize && Terminated(r)
    ensures forall k :: 0 <= k < |bytes| && k < BuffSize - 1 ==> r[k] == bytes[k]
    ensures forall k :: |bytes| <= k < BuffSize ==> r[k] == NUL
  {
    seq(BuffSize, k requires 0 <= k < BuffSize => if k < |bytes| && k < BuffSize - 1 then bytes[k] else NUL)
  }

  /** What the reader does with a line. */
  datatype Decision =
    | TooLong   // 513 bytes arrived: reported, not handed off
    | Exit      // the line is `exit\n`: `run` is cleared, and the buffer still handed off
    | Blank     // the line starts with a newline: not handed off, and the next wait skipped
    | HandOff   // anything else: handed to the parsing thread

  /** The decision of shell.c:122-134, in the order the code tests it. */
  function Classify(res: int, buff: seq<char>): (d: Decision)
    requires Terminated(buff)
  {
    if res == BuffSize then TooLong
    else if CString(buff, 0) == "exit\n" then Exit
    else if buff[0] == '\n' then Blank
    else HandOff
  }

  /** Whether the reader signals `buff_cond`, handing the buffer over. */
  predicate Signals(d: Decision) {
    d == Exit || d == HandOff
  }

  /**
   * The decision in terms of what was read: too long exactly for a read
   * of 513 bytes; `exit` exactly when the bytes read as a C string are
   * `exit\n`; blank exactly when the first byte is a newline.
   */
  lemma ClassifyRead(res: int, bytes: seq<char>)
    requires ReadResult(res, bytes)
    ensures var d := Classify(res, ReadBuffer(res, bytes));
      (d == TooLong <==> res == BuffSize) &&
      (d == Exit <==> res < BuffSize && 5 <= |bytes| && bytes[..5] == "exit\n" && (|bytes| == 5 || bytes[5] == NUL)) &&
      (d == Blank <==> res < BuffSize && 1 <= |bytes| && bytes[0] == '\n')
  {
    var r := ReadBuffer(res, bytes);
    CStringIs(r, 0, "exit\n");
    if 5 <= |bytes| && res < BuffSize {
      assert r[..5] == bytes[..5];
    }
    if |bytes| < 5 {
      assert r[|bytes|] == NUL;
      assert r[..5] != "exit\n" by {
        assert r[..5][|bytes|] == NUL;
      }
    }
  }

  /**
   * A failed read (-1) or an empty one (end of input) leaves an all-NUL
   * buffer: it is handed off, and the parse gets no argument from it, so
   * nothing is forked.
   */
  lemma EmptyReadNotForked(res: int, bytes: seq<char>)
    requires ReadResult(res, bytes) && res <= 0
    ensures Classify(res, ReadBuffer(res, bytes)) == HandOff
    ensures !Dispatched(ParseLine(ReadBuffer(res, bytes)).program)
  {
    var r := ReadBuffer(res, bytes);
    ClassifyRead(res, bytes);
    assert r[0] == NUL;
    assert StrChrNul(r, '&') == 0 && StrChrNul(r, '<') == 0 && StrChrNul(r, '>') == 0;
    ZeroArguments(r);
  }

  /**
   * A line of only whitespace before its newline is parsed into one empty
   * argument, and so it is dispatched.
   */
  lemma WhitespaceLineDispatched(s: seq<char>)
    requires PlainLine(s)
    requires forall k :: 0 <= k < Strlen(s) ==> IsSpace(s[k])
    ensures var r := ParseLine(s);
      r.program.argc == 1 && Dispatched(r.program) && r.argv[0] == At(0) && CString(r.buffer, 0) == []
  {
    var n := Strlen(s);
    assert Line(s) == s[..n];
    WordsInSkip(Line(s), 0, n, n);
    TokenCount(s);
    NoMarkers(s);
    LeadingSpaceEmptyArgument(s);
  }

  /** The fields of `thread_data_t` the reader uses: the `run` flag and the line buffer. */
  class ThreadData {
    var run: bool
    const buff: array<char>

    ghost predicate Valid() {
      buff.Length == BuffSize
    }

    /** `main` sets `run`; the buffer, a global, starts zeroed. */
    constructor ()
      ensures Valid() && run && fresh(buff) && buff[..] == seq(BuffSize, _ => NUL)
    {
      run := true;
      buff := new char[BuffSize](_ => NUL);
    }

    /**
     * One pass of the loop of `thread_read` after the wait: the new buffer,
     * the decision, whether the buffer is handed over by a signal, `run`
     * cleared on `exit`, and `wait_cond` false only after a blank line.
     */
    method ReadLine(res: int, bytes: seq<char>) returns (d: Decision, signal: bool, waitCond: bool)
      requires Valid() && ReadResult(res, bytes)
      modifies this, buff
      ensures Valid() && buff[..] == ReadBuffer(res, bytes)
      ensures d == Classify(res, buff[..])
      ensures run == (old(run) && d != Exit)
      ensures signal == Signals(d) && waitCond == (d != Blank)
    {
      waitCond := true;
      for k := 0 to BuffSize
        modifies buff
        invariant forall i :: 0 <= i < k ==> buff[i] == NUL
      {
        buff[k] := NUL;
      }
      for k := 0 to |bytes|
        modifies buff
        invariant forall i :: 0 <= i < BuffSize ==> buff[i] == if i < k then bytes[i] else NUL
      {
        buff[k] := bytes[k];
      }
      buff[BuffSize - 1] := NUL;
      assert buff[..] == ReadBuffer(res, bytes);
      if res == BuffSize {
        d, signal := TooLong, false;
        return;
      }
      if CString(buff[..], 0) == "exit\n" {
        run := false;
        d := Exit;
      } else if buff[0] == '\n' {
        waitCond := false;
        d, signal := Blank, false;
        return;
      } else {
        d := HandOff;
      }
      signal := true;
    }
  }
}
