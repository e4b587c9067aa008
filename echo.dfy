/**
 * The newline-delimited echo protocol of src/servers/echo.ts: cutting one
 * `\n`-terminated message off the head of the buffer, and the reply to it.
 */
module Echo {
  import opened Bytes
  import opened DynBuf

  const PREFIX: seq<byte> := Ascii("Echo: ")
  const QUIT_MESSAGE: seq<byte> := Ascii("quit\n")
  const QUIT_REPLY: seq<byte> := Ascii("Bye.\n")

  /** A complete message: it ends in `\n` and has no earlier `\n`. */
  predicate IsLine(m: seq<byte>)
  {
    |m| > 0 && m[|m| - 1] == LF && LF !in m[..|m| - 1]
  }

  /** The first complete message of s and the bytes after it, or None while
      s holds no `\n`. */
  function SplitLine(s: seq<byte>): (r: Option<(seq<byte>, seq<byte>)>)
    ensures r.None? <==> LF !in s
    ensures r.Some? ==> IsLine(r.value.0) && r.value.0 + r.value.1 == s
  {
    var idx := IndexOfByte(s, LF);
    if idx < 0 then None
    else
      assert s[..idx + 1][..idx] == s[..idx];
      Some((s[..idx + 1], s[idx + 1..]))
  }

  /** A stream has only one way of starting with a complete message. */
  lemma {:induction false} LineSplitUnique(m: seq<byte>, rest: seq<byte>)
    requires IsLine(m)
    ensures SplitLine(m + rest) == Some((m, rest))
  {
    var s := m + rest;
    var idx := IndexOfByte(s, LF);
    assert s[|m| - 1] == LF;
    assert s[..|m| - 1] == m[..|m| - 1];
    assert idx == |m| - 1;
    assert s[..idx + 1] == m;
  }

  /** Data pushed later never changes the message already buffered: the
      first message of s is still the first message of s + t. */
  lemma SplitLineAppend(s: seq<byte>, t: seq<byte>)
    requires SplitLine(s).Some?
    ensures SplitLine(s + t) == Some((SplitLine(s).value.0, SplitLine(s).value.1 + t))
  {
    var (m, rest) := SplitLine(s).value;
    assert s + t == m + (rest + t);
    LineSplitUnique(m, rest + t);
  }

  /** Two messages pushed in one chunk come out in order, one per call
      (echo.test.ts:22-38). */
  lemma TwoMessagesInOrder(m1: seq<byte>, m2: seq<byte>, t: seq<byte>)
    requires IsLine(m1) && IsLine(m2)
    ensures SplitLine(m1 + m2 + t) == Some((m1, m2 + t))
    ensures SplitLine(m2 + t) == Some((m2, t))
  {
    assert m1 + m2 + t == m1 + (m2 + t);
    LineSplitUnique(m1, m2 + t);
    LineSplitUnique(m2, t);
  }

  /** extractMessage: cut the first `\n`-terminated message off the buffer,
      or leave the buffer exactly as it was when there is none. */
  method ExtractMessage(buf: DynamicBuffer) returns (r: Option<seq<byte>>)
    requires buf.Valid()
    modifies buf, buf.data
    ensures buf.Valid() && buf.data == old(buf.data)
    ensures r.None? ==> buf.len == old(buf.len) && buf.data[..] == old(buf.data[..])
    ensures SplitLine(old(buf.Contents())) == if r.None? then None else Some((r.value, buf.Contents()))
  {
    var idx := IndexOfByte(buf.data[..buf.len], LF);
    if idx < 0 {
      return None;
    }
    var cut := buf.UnshiftData(idx + 1);
    r := Some(cut.value);
  }

  /** The reply serveClient sends for one message, and whether the session
      ends after it. */
  datatype Reply = Reply(bytes: seq<byte>, endsSession: bool)

  function EchoReply(message: seq<byte>): (r: Reply)
    ensures r.endsSession <==> message == QUIT_MESSAGE
    ensures r.endsSession ==> r.bytes == QUIT_REPLY
    ensures !r.endsSession ==> |r.bytes| == |PREFIX| + |message|
    ensures !r.endsSession ==> r.bytes[..|PREFIX|] == PREFIX && r.bytes[|PREFIX|..] == message
  {
    if message == QUIT_MESSAGE then Reply(QUIT_REPLY, true) else Reply(PREFIX + message, false)
  }

  /** Only the exact line "quit\n" ends a session: the same word with any
      other bytes in the line is echoed back like any other message. */
  lemma OnlyExactQuitEnds(m: seq<byte>)
    requires IsLine(m) && m != QUIT_MESSAGE
    ensures !EchoReply(m).endsSession
    ensures EchoReply(m).bytes[|EchoReply(m).bytes| - 1] == LF
  {
  }
}
