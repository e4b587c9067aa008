# A verified model of the diy-http-server framing core

The repository is a small HTTP/1.1 and echo server that works directly on
TCP byte streams. This project models its framing and buffering core in
Dafny and proves properties of that model.

- **`DynBuf`** (`dynamic_buffer.dfy`) models the growable byte buffer
  (`createDynamicBuffer`, `getCapacity`, `increaseCapacity`, `pushData`,
  `unshiftData`). It is a class over an `array<byte>`. The invariant is
  `len <= capacity`, and the valid bytes are `data[0:len]`. Capacity grows
  by doubling from a floor of 32, and consuming from the head shifts the
  array down in place.
- **`Echo`** (`echo.dfy`) models the newline-delimited echo protocol:
  `extractMessage`, and the quit-or-echo reply that `serveClient` sends.
- **`Http`** (`http.dfy`) models the HTTP part:
  - `cutMessage`, which cuts a head ending in CRLF CRLF off the buffer;
  - `parseHTTPReq`;
  - `getHeaderValue`;
  - the body-selection rules of `getRequestBody`;
  - the fixed-length body reader `readerFromConnLength`;
  - `writeResponse`, both the byte layout of the head and the body loop.
- **`TcpConn`** (`tcp_conn.dfy`) models the connection wrapper as a state
  machine. The state is a pending-reader slot, a latched error, a latched
  end, the socket's paused/flowing state, and a record of how each read's
  promise was settled. `readTCPConn`, `writeTCPConn` and the
  `data`/`error`/`end` handlers are its methods.
- **`Incoming`** (`incoming.dfy`) is the read side of a connection as the
  body reader sees it. It is a supplied sequence of
  non-empty chunks, and a read returns the empty chunk once they are used
  up (end of stream).
- **`Bytes`** (`bytes.dfy`) holds the byte-level building blocks the code
  relies on from the JavaScript runtime, each with its own properties:
  - `Buffer.indexOf` for a byte and for a byte string;
  - `String.split` and its inverse;
  - ASCII `trim` and case folding;
  - decimal numerals (`Number()` and template interpolation);
  - lower-case hexadecimal (`toString(16)`).

Within `TcpConn`, `issued`, `settled` and `written` are model-only
bookkeeping:

- a promise is named by the number of reads issued before it;
- `settled` maps each settled promise to how it settled;
- `written` lists the buffers handed to `socket.write`.

A write's completion is an input (`failure`), since it comes from the
socket. The server accepts connections paused (`pauseOnConnect` in
`src/tcp-server.ts`), so a new connection is not flowing.

The class invariant of `TcpConn.TCPConn.Valid` states what the source
relies on:

- at most one read is pending;
- a read is pending only while neither an error nor the end is latched;
- every issued read is either pending or settled, never both;
- a flowing socket with nothing latched always has a reader to resolve.

Every method preserves this invariant. Every method also keeps `Extends`:
a promise, once settled, is never settled again.

`WriteResponse` returns the list of buffers it hands to `writeTCPConn`: the
head first, then one buffer per non-empty body fragment. `ReadFragments`
is the body loop, `NextFragment` one pass of it, and `ReadBody` states
what the loop hands out.

## Model

| member | source | states |
|---|---|---|
| DynBuf.DynamicBuffer.constructor | src/dynamic-buffer.ts:10-17 | a new buffer is empty, its capacity is the requested one (32 by default), and it is zero-filled |
| DynBuf.GrownCapacity | src/dynamic-buffer.ts:30-33 | the doubling loop ends at a capacity that is at least the start and at least the requested size |
| DynBuf.GrownCapacityIsSmallestDoubling | src/dynamic-buffer.ts:30-33 | the grown capacity is start·2^k for the least k with start·2^k ≥ atLeast |
| DynBuf.SmallestDoublingUnique | src/dynamic-buffer.ts:30-33 | only one capacity and one k fit that description |
| DynBuf.GrowthFromDefault | src/dynamic-buffer.test.ts:11-20 | 88 bytes pushed onto a fresh 32-byte buffer grow it to 128 |
| DynBuf.DynamicBuffer.Capacity | src/dynamic-buffer.ts:19-21 | the capacity is the array's length, and the valid bytes always fit in it |
| DynBuf.DynamicBuffer.IncreaseCapacity | src/dynamic-buffer.ts:26-38 | returns the smallest doubling of max(capacity, 32) that holds atLeast; the new array copies the old one and is zero beyond it; len is unchanged |
| DynBuf.DynamicBuffer.PushData | src/dynamic-buffer.ts:40-47 | len grows by \|newData\| and the contents become old contents ++ newData; the same array is written in place when the data fits, otherwise the array is replaced by one of the grown capacity; capacity never decreases |
| DynBuf.DynamicBuffer.UnshiftData | src/dynamic-buffer.ts:49-58 | taking more than len fails and changes nothing; otherwise it returns the first n bytes, the contents lose exactly them, the array shifts down by n as copyWithin does, and capacity is unchanged |
| DynBuf.PushUnshiftRoundTrip | src/dynamic-buffer.ts:40-58 | pushing B onto an empty buffer and unshifting \|B\| bytes returns B and leaves the buffer empty |
| Bytes.IndexOfByte | src/servers/echo.ts:14 | -1 exactly when the byte is absent; otherwise the index of its first occurrence |
| Bytes.IndexOfSeq | src/servers/http.ts:201-203 | -1 or an index where the pattern occurs |
| Bytes.IndexOfSeqFirst | src/servers/http.ts:201-203 | no occurrence lies before the result, and there is none at all when the result is -1 |
| Bytes.IndexOfSeqIs | src/servers/http.ts:201-203 | any index that is the first occurrence (or -1 with none) is what indexOf returns |
| Bytes.JoinSplit | src/servers/http.ts:26 | joining the pieces of a split with the separator gives back the input, and no piece contains the separator |
| Bytes.SplitJoin | src/servers/http.ts:26 | splitting pieces that are free of an unbordered separator, once joined, gives back exactly those pieces |
| Bytes.SplitFirstTwo | src/servers/http.ts:129 | a + sep + b + sep + c splits into a, b and then the pieces of c |
| Bytes.TrimStartSpec | src/servers/http.ts:130 | trimming the start drops exactly the leading whitespace |
| Bytes.TrimEndSpec | src/servers/http.ts:130 | trimming the end drops exactly the trailing whitespace |
| Bytes.TrimIsInfix | src/servers/http.ts:130 | trim keeps a contiguous part, drops only whitespace around it and leaves none at either end |
| Bytes.ParseDecimal | src/servers/http.ts:147 | a value exactly when the text is a non-empty run of decimal digits |
| Bytes.DecimalRoundTrip | src/servers/http.ts:93 | the numeral of n is all digits, without a leading zero, and parses back to n |
| Bytes.HexRoundTrip | src/servers/http.ts:115 | the hex numeral of n is lower-case hex digits, without a leading zero, with value n |
| Echo.SplitLine | src/servers/echo.ts:14-19 | no message exactly when there is no `\n`; otherwise a message ending in its only `\n`, and message ++ rest is the input |
| Echo.LineSplitUnique | src/servers/echo.ts:14-19 | a stream that starts with a complete message splits after that message |
| Echo.SplitLineAppend | src/servers/echo.test.ts:22-38 | bytes pushed later do not change the message already buffered |
| Echo.TwoMessagesInOrder | src/servers/echo.test.ts:22-38 | two messages pushed together come out first, then second |
| Echo.ExtractMessage | src/servers/echo.ts:13-20 | without a `\n` the buffer is untouched and null is returned; otherwise the first line comes out and the buffer holds exactly the rest |
| Echo.EchoReply | src/servers/echo.ts:33-37 | the session ends exactly on "quit\n" with the reply "Bye.\n"; any other message is answered with "Echo: " followed by the message itself |
| Echo.OnlyExactQuitEnds | src/servers/echo.ts:33-37 | any other complete line keeps the session going and its reply still ends in `\n` |
| Incoming.ChunkSource.Read | src/tcp-conn.ts:24-30 | the next chunk in order, or the empty chunk once the stream has ended; chunk ++ what remains is what remained before |
| Http.SplitHead | src/servers/http.ts:200-209 | no head exactly when CRLF CRLF is absent; otherwise the bytes through its first occurrence, and head ++ rest is the input |
| Http.HeadSplitUnique | src/servers/http.ts:200-209 | a stream that starts with a complete head splits right after it |
| Http.SplitHeadAppend | src/servers/http.ts:200-209 | bytes arriving after a complete head do not change it |
| Http.CutMessage | src/servers/http.ts:200-209 | null with the buffer untouched when no CRLF CRLF is buffered; otherwise the head comes out and the following bytes stay at the head of the buffer |
| Http.ParseHTTPReq | src/servers/http.ts:25-48 | a failed parse is always the malformed-head error |
| Http.ParseRequestHead | src/servers/http.ts:25-47 | for a request line and CRLF-free header lines laid out as a head, it returns the first three space-separated fields and exactly those header lines, in order |
| Http.ParsedHeadLayout | src/servers/http.ts:25-47 | every accepted head is its first line, then its parsed headers, each ended by CRLF, then an empty line (or the lone CRLF) |
| Http.RequestLineFields | src/servers/http.ts:29 | three space-free fields joined by spaces come back as method, path and version |
| Http.CutHeadParses | src/servers/http.ts:39-40 | whatever cutMessage cuts passes the two trailing-empty-line assertions of parseHTTPReq |
| Http.GetHeaderValue | src/servers/http.ts:125-136 | null exactly when no header key matches; otherwise the value of the first header whose trimmed key matches ignoring case |
| Http.LookupIgnoresCase | src/servers/http.ts:131 | keys that differ only in ASCII case find the same value |
| Http.HeaderLineParts | src/servers/http.ts:127-130 | "name:value" yields the trimmed name as key and the trimmed value |
| Http.ValueStopsAtSecondColon | src/servers/http.ts:127-130 | the value stops at the second ':' |
| Http.NoColonNoValue | src/servers/http.ts:127-130 | a line without ':' has no value (undefined) |
| Http.SelectBody | src/servers/http.ts:143-169 | the rules in order: a non-numeric length fails first; GET/HEAD with chunked or a positive length fail next, with the body-not-allowed error; a length (0 included) gives a fixed-length body of that size; anything else is one of the two unimplemented strategies |
| Http.FirstMatchValue | src/servers/http.ts:125-136 | header lookup returns the value of the first header whose key matches |
| Http.ContentLengthTextIs | src/servers/http.ts:145-146 | the length text is the first Content-Length header's value when that is non-empty; an empty value or a header without ':' counts as no length |
| Http.NoContentLengthHeader | src/servers/http.ts:145-146 | without a Content-Length header there is no length text |
| Http.ChunkedIs | src/servers/http.ts:154 | the request is chunked exactly when the first Transfer-Encoding header's trimmed value is "chunked" |
| Http.GetWithLengthRefused | src/servers/http.ts:153-158 | GET or HEAD whose first Content-Length header holds any decimal numeral of positive value, leading zeros included, is refused as body-not-allowed |
| Http.GetWithContentLengthTen | src/servers/http.ts:153-158 | "GET /" with the header "Content-Length: 10" is refused as body-not-allowed |
| Http.EmptyContentLengthIsAbsent | src/servers/http.ts:145-169 | an empty Content-Length is not an invalid length: it gives no length, so the request is refused or left unimplemented, never a fixed-length body |
| Http.FixedLengthReader.constructor | src/servers/http.ts:172-179 | the reader starts with remaining = len = the body length, over the given connection and buffer |
| Http.FixedLengthReader.Refill | src/servers/http.ts:184-188 | exactly one connection read is pushed into the empty buffer: the next chunk leaves the connection and becomes the buffer's contents; the stream (buffered bytes then incoming bytes) is unchanged |
| Http.FixedLengthReader.Read | src/servers/http.ts:180-196 | once remaining is 0 it returns empty and changes nothing; otherwise the fragment is min(remaining, buffered) bytes taken from the front of the stream, and remaining decreases by its length; the connection is read only when the buffer is empty, then exactly once, and a non-empty buffer is consumed from its head with the connection untouched; it fails with Unexpected EOF exactly when bytes remain but the stream is empty |
| Http.FixedLengthReader.TakeBuffered | src/servers/http.ts:193-195 | hands out min(buffered, remaining) bytes from the head of the buffer, which keeps the rest |
| Http.CutFlatten | src/servers/http.ts:180-196 | the fragments the reader hands out (the reference `Cut`: the buffered bytes cut to what is owed, one connection read when the buffer is empty, nothing once nothing is owed or the connection is dry) concatenate to the owed prefix of the buffered bytes followed by the connection's chunks |
| Http.CutNonEmpty | src/servers/http.ts:180-196 | no fragment of `Cut` is empty, so an empty read marks the end |
| Http.CutRead | src/servers/http.ts:180-196 | a read with bytes owed and a non-empty stream hands out exactly the first fragment of `Cut`, and `Cut` of the new state is the rest |
| Http.GetRequestBody | src/servers/http.ts:138-170 | a reader exactly when the rules choose a length, with len and remaining equal to it, otherwise the error they choose |
| Http.NextFragment | src/servers/http.ts:108-121 | one pass of the body loop: the handed-out fragments stay non-empty and the front of the stream, and their total plus the count still owed is unchanged; a connection read is counted only while the bytes at hand fall short of what is owed, and a fully buffered body leaves the connection unread; the loop goes on only with fewer bytes owed, an empty fragment ends it only once nothing is owed, and a failed read only with the stream exhausted; the fragment appended is the next one the reference `Cut` of the starting state gives, so the fragments handed out stay a prefix of `Cut` |
| Http.ReadFragments | src/servers/http.ts:107-122 | the loop ends with nothing owed, or with Unexpected EOF on an exhausted stream; the fragments are non-empty and are the front of the stream, and each connection read was made while the body was incomplete; the fragments handed out followed by `Cut` of the final state are `Cut` of the starting state |
| Http.ReadBody | src/servers/http.ts:107-122 | the fragments are non-empty; they succeed exactly when the stream holds the reader's remaining byte count, and are then exactly that many bytes from its front with the rest left unread; when the buffer already holds them, the connection is not read and the bytes beyond stay in the buffer; otherwise Unexpected EOF after the whole stream; every connection read is made while the bytes at hand fall short of what is owed, so none follows the completion of the body; the fragments are, one for one, those the reference `Cut` gives from the starting buffer, chunks and owed count |
| Http.HeaderLinesJoin | src/servers/http.ts:98-102 | the status line, each header with CRLF and the closing CRLF are the head layout that parseHTTPReq reads |
| Http.ResponseHeadLayout | src/servers/http.ts:88-102 | the response head is the status line, the headers with the length header appended last, each ended by CRLF, then CRLF |
| Http.ResponseHeadLines | src/servers/http.ts:88-102 | parsing the response head gives back "HTTP/1.1", the code, "WOOT" and the headers followed by the length header |
| Http.StatusLineFields | src/servers/http.ts:89 | the status line has no CRLF and its fields are "HTTP/1.1", the decimal code and "WOOT" |
| Http.ContentLengthRoundTrip | src/servers/http.ts:92-93 | the emitted Content-Length header, looked up case-insensitively and parsed, gives back the body length |
| Http.ChunkFrameSelfDelimiting | src/servers/http.ts:113-120 | a chunk for a non-empty fragment is lower-case hex of its length, CRLF, the bytes, CRLF; the first CRLF ends the size line, whose value is the non-zero length |
| Http.FramedFixed | src/servers/http.ts:113-121 | with a known length every fragment is written verbatim |
| Http.WriteResponse | src/servers/http.ts:87-123 | the head is written first, then each non-empty fragment verbatim, stopping at the first empty one with no terminating chunk; the body writes are exactly the reader's remaining byte count from the front of the stream (the whole body for a fresh reader, whose remaining is its len), or the whole stream before Unexpected EOF; bytes beyond a fully buffered body stay in the buffer; the connection is not read once the body is complete; the body writes are, one for one, the fragments the reference `Cut` gives, so neither coalescing nor re-splitting them is allowed |
| TcpConn.TCPConn.constructor | src/tcp-conn.ts:51-57 | no pending reader, nothing latched, socket paused, nothing issued or written |
| TcpConn.TCPConn.ReadTCPConn | src/tcp-conn.ts:16-32 | a second pending read trips the assertion and changes nothing; a latched error rejects at once, checked before the end; a latched end resolves empty at once without a reader and without resuming; otherwise exactly one reader is registered and the socket resumes |
| TcpConn.TCPConn.WriteTCPConn | src/tcp-conn.ts:34-49 | a latched error rejects without writing; otherwise the data is written once and the outcome is the socket's |
| TcpConn.TCPConn.OnData | src/tcp-conn.ts:59-64 | trips the assertion exactly when no reader is pending; otherwise it pauses, resolves the pending read with the data and clears the slot |
| TcpConn.TCPConn.OnError | src/tcp-conn.ts:66-72 | latches the error, rejects any pending read with it and clears the slot |
| TcpConn.TCPConn.OnEnd | src/tcp-conn.ts:74-81 | latches the end, resolves any pending read with empty data and clears the slot |
| TcpConn.ReadThenData | src/tcp-conn.ts:29-64 | a read on a new connection is resolved by the next data event, which pauses the socket |
| TcpConn.ErrorWinsOverEnd | src/tcp-conn.ts:19-27 | with both an error and the end latched, a read is rejected with the error |
| TcpConn.ReadAfterEnd | src/tcp-conn.ts:24-27 | a read after the end resolves empty, registers no reader and leaves the socket paused |

## Left out

- `src/tcp-server.ts` (accepting sockets, logging, ending the socket in `finally`) is not part of this model. Only its `pauseOnConnect` setting is reflected, as the paused initial state.
- `scripts/run-tests.ts` is not part of this model; it is the test runner.
- `handleRequest` (`src/servers/http.ts:50-85`) is not part of this model. It is a routing stub with logging, and the body readers it builds all have a known length.
- The I/O loops of both `serveClient` functions are left out. The model has their steps: framing, parsing, the body rules, the reply and the writes. One consequence is not modelled: the echo loop never checks for an empty read, so it does not end at end of stream.
- The logger calls are left out.
- Promises, callbacks and `net.Socket` are left out. Resolving, rejecting, pausing, resuming and writing are recorded as state.
- Http.FixedLengthReader.Refill and Incoming.ChunkSource.Read: a rejected `readTCPConn` is not modelled, so transport errors do not reach the body reader; end of stream does.
- Http.WriteResponse: all body reads happen before the body writes are built; the source's interleaving (head written before the first read, each fragment written before the next read) is not modelled.
- Http.WriteResponse: a write rejected by the connection is not modelled, since writes are collected rather than sent.
- Http.WriteResponse also does not model that the length header is pushed into the caller's `res.headers` array; only the bytes written are modelled.
- Http.WriteResponse takes the fixed-length reader, the only body reader `getRequestBody` can return. Its length is never negative, so the chunked branch (`src/servers/http.ts:113-120`) cannot be reached. That branch's framing is modelled by `Http.FrameFragment` and proved by `Http.ChunkFrameSelfDelimiting`.
- Chunked-body decoding and reading to the end of the connection do not exist in the code (`src/servers/http.ts:164-169`). They are modelled as `NotImplemented` errors.
- Bytes.ParseDecimal: JavaScript `Number()` is modelled only on decimal digit strings. Hex, exponents, fractions, signs and "Infinity" are treated as invalid. The code would accept negative or fractional lengths.
- Bytes.ParseDecimal: the value is exact, while `Number()` rounds digit strings above 2^53 to the nearest double ("9007199254740993" becomes 9007199254740992).
- UTF-8 decoding of the head (`src/servers/http.ts:26`) is left out, because bytes are treated as ASCII.
- `toLocaleLowerCase` (`src/servers/http.ts:131`) is modelled as ASCII case folding.
- Bytes.Trim removes ASCII whitespace only, not the other Unicode spaces `String.trim` removes.
- Http.GetHeaderValue takes the header list rather than the whole request; it reads nothing else.
- Closing the connection after an `HTTP/1.0` request (`src/servers/http.ts:231-233`) belongs to the serving loop and is left out.
- A thrown assertion in `parseHTTPReq` and the TypeError for a head with fewer than two lines are both modelled as the `MalformedHead` error. A `cutMessage` head always passes those checks (`Http.CutHeadParses`).
