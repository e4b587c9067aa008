/**
 * The HTTP/1.1 subset of src/servers/http.ts: cutting the request head off
 * the buffer, parsing it, looking up headers, choosing how the body is read,
 * the fixed-length body reader, and the bytes a response is written as.
 */
module Http {
  import opened Bytes
  import opened DynBuf
  import opened Incoming

  /** What getRequestBody leaves unimplemented: both branches throw "TODO". */
  datatype Unimplemented = ChunkedDecode | ReadToEnd

  datatype HttpError =
    | MalformedHead                   // an assertion of parseHTTPReq fails
    | InvalidContentLength            // Number(Content-Length) is NaN
    | BodyNotAllowed                  // GET or HEAD announcing a body
    | NotImplemented(what: Unimplemented)
    | UnexpectedEOF                   // the stream ends inside a fixed-length body

  /** A parsed request head. path and version are absent when the request
      line has fewer than two or three space-separated fields. */
  datatype HTTPRequest = HTTPRequest(
    verb: seq<byte>,
    path: Option<seq<byte>>,
    version: Option<seq<byte>>,
    headers: seq<seq<byte>>)

  const CRLFCRLF: seq<byte> := CRLF + CRLF
  const GET: seq<byte> := Ascii("GET")
  const HEAD: seq<byte> := Ascii("HEAD")
  const CHUNKED: seq<byte> := Ascii("chunked")
  const CONTENT_LENGTH: seq<byte> := Ascii("Content-Length")
  const TRANSFER_ENCODING: seq<byte> := Ascii("Transfer-Encoding")

  // ---------------------------------------------------------------------
  // Framing the head: cutMessage
  // ---------------------------------------------------------------------

  /** A complete head: it ends in CRLF CRLF, and that is the terminator's
      first occurrence in it. */
  predicate IsHead(m: seq<byte>)
  {
    |m| >= 4 && m[|m| - 4..] == CRLFCRLF && Free(m[..|m| - 1], CRLFCRLF)
  }

  /** The head at the start of s and the bytes after it (the start of the
      body, or of the next request), or None while no CRLF CRLF is buffered. */
  function SplitHead(s: seq<byte>): (r: Option<(seq<byte>, seq<byte>)>)
    ensures r.None? <==> Free(s, CRLFCRLF)
    ensures r.Some? ==> IsHead(r.value.0) && r.value.0 + r.value.1 == s
  {
    var idx := IndexOfSeq(s, CRLFCRLF);
    IndexOfSeqFirst(s, CRLFCRLF);
    if idx < 0 then None
    else
      var m := s[..idx + 4];
      assert m[|m| - 4..] == s[idx..idx + 4];
      FreeBeforeFirst(s, CRLFCRLF, idx, idx + 3);
      assert m[..|m| - 1] == s[..idx + 3];
      Some((m, s[idx + 4..]))
  }

  /** A stream has only one way of starting with a complete head. */
  lemma HeadSplitUnique(m: seq<byte>, rest: seq<byte>)
    requires IsHead(m)
    ensures SplitHead(m + rest) == Some((m, rest))
  {
    var s := m + rest;
    var k := |m| - 4;
    forall j | 0 <= j < k
      ensures !OccursAt(s, CRLFCRLF, j)
    {
      assert !OccursAt(m[..|m| - 1], CRLFCRLF, j);
      assert s[j..j + 4] == m[..|m| - 1][j..j + 4];
    }
    assert s[k..k + 4] == m[k..];
    IndexOfSeqIs(s, CRLFCRLF, k);
    assert s[..k + 4] == m;
  }

  /** Bytes that arrive after a complete head never change it. */
  lemma SplitHeadAppend(s: seq<byte>, t: seq<byte>)
    requires SplitHead(s).Some?
    ensures SplitHead(s + t) == Some((SplitHead(s).value.0, SplitHead(s).value.1 + t))
  {
    var (m, rest) := SplitHead(s).value;
    assert s + t == m + (rest + t);
    HeadSplitUnique(m, rest + t);
  }

  /** cutMessage: consume the head through its CRLF CRLF when one is
      buffered, leaving the bytes after it at the head of the buffer;
      otherwise leave the buffer exactly as it was. */
  method CutMessage(buf: DynamicBuffer) returns (r: Option<seq<byte>>)
    requires buf.Valid()
    modifies buf, buf.data
    ensures buf.Valid() && buf.data == old(buf.data)
    ensures r.None? ==> buf.len == old(buf.len) && buf.data[..] == old(buf.data[..])
    ensures SplitHead(old(buf.Contents())) == if r.None? then None else Some((r.value, buf.Contents()))
  {
    var endOfHeadersIdx := IndexOfSeq(buf.data[..buf.len], CRLFCRLF);
    if endOfHeadersIdx < 0 {
      return None;
    }
    var cut := buf.UnshiftData(endOfHeadersIdx + 4);
    r := Some(cut.value);
  }

  // ---------------------------------------------------------------------
  // Parsing the head: parseHTTPReq
  // ---------------------------------------------------------------------

  /** The wire form of a head: the first line, then each further line, each
      ended by CRLF, then an empty line. */
  function HeadBytes(first: seq<byte>, lines: seq<seq<byte>>): (r: seq<byte>)
  {
    Join([first] + lines + [[], []], CRLF)
  }

  /** parseHTTPReq: split on CRLF; method, path and version are the first
      three space-separated fields of the first line; the lines between it
      and the last two are the headers, verbatim; the last two must be empty. */
  function ParseHTTPReq(head: seq<byte>): (r: Result<HTTPRequest, HttpError>)
    ensures r.Err? ==> r.error == MalformedHead
  {
    var lines := Split(head, CRLF);
    var n := |lines|;
    if n < 2 || lines[n - 1] != [] || lines[n - 2] != [] then Err(MalformedHead)
    else
      var fields := Split(lines[0], [SP]);
      Ok(HTTPRequest(fields[0], Piece(fields, 1), Piece(fields, 2),
                     if n >= 3 then lines[1..n - 2] else []))
  }

  /** A request line with its CRLF-free header lines, laid out as a head,
      parses back to its fields and exactly those header lines, in order. */
  lemma ParseRequestHead(first: seq<byte>, lines: seq<seq<byte>>)
    requires Free(first, CRLF)
    requires forall i :: 0 <= i < |lines| ==> Free(lines[i], CRLF)
    ensures ParseHTTPReq(HeadBytes(first, lines)) == Ok(HTTPRequest(
      Split(first, [SP])[0], Piece(Split(first, [SP]), 1), Piece(Split(first, [SP]), 2), lines))
  {
    var all := [first] + lines + [[], []];
    CrlfUnbordered();
    forall i | 0 <= i < |all|
      ensures Free(all[i], CRLF)
    {
      if i == 0 {
      } else if i <= |lines| {
        assert all[i] == lines[i - 1];
      } else {
        assert all[i] == [];
      }
    }
    SplitJoin(all, CRLF);
    assert all[1..|all| - 2] == lines;
  }

  /** Every head parseHTTPReq accepts has that layout (or is the lone CRLF,
      whose two empty lines are also its request line). */
  lemma ParsedHeadLayout(head: seq<byte>)
    requires ParseHTTPReq(head).Ok?
    ensures var req := ParseHTTPReq(head).value;
      || (head == CRLF && req == HTTPRequest([], None, None, []))
      || head == HeadBytes(Split(head, CRLF)[0], req.headers)
  {
    var lines := Split(head, CRLF);
    JoinSplit(head, CRLF);
    if |lines| == 2 {
      TwoEmptyLines(head, lines);
    } else {
      var headers := lines[1..|lines| - 2];
      assert ParseHTTPReq(head).value.headers == headers;
      LastTwo(lines, []);
      assert Join([lines[0]] + headers + [[], []], CRLF) == head;
    }
  }

  /** A sequence of at least three items ending in two copies of e. */
  lemma LastTwo<T>(xs: seq<T>, e: T)
    requires |xs| >= 3 && xs[|xs| - 1] == e && xs[|xs| - 2] == e
    ensures xs == [xs[0]] + xs[1..|xs| - 2] + [e, e]
  {
  }

  /** The head whose split is two empty lines. */
  lemma TwoEmptyLines(head: seq<byte>, lines: seq<seq<byte>>)
    requires lines == Split(head, CRLF) && Join(lines, CRLF) == head
    requires |lines| == 2 && lines[0] == [] && lines[1] == []
    ensures head == CRLF && ParseHTTPReq(head).value == HTTPRequest([], None, None, [])
  {
    assert lines == [[], []];
    assert Join(lines[1..], CRLF) == [];
    SplitEmpty([SP]);
  }

  /** A request line of three space-free fields yields them as method, path
      and version. */
  lemma RequestLineFields(verb: seq<byte>, path: seq<byte>, version: seq<byte>)
    requires Free(verb, [SP]) && Free(path, [SP]) && Free(version, [SP])
    ensures var fields := Split(verb + [SP] + path + [SP] + version, [SP]);
      fields[0] == verb && Piece(fields, 1) == Some(path) && Piece(fields, 2) == Some(version)
  {
    SingleByteUnbordered(SP);
    var parts := [verb, path, version];
    assert Join(parts, [SP]) == verb + [SP] + path + [SP] + version by {
      assert Join(parts[2..], [SP]) == version;
      assert Join(parts[1..], [SP]) == path + [SP] + version;
    }
    SplitJoin(parts, [SP]);
  }

  lemma SplitCrlfCrlf(x: seq<byte>)
    ensures Split(x + CRLFCRLF, CRLF) == Split(x, CRLF) + [[], []]
  {
    CrlfUnbordered();
    SplitTwoSeps(x, CRLF);
    assert x + CRLF + CRLF == x + CRLFCRLF;
  }

  /** Whatever cutMessage cuts passes parseHTTPReq's assertions: the head
      ends in CRLF CRLF, so its last two lines are empty. */
  lemma CutHeadParses(s: seq<byte>)
    requires SplitHead(s).Some?
    ensures ParseHTTPReq(SplitHead(s).value.0).Ok?
  {
    var m := SplitHead(s).value.0;
    var x := m[..|m| - 4];
    assert m == x + CRLFCRLF;
    SplitCrlfCrlf(x);
  }

  // ---------------------------------------------------------------------
  // Header lookup: getHeaderValue
  // ---------------------------------------------------------------------

  /** The trimmed text before the first ':' of a header line. */
  function HeaderKey(h: seq<byte>): (r: seq<byte>)
  {
    Trim(Split(h, [COLON])[0])
  }

  /** The trimmed text between the first and the second ':', or undefined
      (None) when the line has no ':'. */
  function HeaderValue(h: seq<byte>): (r: Option<seq<byte>>)
  {
    var parts := Split(h, [COLON]);
    if |parts| > 1 then Some(Trim(parts[1])) else None
  }

  predicate KeyMatches(h: seq<byte>, key: seq<byte>)
  {
    ToLower(HeaderKey(h)) == ToLower(key)
  }

  /** Header i is the first one whose key matches. */
  ghost predicate FirstMatch(headers: seq<seq<byte>>, key: seq<byte>, i: int)
  {
    && 0 <= i < |headers| && KeyMatches(headers[i], key)
    && forall j :: 0 <= j < i ==> !KeyMatches(headers[j], key)
  }

  lemma FirstMatchShift(headers: seq<seq<byte>>, key: seq<byte>, i: int)
    requires headers != [] && !KeyMatches(headers[0], key)
    requires FirstMatch(headers[1..], key, i)
    ensures FirstMatch(headers, key, i + 1)
  {
    forall j | 1 <= j < i + 1
      ensures !KeyMatches(headers[j], key)
    {
      assert headers[j] == headers[1..][j - 1];
    }
  }

  /** getHeaderValue: the value of the first header whose key matches key
      case-insensitively (Some(None) when that header had no ':', as the
      source then returns undefined), or None when no header matches. */
  function GetHeaderValue(headers: seq<seq<byte>>, key: seq<byte>): (r: Option<Option<seq<byte>>>)
    ensures r.None? <==> forall i :: 0 <= i < |headers| ==> !KeyMatches(headers[i], key)
    ensures r.Some? ==> exists i :: FirstMatch(headers, key, i) && r.value == HeaderValue(headers[i])
  {
    if headers == [] then None
    else if KeyMatches(headers[0], key) then
      assert FirstMatch(headers, key, 0);
      Some(HeaderValue(headers[0]))
    else
      var r := GetHeaderValue(headers[1..], key);
      assert forall i :: 1 <= i < |headers| ==> headers[i] == headers[1..][i - 1];
      assert r.Some? ==> exists i :: FirstMatch(headers, key, i) && r.value == HeaderValue(headers[i]) by {
        if r.Some? {
          var i :| FirstMatch(headers[1..], key, i) && r.value == HeaderValue(headers[1..][i]);
          FirstMatchShift(headers, key, i);
        }
      }
      r
  }

  /** Keys that differ only in ASCII case find the same header. */
  lemma {:induction false} LookupIgnoresCase(headers: seq<seq<byte>>, k1: seq<byte>, k2: seq<byte>)
    requires ToLower(k1) == ToLower(k2)
    ensures GetHeaderValue(headers, k1) == GetHeaderValue(headers, k2)
  {
    if headers != [] {
      LookupIgnoresCase(headers[1..], k1, k2);
    }
  }

  lemma FreeOfByte(s: seq<byte>, b: byte)
    requires b !in s
    ensures Free(s, [b])
  {
    forall j | 0 <= j <= |s|
      ensures !OccursAt(s, [b], j)
    {
      if j + 1 <= |s| {
        assert s[j..j + 1] == [s[j]];
      }
    }
  }

  /** A header line name:value with no further ':' yields its trimmed parts. */
  lemma HeaderLineParts(name: seq<byte>, value: seq<byte>)
    requires COLON !in name && COLON !in value
    ensures HeaderKey(name + [COLON] + value) == Trim(name)
    ensures HeaderValue(name + [COLON] + value) == Some(Trim(value))
  {
    FreeOfByte(name, COLON);
    FreeOfByte(value, COLON);
    SingleByteUnbordered(COLON);
    SplitJoin([name, value], [COLON]);
    assert Join([name, value], [COLON]) == name + [COLON] + value by {
      assert Join([name, value][1..], [COLON]) == value;
    }
  }

  /** The value stops at the second ':' ("Host: example.org:8080" has the
      value "example.org"). */
  lemma ValueStopsAtSecondColon(name: seq<byte>, v1: seq<byte>, v2: seq<byte>)
    requires COLON !in name && COLON !in v1
    ensures HeaderValue(name + [COLON] + v1 + [COLON] + v2) == Some(Trim(v1))
  {
    FreeOfByte(name, COLON);
    FreeOfByte(v1, COLON);
    SingleByteUnbordered(COLON);
    SplitFirstTwo(name, [COLON], v1, v2);
  }

  /** A line without ':' has no value; getHeaderValue then yields undefined. */
  lemma NoColonNoValue(h: seq<byte>)
    requires COLON !in h
    ensures HeaderValue(h) == None
  {
    FreeOfByte(h, COLON);
    SplitFree(h, [COLON]);
  }

  // ---------------------------------------------------------------------
  // Choosing the body strategy: getRequestBody
  // ---------------------------------------------------------------------

  /** The Content-Length value when it is truthy: present, with a ':', and
      not empty after trimming. */
  function ContentLengthText(req: HTTPRequest): (r: Option<seq<byte>>)
  {
    match GetHeaderValue(req.headers, CONTENT_LENGTH)
    case Some(Some(v)) => if v != [] then Some(v) else None
    case _ => None
  }

  predicate BodyAllowed(verb: seq<byte>)
  {
    !(verb == GET || verb == HEAD)
  }

  predicate IsChunked(req: HTTPRequest)
  {
    GetHeaderValue(req.headers, TRANSFER_ENCODING) == Some(Some(CHUNKED))
  }

  /** bodyLen after lines 143-151, given the truthy Content-Length value:
      -1 without one, its value when it is a decimal number, an error
      otherwise. */
  function DeclaredLength(contentLength: Option<seq<byte>>): (r: Result<int, HttpError>)
  {
    match contentLength
    case None => Ok(-1)
    case Some(v) =>
      match ParseDecimal(v)
      case None => Err(InvalidContentLength)
      case Some(n) => Ok(n)
  }

  /** The selection rules of getRequestBody, in the source's order, given
      the method, the truthy Content-Length value and whether the transfer
      encoding is chunked: an unparsable length fails first; GET or HEAD
      with chunked or a positive length fails next; a length (zero
      included) gives a fixed-length body of that length; everything else
      is unimplemented. */
  function SelectBody(verb: seq<byte>, contentLength: Option<seq<byte>>, chunked: bool): (r: Result<nat, HttpError>)
    ensures contentLength.Some? && ParseDecimal(contentLength.value).None? ==> r == Err(InvalidContentLength)
    ensures r.Ok? <==>
      && contentLength.Some?
      && ParseDecimal(contentLength.value).Some?
      && (BodyAllowed(verb) || (!chunked && ParseDecimal(contentLength.value).value == 0))
    ensures r.Ok? ==> r.value == ParseDecimal(contentLength.value).value
    ensures !BodyAllowed(verb) && DeclaredLength(contentLength).Ok? && (chunked || DeclaredLength(contentLength).value > 0)
      ==> r == Err(BodyNotAllowed)
    ensures contentLength.None? && (BodyAllowed(verb) || !chunked)
      ==> r == Err(NotImplemented(if chunked then ChunkedDecode else ReadToEnd))
  {
    match DeclaredLength(contentLength)
    case Err(e) => Err(e)
    case Ok(bodyLen) =>
      if !BodyAllowed(verb) && (chunked || bodyLen > 0) then Err(BodyNotAllowed)
      else if bodyLen >= 0 then Ok(bodyLen as nat)
      else if chunked then Err(NotImplemented(ChunkedDecode))
      else Err(NotImplemented(ReadToEnd))
  }

  /** The rules applied to a parsed request's headers. */
  function RequestBodyLength(req: HTTPRequest): (r: Result<nat, HttpError>)
  {
    SelectBody(req.verb, ContentLengthText(req), IsChunked(req))
  }

  /** Header i is the first match exactly when it is the one lookup picks. */
  lemma FirstMatchUnique(headers: seq<seq<byte>>, key: seq<byte>, i: int, j: int)
    requires FirstMatch(headers, key, i) && FirstMatch(headers, key, j)
    ensures i == j
  {
  }

  lemma FirstMatchValue(headers: seq<seq<byte>>, key: seq<byte>, i: int)
    requires FirstMatch(headers, key, i)
    ensures GetHeaderValue(headers, key) == Some(HeaderValue(headers[i]))
  {
    var r := GetHeaderValue(headers, key);
    assert !(forall k :: 0 <= k < |headers| ==> !KeyMatches(headers[k], key));
    var j :| FirstMatch(headers, key, j) && r.value == HeaderValue(headers[j]);
    FirstMatchUnique(headers, key, i, j);
  }

  /** The truthiness test on Content-Length: with header i the first one
      named Content-Length, the length text is its value when that is
      present and non-empty; a header with an empty value or with no ':'
      counts as no Content-Length at all, and so does having none. */
  lemma ContentLengthTextIs(req: HTTPRequest, i: int)
    requires FirstMatch(req.headers, CONTENT_LENGTH, i)
    ensures HeaderValue(req.headers[i]).None? ==> ContentLengthText(req) == None
    ensures HeaderValue(req.headers[i]) == Some([]) ==> ContentLengthText(req) == None
    ensures HeaderValue(req.headers[i]).Some? && HeaderValue(req.headers[i]).value != [] ==>
      ContentLengthText(req) == HeaderValue(req.headers[i])
  {
    FirstMatchValue(req.headers, CONTENT_LENGTH, i);
  }

  lemma NoContentLengthHeader(req: HTTPRequest)
    requires forall i :: 0 <= i < |req.headers| ==> !KeyMatches(req.headers[i], CONTENT_LENGTH)
    ensures ContentLengthText(req) == None
  {
  }

  /** The transfer encoding is chunked exactly when the first header named
      Transfer-Encoding has the trimmed value "chunked". */
  lemma ChunkedIs(req: HTTPRequest, i: int)
    requires FirstMatch(req.headers, TRANSFER_ENCODING, i)
    ensures IsChunked(req) <==> HeaderValue(req.headers[i]) == Some(CHUNKED)
  {
    FirstMatchValue(req.headers, TRANSFER_ENCODING, i);
  }

  /** A GET or HEAD whose first Content-Length header holds a positive
      decimal length, leading zeros allowed, is refused, whatever else it
      carries. */
  lemma GetWithLengthRefused(req: HTTPRequest, i: int, v: seq<byte>)
    requires !BodyAllowed(req.verb)
    requires FirstMatch(req.headers, CONTENT_LENGTH, i)
    requires HeaderValue(req.headers[i]) == Some(v)
    requires ParseDecimal(v).Some? && ParseDecimal(v).value > 0
    ensures RequestBodyLength(req) == Err(BodyNotAllowed)
  {
    ContentLengthTextIs(req, i);
  }

  /** "GET / HTTP/1.1" with the single header "Content-Length: 10" is refused. */
  lemma GetWithContentLengthTen()
    ensures RequestBodyLength(HTTPRequest(GET, Some(Ascii("/")), Some(Ascii("HTTP/1.1")), [LengthHeader(10)]))
      == Err(BodyNotAllowed)
  {
    var req := HTTPRequest(GET, Some(Ascii("/")), Some(Ascii("HTTP/1.1")), [LengthHeader(10)]);
    LengthHeaderParts(10);
    TrimKeeps(CONTENT_LENGTH);
    assert KeyMatches(req.headers[0], CONTENT_LENGTH);
    assert FirstMatch(req.headers, CONTENT_LENGTH, 0);
    DecimalRoundTrip(10);
    GetWithLengthRefused(req, 0, FormatDecimal(10));
  }

  /** `Content-Length:` with nothing after it is read as no length at all:
      the request is not refused as invalid, and it gets no fixed-length
      body; it is refused (GET or HEAD with chunked) or left unimplemented. */
  lemma EmptyContentLengthIsAbsent(req: HTTPRequest, i: int)
    requires FirstMatch(req.headers, CONTENT_LENGTH, i)
    requires HeaderValue(req.headers[i]) == Some([])
    ensures ContentLengthText(req) == None
    ensures RequestBodyLength(req).Err?
    ensures RequestBodyLength(req).error == BodyNotAllowed || RequestBodyLength(req).error.NotImplemented?
  {
    ContentLengthTextIs(req, i);
  }

  // ---------------------------------------------------------------------
  // The fixed-length body: readerFromConnLength
  // ---------------------------------------------------------------------

  /** The fragments read() hands out, one per call, from a buffer c, the
      connection's chunks p and rem bytes owed: the buffered bytes cut to
      what is owed, or after one connection read when the buffer is empty;
      none once nothing is owed or the connection has no more. */
  ghost function Cut(c: seq<byte>, p: seq<seq<byte>>, rem: nat): (r: seq<seq<byte>>)
    decreases |p|, rem
  {
    if rem == 0 then []
    else if c != [] then [c[..Min(rem, |c|)]] + Cut(c[Min(rem, |c|)..], p, rem - Min(rem, |c|))
    else if p == [] then []
    else Cut(p[0], p[1..], rem)
  }

  /** The fragments concatenate to the owed prefix of the buffered bytes
      followed by the chunks. */
  lemma {:induction false} CutFlatten(c: seq<byte>, p: seq<seq<byte>>, rem: nat)
    ensures Flatten(Cut(c, p, rem)) == (c + Flatten(p))[..Min(rem, |c + Flatten(p)|)]
    decreases |p|, rem
  {
    if rem == 0 {
    } else if c != [] {
      var n := Min(rem, |c|);
      CutFlatten(c[n..], p, rem - n);
      CutFirst(c, p, rem);
      PrefixSplit(c, Flatten(p), n, Min(rem, |c + Flatten(p)|));
    } else if p == [] {
    } else {
      CutFlatten(p[0], p[1..], rem);
      assert c + Flatten(p) == p[0] + Flatten(p[1..]);
    }
  }

  /** Unfolding Cut on a non-empty buffer. */
  lemma CutFirst(c: seq<byte>, p: seq<seq<byte>>, rem: nat)
    requires rem > 0 && c != []
    ensures Flatten(Cut(c, p, rem)) == c[..Min(rem, |c|)] + Flatten(Cut(c[Min(rem, |c|)..], p, rem - Min(rem, |c|)))
  {
    var n := Min(rem, |c|);
    var rest := Cut(c[n..], p, rem - n);
    assert ([c[..n]] + rest)[1..] == rest;
  }

  /** The first m bytes of c + f, for n <= |c| and n <= m, are the first n
      bytes of c and then the first m - n bytes after them. */
  lemma PrefixSplit(c: seq<byte>, f: seq<byte>, n: nat, m: nat)
    requires n <= |c| && n <= m <= |c + f|
    ensures (c + f)[..m] == c[..n] + (c[n..] + f)[..m - n]
  {
    assert c[n..] + f == (c + f)[n..];
    assert (c + f)[..m] == (c + f)[..n] + (c + f)[n..][..m - n];
  }

  /** No fragment of Cut is empty. */
  lemma {:induction false} CutNonEmpty(c: seq<byte>, p: seq<seq<byte>>, rem: nat)
    ensures forall i :: 0 <= i < |Cut(c, p, rem)| ==> Cut(c, p, rem)[i] != []
    decreases |p|, rem
  {
    if rem == 0 {
    } else if c != [] {
      var n := Min(rem, |c|);
      CutNonEmpty(c[n..], p, rem - n);
    } else if p == [] {
    } else {
      CutNonEmpty(p[0], p[1..], rem);
    }
  }

  /** A read with bytes owed and a non-empty stream hands out the first
      fragment of Cut, leaving the rest of Cut for the state after it. */
  lemma CutRead(c: seq<byte>, p: seq<seq<byte>>, rem: nat, v: seq<byte>, c': seq<byte>, p': seq<seq<byte>>, rem': nat)
    requires forall i :: 0 <= i < |p| ==> p[i] != []
    requires rem > 0 && rem' == rem - |v|
    requires v + (c' + Flatten(p')) == c + Flatten(p)
    requires c != [] ==> |v| == Min(rem, |c|) && p' == p && c' == c[|v|..]
    requires c == [] ==> p != [] && |v| == Min(rem, |p[0]|) && p' == p[1..]
    ensures v != [] && Cut(c, p, rem) == [v] + Cut(c', p', rem')
  {
    if c != [] {
      assert (v + (c' + Flatten(p')))[..|v|] == v;
      assert (c + Flatten(p))[..|v|] == c[..|v|];
    } else {
      assert Flatten(p) == p[0] + Flatten(p[1..]);
      RestAfterPrefix(v, c', p[0], Flatten(p'));
      assert (v + (c' + Flatten(p')))[..|v|] == v;
      assert (p[0] + Flatten(p'))[..|v|] == p[0][..|v|];
    }
  }

  /** With the stream dry, nothing more is handed out. */
  lemma CutDry(c: seq<byte>, p: seq<seq<byte>>, rem: nat)
    requires forall i :: 0 <= i < |p| ==> p[i] != []
    requires c + Flatten(p) == []
    ensures Cut(c, p, rem) == []
  {
  }

  /** The body reader of readerFromConnLength: len is the declared length,
      remaining the part not yet handed out; the closure's state is this
      object, and it shares the connection's buffer. */
  class FixedLengthReader {
    const source: ChunkSource
    const buf: DynamicBuffer
    const len: nat
    var remaining: nat

    ghost predicate Valid()
      reads this, buf, source
    {
      buf.Valid() && source.Valid() && remaining <= len
    }

    /** Every byte the reader can still see: what is buffered, then what the
        connection has yet to deliver. */
    ghost function Stream(): (r: seq<byte>)
      reads this, buf, buf.data, source
      requires Valid()
    {
      buf.Contents() + source.Remaining()
    }

    constructor (source: ChunkSource, buf: DynamicBuffer, bodyLen: nat)
      requires buf.Valid() && source.Valid()
      ensures Valid()
      ensures this.source == source && this.buf == buf && len == bodyLen && remaining == bodyLen
    {
      this.source := source;
      this.buf := buf;
      len := bodyLen;
      remaining := bodyLen;
    }

    /** One connection read into the empty buffer. */
    method Refill() returns (data: seq<byte>)
      requires Valid() && buf.len == 0
      modifies buf, buf.data, source
      ensures Valid()
      ensures buf.data == old(buf.data) || fresh(buf.data)
      ensures Stream() == old(Stream()) && buf.Contents() == data
      ensures data == [] <==> old(Stream()) == []
      ensures old(source.pending) == [] ==> data == []
      ensures old(source.pending) != [] ==> data == old(source.pending)[0]
      ensures source.pending == if old(source.pending) == [] then [] else old(source.pending)[1..]
    {
      assert buf.Contents() == [];
      data := source.Read();
      buf.PushData(data);
    }

    /** read(): the next fragment of the body. Empty once the body is
        complete, with nothing touched; otherwise the buffered bytes (after
        one connection read if the buffer is empty), cut to what remains.
        An empty connection read while bytes remain is Unexpected EOF. */
    method Read() returns (r: Result<seq<byte>, HttpError>)
      requires Valid()
      modifies this, buf, buf.data, source
      ensures Valid()
      ensures buf.data == old(buf.data) || fresh(buf.data)
      ensures old(remaining) == 0 ==>
        r == Ok([]) && unchanged(this) && unchanged(buf) && unchanged(buf.data) && unchanged(source)
      ensures r.Ok? ==> remaining == old(remaining) - |r.value| && r.value + Stream() == old(Stream())
      ensures r.Ok? && old(remaining) > 0 && old(buf.len) > 0 ==> |r.value| == Min(old(remaining), old(buf.len))
      ensures r.Ok? && old(remaining) > 0 && old(buf.len) == 0 ==>
        old(source.pending) != [] && |r.value| == Min(old(remaining), |old(source.pending)[0]|)
      ensures old(remaining) > 0 && old(buf.len) > 0 ==>
        && r.Ok? && source.pending == old(source.pending)
        && buf.Contents() == old(buf.Contents())[|r.value|..]
      ensures old(remaining) > 0 && old(buf.len) == 0 ==>
        source.pending == if old(source.pending) == [] then [] else old(source.pending)[1..]
      ensures old(remaining) <= old(buf.len) ==>
        r.Ok? && source.pending == old(source.pending) && remaining <= buf.len
      ensures r.Err? <==> old(remaining) > 0 && old(Stream()) == []
      ensures r.Err? ==> r.error == UnexpectedEOF && remaining == old(remaining) && Stream() == []
    {
      if remaining == 0 {
        return Ok([]);
      }
      if buf.len == 0 {
        var data := Refill();
        if |data| == 0 {
          return Err(UnexpectedEOF);
        }
      }
      var frag := TakeBuffered();
      r := Ok(frag);
    }

    /** Hand out the buffered bytes, cut to what remains of the body. */
    method TakeBuffered() returns (frag: seq<byte>)
      requires Valid()
      modifies this, buf, buf.data
      ensures Valid() && buf.data == old(buf.data)
      ensures |frag| == Min(old(buf.len), old(remaining))
      ensures remaining == old(remaining) - |frag|
      ensures frag + Stream() == old(Stream())
      ensures buf.Contents() == old(buf.Contents())[|frag|..]
    {
      ghost var mid := buf.Contents();
      var consume := Min(buf.len, remaining);
      remaining := remaining - consume;
      var cut := buf.UnshiftData(consume);
      assert cut.value + buf.Contents() == mid by {
        assert mid == mid[..consume] + mid[consume..];
      }
      frag := cut.value;
    }
  }

  /** getRequestBody: the fixed-length reader over the connection and its
      buffer when the rules choose one, or the error they choose. */
  method GetRequestBody(source: ChunkSource, buf: DynamicBuffer, req: HTTPRequest)
    returns (r: Result<FixedLengthReader, HttpError>)
    requires buf.Valid() && source.Valid()
    ensures r.Ok? <==> RequestBodyLength(req).Ok?
    ensures r.Err? ==> r.error == RequestBodyLength(req).error
    ensures r.Ok? ==> fresh(r.value) && r.value.Valid()
    ensures r.Ok? ==> r.value.source == source && r.value.buf == buf
    ensures r.Ok? ==> r.value.len == r.value.remaining == RequestBodyLength(req).value
  {
    match RequestBodyLength(req)
    case Err(e) =>
      r := Err(e);
    case Ok(bodyLen) =>
      var reader := new FixedLengthReader(source, buf, bodyLen);
      r := Ok(reader);
  }

  // ---------------------------------------------------------------------
  // Writing the response: writeResponse
  // ---------------------------------------------------------------------

  /** The status line without its CRLF: the reason phrase is always WOOT. */
  function StatusLine(code: nat): (r: seq<byte>)
  {
    Ascii("HTTP/1.1 ") + FormatDecimal(code) + Ascii(" WOOT")
  }

  /** The header writeResponse appends last: the length when it is known,
      chunked framing when it is negative. */
  function LengthHeader(len: int): (r: seq<byte>)
  {
    if len >= 0 then Ascii("Content-Length: ") + FormatDecimal(len) else Ascii("Transfer-Encoding: chunked")
  }

  /** Each header followed by CRLF, as lines 98-100 append them. */
  function HeaderLines(headers: seq<seq<byte>>): (r: seq<byte>)
  {
    if headers == [] then [] else headers[0] + CRLF + HeaderLines(headers[1..])
  }

  /** The first write of writeResponse: status line, the headers with the
      length header appended, and the empty line. */
  function ResponseHead(code: nat, headers: seq<seq<byte>>, len: int): (r: seq<byte>)
  {
    StatusLine(code) + CRLF + HeaderLines(headers + [LengthHeader(len)]) + CRLF
  }

  /** One body fragment on the wire: verbatim for a known length, otherwise
      as a chunk, the lower-case hex size, CRLF, the bytes, CRLF. */
  function FrameFragment(len: int, frag: seq<byte>): (r: seq<byte>)
  {
    if len < 0 then FormatHex(|frag|) + CRLF + frag + CRLF else frag
  }

  function Framed(len: int, frags: seq<seq<byte>>): (r: seq<seq<byte>>)
  {
    seq(|frags|, i requires 0 <= i < |frags| => FrameFragment(len, frags[i]))
  }

  lemma {:induction false} HeaderLinesJoin(first: seq<byte>, lines: seq<seq<byte>>)
    ensures HeadBytes(first, lines) == first + CRLF + HeaderLines(lines) + CRLF
    decreases |lines|
  {
    if lines == [] {
      assert [first] + lines + [[], []] == [first, [], []];
      assert Join([first, [], []][1..], CRLF) == [] + CRLF + [];
    } else {
      HeaderLinesJoin(lines[0], lines[1..]);
      var all := [first] + lines + [[], []];
      assert all[1..] == [lines[0]] + lines[1..] + [[], []];
    }
  }

  /** The response head is laid out exactly like a request head, with the
      status line first and the length header as the last header line. */
  lemma ResponseHeadLayout(code: nat, headers: seq<seq<byte>>, len: int)
    ensures ResponseHead(code, headers, len) == HeadBytes(StatusLine(code), headers + [LengthHeader(len)])
  {
    HeaderLinesJoin(StatusLine(code), headers + [LengthHeader(len)]);
  }

  lemma FreeOfCR(s: seq<byte>)
    requires CR !in s
    ensures Free(s, CRLF)
  {
    forall j | 0 <= j <= |s|
      ensures !OccursAt(s, CRLF, j)
    {
      if j + 2 <= |s| {
        assert s[j..j + 2][0] == s[j];
      }
    }
  }

  lemma DecimalHasNoCR(n: nat)
    ensures CR !in FormatDecimal(n) && SP !in FormatDecimal(n) && COLON !in FormatDecimal(n)
  {
    DecimalRoundTrip(n);
  }

  /** A client splitting the response head on CRLF gets back the status line,
      the headers in order, the length header and the closing empty line. */
  lemma ResponseHeadLines(code: nat, headers: seq<seq<byte>>, len: int)
    requires forall i :: 0 <= i < |headers| ==> CR !in headers[i]
    ensures ParseHTTPReq(ResponseHead(code, headers, len)) == Ok(HTTPRequest(
      Ascii("HTTP/1.1"), Some(FormatDecimal(code)), Some(Ascii("WOOT")), headers + [LengthHeader(len)]))
  {
    var all := headers + [LengthHeader(len)];
    StatusLineFields(code);
    LinesFree(headers, len);
    ResponseHeadLayout(code, headers, len);
    ParseRequestHead(StatusLine(code), all);
  }

  /** The status line holds no CRLF and splits on spaces into the version,
      the decimal code and the reason phrase. */
  lemma StatusLineFields(code: nat)
    ensures Free(StatusLine(code), CRLF)
    ensures var fields := Split(StatusLine(code), [SP]);
      fields[0] == Ascii("HTTP/1.1") && Piece(fields, 1) == Some(FormatDecimal(code))
      && Piece(fields, 2) == Some(Ascii("WOOT"))
  {
    StatusLineNoCR(code);
    FreeOfCR(StatusLine(code));
    StatusLinePieces(code, Ascii("HTTP/1.1"), FormatDecimal(code), Ascii("WOOT"));
    RequestLineFields(Ascii("HTTP/1.1"), FormatDecimal(code), Ascii("WOOT"));
  }

  lemma StatusLinePieces(code: nat, version: seq<byte>, digits: seq<byte>, reason: seq<byte>)
    requires version == Ascii("HTTP/1.1") && digits == FormatDecimal(code) && reason == Ascii("WOOT")
    ensures StatusLine(code) == version + [SP] + digits + [SP] + reason
    ensures Free(version, [SP]) && Free(digits, [SP]) && Free(reason, [SP])
  {
    assert Ascii("HTTP/1.1 ") == version + [SP];
    assert Ascii(" WOOT") == [SP] + reason;
    FreeOfByte(version, SP);
    FreeOfByte(reason, SP);
    DecimalHasNoCR(code);
    FreeOfByte(digits, SP);
  }

  lemma StatusLineNoCR(code: nat)
    ensures CR !in StatusLine(code)
  {
    DecimalHasNoCR(code);
    assert CR !in Ascii("HTTP/1.1 ") && CR !in Ascii(" WOOT");
  }

  lemma LengthHeaderNoCR(len: int)
    ensures CR !in LengthHeader(len)
  {
    if len >= 0 {
      DecimalHasNoCR(len);
      assert CR !in Ascii("Content-Length: ");
    } else {
      assert CR !in Ascii("Transfer-Encoding: chunked");
    }
  }

  lemma LinesFree(headers: seq<seq<byte>>, len: int)
    requires forall i :: 0 <= i < |headers| ==> CR !in headers[i]
    ensures forall i :: 0 <= i < |headers + [LengthHeader(len)]| ==> Free((headers + [LengthHeader(len)])[i], CRLF)
  {
    var all := headers + [LengthHeader(len)];
    LengthHeaderNoCR(len);
    forall i | 0 <= i < |all|
      ensures Free(all[i], CRLF)
    {
      FreeOfCR(all[i]);
    }
  }

  /** The Content-Length header writeResponse emits reads back, through
      getHeaderValue and the decimal parse, as the body length. */
  lemma ContentLengthRoundTrip(n: nat, key: seq<byte>)
    requires ToLower(key) == ToLower(CONTENT_LENGTH)
    ensures GetHeaderValue([LengthHeader(n)], key) == Some(Some(FormatDecimal(n)))
    ensures ParseDecimal(FormatDecimal(n)) == Some(n)
  {
    DecimalRoundTrip(n);
    LengthHeaderParts(n);
    assert KeyMatches(LengthHeader(n), key);
    SingleHeaderLookup(LengthHeader(n), key);
  }

  lemma LengthHeaderParts(n: nat)
    ensures HeaderKey(LengthHeader(n)) == CONTENT_LENGTH
    ensures HeaderValue(LengthHeader(n)) == Some(FormatDecimal(n))
  {
    var digits := FormatDecimal(n);
    DecimalHasNoCR(n);
    DecimalRoundTrip(n);
    assert LengthHeader(n) == CONTENT_LENGTH + [COLON] + ([SP] + digits);
    assert COLON !in CONTENT_LENGTH;
    HeaderLineParts(CONTENT_LENGTH, [SP] + digits);
    TrimKeeps(CONTENT_LENGTH);
    SpaceThenDigits(digits);
  }

  lemma SpaceThenDigits(digits: seq<byte>)
    requires digits != [] && AllDigits(digits)
    ensures Trim([SP] + digits) == digits
  {
    TrimKeeps(digits);
    assert ([SP] + digits)[1..] == digits;
  }

  lemma SingleHeaderLookup(line: seq<byte>, key: seq<byte>)
    requires KeyMatches(line, key)
    ensures GetHeaderValue([line], key) == Some(HeaderValue(line))
  {
  }

  /** A chunk written for a non-empty fragment is self-delimiting: the first
      CRLF ends the size line, whose hex value is the (non-zero) fragment
      length, and the fragment and a CRLF follow. No fragment is ever framed
      as the zero-size last chunk. */
  lemma ChunkFrameSelfDelimiting(frag: seq<byte>)
    requires frag != []
    ensures var f := FrameFragment(-1, frag); var h := FormatHex(|frag|);
      && IndexOfSeq(f, CRLF) == |h|
      && f[..|h|] == h && (forall i :: 0 <= i < |h| ==> IsHexDigit(h[i]))
      && HexValue(h) == |frag| > 0
      && f[|h| + 2..|h| + 2 + |frag|] == frag
      && f[|h| + 2 + |frag|..] == CRLF
  {
    var f := FrameFragment(-1, frag);
    var h := FormatHex(|frag|);
    HexRoundTrip(|frag|);
    assert CR !in h;
    FirstCrlf(h, frag + CRLF);
    assert f == h + CRLF + (frag + CRLF);
  }

  /** With no CR in h, the first CRLF of h + CRLF + t is the one after h. */
  lemma FirstCrlf(h: seq<byte>, t: seq<byte>)
    requires CR !in h
    ensures IndexOfSeq(h + CRLF + t, CRLF) == |h|
  {
    var f := h + CRLF + t;
    forall j | 0 <= j < |h|
      ensures !OccursAt(f, CRLF, j)
    {
      assert f[j] == h[j];
      if j + 2 <= |f| {
        assert f[j..j + 2][0] == f[j];
      }
    }
    assert f[|h|..|h| + 2] == CRLF;
    IndexOfSeqIs(f, CRLF, |h|);
  }

  /** The connection's chunks p are what is left of p0 after k reads, and
      each read was made while the bytes already at hand (the buffer c0 and
      the chunks read before it) fell short of the rem0 bytes the body
      still owed: no chunk is read once the body is complete. */
  ghost predicate ReadsOnlyWhileOwed(c0: seq<byte>, p0: seq<seq<byte>>, rem0: nat, p: seq<seq<byte>>)
  {
    exists k :: 0 <= k <= |p0| && p == p0[k..] && (k > 0 ==> |c0| + |Flatten(p0[..k - 1])| < rem0)
  }

  /** The body loop's bookkeeping after k connection reads, over the
      stream s0, buffer c0, chunks p0 and owed count rem0 it started from:
      the fragments handed out are nonempty and are the front of s0, the
      count went down by their length, and every read was made while the
      body was owed. */
  ghost predicate Progress(s0: seq<byte>, c0: seq<byte>, p0: seq<seq<byte>>, rem0: nat,
                           fragments: seq<seq<byte>>, k: nat, stream: seq<byte>, pending: seq<seq<byte>>, remaining: nat)
  {
    && (forall i :: 0 <= i < |fragments| ==> fragments[i] != [])
    && Flatten(fragments) + stream == s0
    && |Flatten(fragments)| + remaining == rem0
    && k <= |p0| && pending == p0[k..]
    && (k > 0 ==> |c0| + |Flatten(p0[..k - 1])| < rem0)
  }

  /** The bytes handed out and the held bytes are those that were at hand:
      the buffer c0 and the first k chunks. */
  ghost predicate Held(c0: seq<byte>, p0: seq<seq<byte>>, fragments: seq<seq<byte>>, k: nat, held: nat)
    requires k <= |p0|
  {
    |Flatten(fragments)| + held == |c0| + |Flatten(p0[..k])|
  }

  /** The fragments handed out, followed by those the reader would still
      hand out from buffer c, chunks p and rem bytes owed, are those it
      would have handed out from the start. */
  ghost predicate Follows(c0: seq<byte>, p0: seq<seq<byte>>, rem0: nat, fragments: seq<seq<byte>>,
                          c: seq<byte>, p: seq<seq<byte>>, rem: nat)
  {
    fragments + Cut(c, p, rem) == Cut(c0, p0, rem0)
  }

  /** A read that hands out the first fragment v of Cut keeps the handed-out
      fragments in step with Cut once v is appended. */
  lemma FollowsRead(c0: seq<byte>, p0: seq<seq<byte>>, rem0: nat, fragments: seq<seq<byte>>, v: seq<byte>,
                    c: seq<byte>, p: seq<seq<byte>>, rem: nat, c': seq<byte>, p': seq<seq<byte>>, rem': nat)
    requires Follows(c0, p0, rem0, fragments, c, p, rem)
    requires Cut(c, p, rem) == [v] + Cut(c', p', rem')
    ensures Follows(c0, p0, rem0, fragments + [v], c', p', rem')
  {
    AppendAssoc(fragments, [v], Cut(c', p', rem'));
  }

  /** Appending a non-empty fragment v taken from the front of the stream
      keeps the bookkeeping, with k' reads counted. */
  lemma ProgressRead(s0: seq<byte>, c0: seq<byte>, p0: seq<seq<byte>>, rem0: nat, fragments: seq<seq<byte>>, k: nat,
                     stream: seq<byte>, pending: seq<seq<byte>>, rem: nat,
                     v: seq<byte>, k': nat, stream': seq<byte>, pending': seq<seq<byte>>, rem': nat)
    requires Progress(s0, c0, p0, rem0, fragments, k, stream, pending, rem)
    requires v != [] && v + stream' == stream && rem' == rem - |v|
    requires k' <= |p0| && pending' == p0[k'..] && (k' > 0 ==> |c0| + |Flatten(p0[..k' - 1])| < rem0)
    ensures Progress(s0, c0, p0, rem0, fragments + [v], k', stream', pending', rem')
  {
    FragmentAppended(fragments, v, stream');
  }

  /** The loop's count of connection reads witnesses that no read came
      after the body was complete. */
  lemma OwedReadsOnlyWhileOwed(c0: seq<byte>, p0: seq<seq<byte>>, rem0: nat, p: seq<seq<byte>>, k: nat)
    requires k <= |p0| && p == p0[k..] && (k > 0 ==> |c0| + |Flatten(p0[..k - 1])| < rem0)
    ensures ReadsOnlyWhileOwed(c0, p0, rem0, p)
  {
  }

  /** Reading the chunk after the first k moves it from the chunks left to
      the chunks at hand. */
  lemma ChunkRead(p0: seq<seq<byte>>, k: nat)
    requires k < |p0|
    ensures Flatten(p0[..k + 1]) == Flatten(p0[..k]) + p0[k]
    ensures p0[k..][1..] == p0[k + 1..] && Flatten(p0[k..]) == p0[k] + Flatten(p0[k + 1..])
  {
    assert p0[..k + 1] == p0[..k] + [p0[k]];
    FlattenAppend(p0[..k], [p0[k]]);
    assert Flatten([p0[k]]) == p0[k] + Flatten([]);
    assert p0[k..][1..] == p0[k + 1..];
  }

  /** Appending a fragment v to those handed out moves it from the front of
      the stream to the end of the handed-out bytes. */
  lemma FragmentAppended(fragments: seq<seq<byte>>, v: seq<byte>, stream: seq<byte>)
    ensures Flatten(fragments + [v]) == Flatten(fragments) + v
    ensures Flatten(fragments + [v]) + stream == Flatten(fragments) + (v + stream)
  {
    FlattenAppend(fragments, [v]);
    assert Flatten([v]) == v + Flatten([]);
    AppendAssoc(Flatten(fragments), v, stream);
  }

  /** One step of the body loop: read a fragment and append it if it is
      nonempty; done once it is empty or the reader fails. */
  method NextFragment(body: FixedLengthReader, fragments: seq<seq<byte>>, ghost s0: seq<byte>, ghost c0: seq<byte>,
                      ghost p0: seq<seq<byte>>, ghost rem0: nat, ghost k: nat)
    returns (fragments': seq<seq<byte>>, r: Result<(), HttpError>, done: bool, ghost k': nat)
    requires body.Valid()
    requires Progress(s0, c0, p0, rem0, fragments, k, body.Stream(), body.source.pending, body.remaining)
    requires Held(c0, p0, fragments, k, |body.buf.Contents()|)
    requires Follows(c0, p0, rem0, fragments, body.buf.Contents(), body.source.pending, body.remaining)
    modifies body, body.buf, body.buf.data, body.source
    ensures body.Valid()
    ensures body.buf.data == old(body.buf.data) || fresh(body.buf.data)
    ensures Progress(s0, c0, p0, rem0, fragments', k', body.Stream(), body.source.pending, body.remaining)
    ensures r.Ok? ==> Held(c0, p0, fragments', k', |body.buf.Contents()|)
    ensures Follows(c0, p0, rem0, fragments', body.buf.Contents(), body.source.pending, body.remaining)
    ensures !done ==> r.Ok? && body.remaining < old(body.remaining)
    ensures done && r.Ok? ==> body.remaining == 0
    ensures r.Err? ==> done && r.error == UnexpectedEOF && body.remaining > 0 && body.Stream() == []
    ensures old(body.remaining) <= old(body.buf.len) ==>
      r.Ok? && body.source.pending == old(body.source.pending) && body.remaining <= body.buf.len
  {
    ghost var lenBefore := body.buf.len;
    ghost var remBefore := body.remaining;
    ghost var cBefore := body.buf.Contents();
    ghost var pBefore := body.source.pending;
    ghost var sBefore := body.Stream();
    ghost var owed := remBefore > 0 && lenBefore == 0 && p0[k..] != [];
    var data := body.Read();
    k' := k;
    if owed {
      ChunkRead(p0, k);
      k' := k + 1;
    }
    fragments' := fragments;
    if data.Err? {
      CutDry(cBefore, pBefore, remBefore);
      CutDry(body.buf.Contents(), body.source.pending, remBefore);
      r, done := Err(data.error), true;
    } else if data.value == [] {
      r, done := Ok(()), true;
    } else {
      CutRead(cBefore, pBefore, remBefore, data.value, body.buf.Contents(), body.source.pending, body.remaining);
      ProgressRead(s0, c0, p0, rem0, fragments, k, sBefore, pBefore, remBefore,
                   data.value, k', body.Stream(), body.source.pending, body.remaining);
      FragmentAppended(fragments, data.value, body.Stream());
      FollowsRead(c0, p0, rem0, fragments, data.value, cBefore, pBefore, remBefore,
                  body.buf.Contents(), body.source.pending, body.remaining);
      fragments' := fragments + [data.value];
      r, done := Ok(()), false;
    }
  }

  /** The body loop of writeResponse: read fragments until the first empty
      one or a reader error, counting in k the reads of the connection. */
  method ReadFragments(body: FixedLengthReader)
    returns (fragments: seq<seq<byte>>, r: Result<(), HttpError>, ghost k: nat)
    requires body.Valid()
    modifies body, body.buf, body.buf.data, body.source
    ensures body.Valid()
    ensures Progress(old(body.Stream()), old(body.buf.Contents()), old(body.source.pending), old(body.remaining),
                     fragments, k, body.Stream(), body.source.pending, body.remaining)
    ensures r.Ok? ==> body.remaining == 0 && Held(old(body.buf.Contents()), old(body.source.pending), fragments, k, |body.buf.Contents()|)
    ensures Follows(old(body.buf.Contents()), old(body.source.pending), old(body.remaining),
                    fragments, body.buf.Contents(), body.source.pending, body.remaining)
    ensures r.Err? ==> r.error == UnexpectedEOF && body.remaining > 0 && body.Stream() == []
  {
    ghost var s0 := body.Stream();
    ghost var rem0 := body.remaining;
    ghost var data0 := body.buf.data;
    ghost var p0 := body.source.pending;
    ghost var c0 := body.buf.Contents();
    fragments := [];
    k := 0;
    assert p0[..0] == [];
    r := Ok(());
    var done := false;
    while !done
      invariant body.Valid()
      invariant body.buf.data == data0 || fresh(body.buf.data)
      invariant Progress(s0, c0, p0, rem0, fragments, k, body.Stream(), body.source.pending, body.remaining)
      invariant r.Ok? ==> Held(c0, p0, fragments, k, |body.buf.Contents()|)
      invariant Follows(c0, p0, rem0, fragments, body.buf.Contents(), body.source.pending, body.remaining)
      invariant done && r.Ok? ==> body.remaining == 0
      invariant r.Err? ==> done && r.error == UnexpectedEOF && body.remaining > 0 && body.Stream() == []
      decreases !done, body.remaining
    {
      fragments, r, done, k := NextFragment(body, fragments, s0, c0, p0, rem0, k);
    }
  }

  /** What writeResponse's body loop hands out: on success exactly the
      bytes the reader still owes, from the front of the stream; on a
      reader error the fragments read so far, which are then the whole
      stream. The connection is read only while the body is incomplete. */
  method ReadBody(body: FixedLengthReader) returns (fragments: seq<seq<byte>>, r: Result<(), HttpError>)
    requires body.Valid()
    modifies body, body.buf, body.buf.data, body.source
    ensures body.Valid()
    ensures forall i :: 0 <= i < |fragments| ==> fragments[i] != []
    ensures Flatten(fragments) + body.Stream() == old(body.Stream())
    ensures r.Ok? <==> old(body.remaining) <= |old(body.Stream())|
    ensures r.Ok? ==> Flatten(fragments) == old(body.Stream())[..old(body.remaining)] && body.remaining == 0
    ensures r.Err? ==> r.error == UnexpectedEOF && Flatten(fragments) == old(body.Stream())
    ensures old(body.remaining) <= old(body.buf.len) ==>
      && body.source.pending == old(body.source.pending)
      && body.buf.Contents() == old(body.buf.Contents())[old(body.remaining)..]
    ensures ReadsOnlyWhileOwed(old(body.buf.Contents()), old(body.source.pending), old(body.remaining), body.source.pending)
    ensures fragments == Cut(old(body.buf.Contents()), old(body.source.pending), old(body.remaining))
  {
    ghost var p0 := body.source.pending;
    ghost var c0 := body.buf.Contents();
    ghost var rem0 := body.remaining;
    ghost var k;
    fragments, r, k := ReadFragments(body);
    if r.Ok? && rem0 <= |c0| {
      assert k == 0 && p0[..0] == [];
      AppendAssoc(Flatten(fragments), body.buf.Contents(), body.source.Remaining());
      RestAfterPrefix(Flatten(fragments), body.buf.Contents(), c0, body.source.Remaining());
    }
    OwedReadsOnlyWhileOwed(c0, p0, rem0, body.source.pending, k);
    if r.Err? {
      CutDry(body.buf.Contents(), body.source.pending, body.remaining);
    }
    assert fragments + [] == fragments;
  }

  /** Cancelling a common tail: if a + b + t == c + t then b is what follows a in c. */
  lemma RestAfterPrefix(a: seq<byte>, b: seq<byte>, c: seq<byte>, t: seq<byte>)
    requires a + (b + t) == c + t
    ensures |a| <= |c| && b == c[|a|..]
  {
    assert (a + (b + t))[..|c|] == (c + t)[..|c|];
  }

  /** A known length frames every fragment verbatim. */
  lemma FramedFixed(len: int, frags: seq<seq<byte>>)
    requires len >= 0
    ensures Framed(len, frags) == frags
  {
  }

  /** writeResponse with a fixed-length body: the head in one write, then
      one write per non-empty fragment the reader hands out, verbatim,
      stopping at the first empty fragment. On success the body writes are
      exactly the bytes the reader still owes, from the front of the
      stream; a reader error ends it with the writes so far, which then
      carry the whole stream. The connection is read only while the body
      is incomplete. */
  method WriteResponse(code: nat, headers: seq<seq<byte>>, body: FixedLengthReader)
    returns (writes: seq<seq<byte>>, r: Result<(), HttpError>)
    requires body.Valid()
    modifies body, body.buf, body.buf.data, body.source
    ensures body.Valid()
    ensures |writes| >= 1 && writes[0] == ResponseHead(code, headers, body.len)
    ensures forall i :: 1 <= i < |writes| ==> writes[i] != []
    ensures Flatten(writes[1..]) + body.Stream() == old(body.Stream())
    ensures r.Ok? <==> old(body.remaining) <= |old(body.Stream())|
    ensures r.Ok? ==> Flatten(writes[1..]) == old(body.Stream())[..old(body.remaining)]
    ensures r.Err? ==> r.error == UnexpectedEOF && Flatten(writes[1..]) == old(body.Stream())
    ensures old(body.remaining) <= old(body.buf.len) ==>
      && body.source.pending == old(body.source.pending)
      && body.buf.Contents() == old(body.buf.Contents())[old(body.remaining)..]
    ensures ReadsOnlyWhileOwed(old(body.buf.Contents()), old(body.source.pending), old(body.remaining), body.source.pending)
    ensures writes[1..] == Cut(old(body.buf.Contents()), old(body.source.pending), old(body.remaining))
  {
    var fragments;
    fragments, r := ReadBody(body);
    FramedFixed(body.len, fragments);
    writes := [ResponseHead(code, headers, body.len)] + Framed(body.len, fragments);
    assert writes[1..] == fragments;
  }
}
