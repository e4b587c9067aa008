/**
 * Byte-level helpers shared by the buffer, the framers and the HTTP code:
 * the byte type, search for a byte or a byte string (Buffer.indexOf),
 * splitting on a separator (String.split), ASCII whitespace trimming and
 * case folding, and decimal / hexadecimal numerals.
 */
module Bytes {

  newtype byte = b: int | 0 <= b < 256

  datatype Option<T> = None | Some(value: T)

  datatype Result<T, E> = Ok(value: T) | Err(error: E)

  const LF: byte := 10
  const CR: byte := 13
  const SP: byte := 32
  const COLON: byte := 58
  const CRLF: seq<byte> := [CR, LF]

  /** The bytes of an ASCII string literal. */
  function Ascii(s: string): (r: seq<byte>)
    requires forall i :: 0 <= i < |s| ==> s[i] as int < 256
  {
    seq(|s|, i requires 0 <= i < |s| => s[i] as int as byte)
  }

  /** The concatenation of a sequence of byte strings. */
  function Flatten(parts: seq<seq<byte>>): (r: seq<byte>)
  {
    if parts == [] then [] else parts[0] + Flatten(parts[1..])
  }

  lemma {:induction false} FlattenAppend(a: seq<seq<byte>>, b: seq<seq<byte>>)
    ensures Flatten(a + b) == Flatten(a) + Flatten(b)
  {
    if a != [] {
      calc {
        Flatten(a + b);
        (a + b)[0] + Flatten((a + b)[1..]);
        { assert (a + b)[1..] == a[1..] + b; }
        a[0] + Flatten(a[1..] + b);
        { FlattenAppend(a[1..], b); }
        a[0] + (Flatten(a[1..]) + Flatten(b));
      }
    } else {
      assert a + b == b;
    }
  }

  function Min(a: int, b: int): (r: int) { if a <= b then a else b }

  function Max(a: int, b: int): (r: int) { if a >= b then a else b }

  // ---------------------------------------------------------------------
  // Searching
  // ---------------------------------------------------------------------

  /** Buffer.indexOf for a single byte: the first index of b, or -1. */
  function IndexOfByte(s: seq<byte>, b: byte): (r: int)
    ensures -1 <= r < |s|
    ensures r == -1 <==> b !in s
    ensures 0 <= r ==> s[r] == b && b !in s[..r]
  {
    if |s| == 0 then -1
    else if s[0] == b then 0
    else
      var k := IndexOfByte(s[1..], b);
      assert s == [s[0]] + s[1..];
      if k < 0 then -1 else k + 1
  }

  /** pat occurs in s starting at index i. */
  predicate OccursAt(s: seq<byte>, pat: seq<byte>, i: int)
  {
    0 <= i && i + |pat| <= |s| && s[i..i + |pat|] == pat
  }

  /** Buffer.indexOf for a byte string: the first index at which pat occurs, or -1. */
  function IndexOfSeq(s: seq<byte>, pat: seq<byte>): (r: int)
    requires |pat| > 0
    ensures r == -1 || OccursAt(s, pat, r)
  {
    if |s| < |pat| then -1
    else if s[..|pat|] == pat then 0
    else
      var k := IndexOfSeq(s[1..], pat);
      ShiftOccurs(s, pat);
      if k < 0 then -1 else k + 1
  }

  lemma ShiftOccurs(s: seq<byte>, pat: seq<byte>)
    requires |s| > 0
    ensures forall j :: 1 <= j ==> (OccursAt(s[1..], pat, j - 1) <==> OccursAt(s, pat, j))
  {
    forall j | 1 <= j
      ensures OccursAt(s[1..], pat, j - 1) <==> OccursAt(s, pat, j)
    {
      if j + |pat| <= |s| {
        assert s[1..][j - 1..j - 1 + |pat|] == s[j..j + |pat|];
      }
    }
  }

  /** IndexOfSeq finds the first occurrence: there is none before it, and
      none at all when it answers -1. */
  lemma {:induction false} IndexOfSeqFirst(s: seq<byte>, pat: seq<byte>)
    requires |pat| > 0
    ensures forall j :: 0 <= j && (IndexOfSeq(s, pat) == -1 || j < IndexOfSeq(s, pat)) ==> !OccursAt(s, pat, j)
    decreases |s|
  {
    if |s| >= |pat| && s[..|pat|] != pat {
      IndexOfSeqFirst(s[1..], pat);
      ShiftOccurs(s, pat);
    }
  }

  /** The first occurrence is unique: whatever satisfies its description is it. */
  lemma IndexOfSeqIs(s: seq<byte>, pat: seq<byte>, r: int)
    requires |pat| > 0
    requires r == -1 || OccursAt(s, pat, r)
    requires forall j :: 0 <= j && (r == -1 || j < r) ==> !OccursAt(s, pat, j)
    ensures IndexOfSeq(s, pat) == r
  {
    IndexOfSeqFirst(s, pat);
  }

  /** A prefix that ends before the first occurrence of pat does. */
  lemma FreeBeforeFirst(s: seq<byte>, pat: seq<byte>, k: int, n: int)
    requires |pat| > 0 && 0 <= n <= |s| && n < k + |pat|
    requires forall j :: 0 <= j < k ==> !OccursAt(s, pat, j)
    ensures Free(s[..n], pat)
  {
    forall j | 0 <= j <= n
      ensures !OccursAt(s[..n], pat, j)
    {
      if j + |pat| <= n {
        assert s[..n][j..j + |pat|] == s[j..j + |pat|];
        assert !OccursAt(s, pat, j);
      }
    }
  }

  // ---------------------------------------------------------------------
  // Splitting
  // ---------------------------------------------------------------------

  /** String.split with a non-empty separator: the pieces between the
      left-to-right, non-overlapping occurrences of sep. */
  function Split(s: seq<byte>, sep: seq<byte>): (r: seq<seq<byte>>)
    requires |sep| > 0
    ensures |r| >= 1
    decreases |s|
  {
    var i := IndexOfSeq(s, sep);
    if i < 0 then [s] else [s[..i]] + Split(s[i + |sep|..], sep)
  }

  /** The inverse of Split: the pieces glued together with sep between them. */
  function Join(parts: seq<seq<byte>>, sep: seq<byte>): (r: seq<byte>)
  {
    if |parts| == 0 then []
    else if |parts| == 1 then parts[0]
    else parts[0] + sep + Join(parts[1..], sep)
  }

  /** No piece of a split contains the separator. */
  predicate Free(s: seq<byte>, sep: seq<byte>)
  {
    forall j :: 0 <= j <= |s| ==> !OccursAt(s, sep, j)
  }

  /** No proper suffix of sep is also a prefix of it (true of CRLF and of
      every one-byte separator), so two occurrences never overlap. */
  predicate Unbordered(sep: seq<byte>)
  {
    forall k :: 0 < k < |sep| ==> sep[k..] != sep[..|sep| - k]
  }

  lemma {:induction false} JoinSplit(s: seq<byte>, sep: seq<byte>)
    requires |sep| > 0
    ensures Join(Split(s, sep), sep) == s
    ensures forall i :: 0 <= i < |Split(s, sep)| ==> Free(Split(s, sep)[i], sep)
    decreases |s|
  {
    var i := IndexOfSeq(s, sep);
    IndexOfSeqFirst(s, sep);
    if i >= 0 {
      var head := s[..i];
      var rest := s[i + |sep|..];
      JoinSplit(rest, sep);
      var tail := Split(rest, sep);
      SplitAt(s, sep, i, head, rest);
      assert s == head + sep + rest by {
        assert s[i..i + |sep|] == sep;
      }
      FreeBeforeFirst(s, sep, i, i);
      JoinSplitStep(head, sep, rest, tail);
    }
  }

  /** One step of JoinSplit: a free head glued before the pieces of rest. */
  lemma JoinSplitStep(head: seq<byte>, sep: seq<byte>, rest: seq<byte>, tail: seq<seq<byte>>)
    requires |tail| >= 1 && Join(tail, sep) == rest && Free(head, sep)
    requires forall i :: 0 <= i < |tail| ==> Free(tail[i], sep)
    ensures Join([head] + tail, sep) == head + sep + rest
    ensures forall i :: 0 <= i < |[head] + tail| ==> Free(([head] + tail)[i], sep)
  {
    assert ([head] + tail)[1..] == tail;
    forall i | 0 <= i < |[head] + tail|
      ensures Free(([head] + tail)[i], sep)
    {
      if i > 0 {
        assert ([head] + tail)[i] == tail[i - 1];
      }
    }
  }

  /** Occurrences of pat inside a prefix a of s are occurrences in s. */
  lemma OccursInPrefix(a: seq<byte>, t: seq<byte>, pat: seq<byte>, j: int)
    requires 0 <= j && j + |pat| <= |a|
    ensures OccursAt(a + t, pat, j) <==> OccursAt(a, pat, j)
  {
    assert (a + t)[j..j + |pat|] == a[j..j + |pat|];
  }

  /** An occurrence of an unbordered sep that ends inside a following copy of
      sep begins exactly at that copy. */
  lemma NoStraddle(a: seq<byte>, sep: seq<byte>, b: seq<byte>, j: int)
    requires |sep| > 0 && Unbordered(sep)
    requires 0 <= j < |a| < j + |sep|
    ensures !OccursAt(a + sep + b, sep, j)
  {
    var s := a + sep + b;
    var k := |a| - j;
    assert s[|a|..j + |sep|] == sep[..|sep| - k];
    assert s[j..j + |sep|][k..] == s[|a|..j + |sep|];
    assert sep[k..] != sep[..|sep| - k];
  }

  /** The first occurrence inside a prefix is the first in the whole. */
  lemma IndexInPrefix(a: seq<byte>, t: seq<byte>, pat: seq<byte>)
    requires |pat| > 0 && IndexOfSeq(a, pat) >= 0
    ensures IndexOfSeq(a + t, pat) == IndexOfSeq(a, pat)
  {
    var ia := IndexOfSeq(a, pat);
    IndexOfSeqFirst(a, pat);
    forall j | 0 <= j < ia
      ensures !OccursAt(a + t, pat, j)
    {
      OccursInPrefix(a, t, pat, j);
    }
    OccursInPrefix(a, t, pat, ia);
    IndexOfSeqIs(a + t, pat, ia);
  }

  /** With no sep inside a, the first sep of a + sep + b is the glued one. */
  lemma IndexAtGlued(a: seq<byte>, sep: seq<byte>, b: seq<byte>)
    requires |sep| > 0 && Unbordered(sep) && IndexOfSeq(a, sep) == -1
    ensures IndexOfSeq(a + sep + b, sep) == |a|
  {
    var s := a + sep + b;
    IndexOfSeqFirst(a, sep);
    forall j | 0 <= j < |a|
      ensures !OccursAt(s, sep, j)
    {
      if j + |sep| <= |a| {
        OccursInPrefix(a, sep + b, sep, j);
        assert a + sep + b == a + (sep + b);
      } else {
        NoStraddle(a, sep, b, j);
      }
    }
    assert s[|a|..|a| + |sep|] == sep;
    IndexOfSeqIs(s, sep, |a|);
  }

  /** One step of Split at a known first occurrence. */
  lemma SplitAt(s: seq<byte>, sep: seq<byte>, i: int, head: seq<byte>, tail: seq<byte>)
    requires |sep| > 0 && 0 <= i && IndexOfSeq(s, sep) == i
    requires head == s[..i] && tail == s[i + |sep|..]
    ensures Split(s, sep) == [head] + Split(tail, sep)
  {
  }

  lemma AppendAssoc<T>(x: seq<T>, y: seq<T>, z: seq<T>)
    ensures x + (y + z) == (x + y) + z
  {
  }

  /** When a holds sep, splitting a + sep + b starts like splitting a. */
  lemma SplitAroundStep(a: seq<byte>, sep: seq<byte>, b: seq<byte>, ia: int, a': seq<byte>)
    requires |sep| > 0 && 0 <= ia && IndexOfSeq(a, sep) == ia
    requires ia + |sep| <= |a| && a' == a[ia + |sep|..]
    ensures Split(a + sep + b, sep) == [a[..ia]] + Split(a' + sep + b, sep)
    ensures Split(a, sep) == [a[..ia]] + Split(a', sep)
  {
    var s := a + sep + b;
    IndexInPrefix(a, sep + b, sep);
    assert s == a + (sep + b);
    assert s[..ia] == a[..ia];
    assert s[ia + |sep|..] == a' + sep + b;
    SplitAt(s, sep, ia, a[..ia], a' + sep + b);
    SplitAt(a, sep, ia, a[..ia], a');
  }

  /** When a holds no sep, the glued one is the first cut. */
  lemma SplitAroundBase(a: seq<byte>, sep: seq<byte>, b: seq<byte>)
    requires |sep| > 0 && Unbordered(sep) && IndexOfSeq(a, sep) == -1
    ensures Split(a + sep + b, sep) == [a] + Split(b, sep)
    ensures Split(a, sep) == [a]
  {
    var s := a + sep + b;
    IndexAtGlued(a, sep, b);
    assert s[..|a|] == a;
    assert s[|a| + |sep|..] == b;
    SplitAt(s, sep, |a|, a, b);
  }

  lemma SplitAroundCombine(a: seq<byte>, sep: seq<byte>, b: seq<byte>, a': seq<byte>)
    requires |sep| > 0 && IndexOfSeq(a, sep) >= 0
    requires IndexOfSeq(a, sep) + |sep| <= |a| && a' == a[IndexOfSeq(a, sep) + |sep|..]
    requires Split(a' + sep + b, sep) == Split(a', sep) + Split(b, sep)
    ensures Split(a + sep + b, sep) == Split(a, sep) + Split(b, sep)
  {
    SplitAroundStep(a, sep, b, IndexOfSeq(a, sep), a');
    AppendAssoc([a[..IndexOfSeq(a, sep)]], Split(a', sep), Split(b, sep));
  }

  /** Splitting on an unbordered sep distributes over a glued occurrence. */
  lemma {:induction false} SplitAround(a: seq<byte>, sep: seq<byte>, b: seq<byte>)
    requires |sep| > 0 && Unbordered(sep)
    ensures Split(a + sep + b, sep) == Split(a, sep) + Split(b, sep)
    decreases |a|
  {
    var ia := IndexOfSeq(a, sep);
    if ia >= 0 {
      var a' := a[ia + |sep|..];
      SplitAround(a', sep, b);
      SplitAroundCombine(a, sep, b, a');
    } else {
      SplitAroundBase(a, sep, b);
    }
  }

  lemma SplitEmpty(sep: seq<byte>)
    requires |sep| > 0
    ensures Split([], sep) == [[]]
  {
    IndexOfSeqIs([], sep, -1);
  }

  /** Two trailing separators end a split with two empty pieces. */
  lemma SplitTwoSeps(x: seq<byte>, sep: seq<byte>)
    requires |sep| > 0 && Unbordered(sep)
    ensures Split(x + sep + sep, sep) == Split(x, sep) + [[], []]
  {
    var e: seq<byte> := [];
    SplitEmpty(sep);
    SplitAround(e, sep, e);
    assert e + sep + e == sep;
    SplitAround(x, sep, sep);
  }

  lemma SplitFree(s: seq<byte>, sep: seq<byte>)
    requires |sep| > 0 && Free(s, sep)
    ensures Split(s, sep) == [s]
  {
    IndexOfSeqIs(s, sep, -1);
  }

  /** The first two pieces of a + sep + b + sep + c when a and b are free of sep. */
  lemma SplitFirstTwo(a: seq<byte>, sep: seq<byte>, b: seq<byte>, c: seq<byte>)
    requires |sep| > 0 && Unbordered(sep) && Free(a, sep) && Free(b, sep)
    ensures Split(a + sep + b + sep + c, sep) == [a, b] + Split(c, sep)
  {
    var bc := b + sep + c;
    assert a + sep + b + sep + c == a + sep + bc;
    SplitAround(a, sep, bc);
    SplitAround(b, sep, c);
    SplitFree(a, sep);
    SplitFree(b, sep);
    AppendAssoc([a], [b], Split(c, sep));
  }

  /** Split undoes Join when no piece contains an unbordered separator. */
  lemma {:induction false} SplitJoin(parts: seq<seq<byte>>, sep: seq<byte>)
    requires |sep| > 0 && Unbordered(sep) && |parts| >= 1
    requires forall i :: 0 <= i < |parts| ==> Free(parts[i], sep)
    ensures Split(Join(parts, sep), sep) == parts
  {
    if |parts| == 1 {
      SplitFree(parts[0], sep);
    } else {
      SplitAround(parts[0], sep, Join(parts[1..], sep));
      SplitFree(parts[0], sep);
      SplitJoin(parts[1..], sep);
    }
  }

  lemma CrlfUnbordered()
    ensures Unbordered(CRLF)
  {
    assert CRLF[1..] == [LF];
    assert CRLF[..1] == [CR];
  }

  lemma SingleByteUnbordered(b: byte)
    ensures Unbordered([b])
  {
  }

  /** Piece i of a split, when there is one (JavaScript destructuring yields
      undefined past the end). */
  function Piece(parts: seq<seq<byte>>, i: nat): (r: Option<seq<byte>>)
  {
    if i < |parts| then Some(parts[i]) else None
  }

  // ---------------------------------------------------------------------
  // ASCII text
  // ---------------------------------------------------------------------

  /** The ASCII characters that String.trim removes. */
  predicate IsSpace(b: byte)
  {
    b == 9 || b == 10 || b == 11 || b == 12 || b == 13 || b == 32
  }

  function TrimStart(s: seq<byte>): (r: seq<byte>)
    ensures |r| <= |s|
  {
    if |s| > 0 && IsSpace(s[0]) then TrimStart(s[1..]) else s
  }

  function TrimEnd(s: seq<byte>): (r: seq<byte>)
    ensures |r| <= |s|
  {
    if |s| > 0 && IsSpace(s[|s| - 1]) then TrimEnd(s[..|s| - 1]) else s
  }

  /** TrimStart drops exactly the leading whitespace. */
  lemma {:induction false} TrimStartSpec(s: seq<byte>)
    ensures TrimStart(s) == s[|s| - |TrimStart(s)|..]
    ensures forall k :: 0 <= k < |s| - |TrimStart(s)| ==> IsSpace(s[k])
    ensures TrimStart(s) == [] || !IsSpace(TrimStart(s)[0])
  {
    if |s| > 0 && IsSpace(s[0]) {
      TrimStartSpec(s[1..]);
      assert s[1..][|s| - 1 - |TrimStart(s)|..] == s[|s| - |TrimStart(s)|..];
      forall k | 1 <= k < |s| - |TrimStart(s)|
        ensures IsSpace(s[k])
      {
        assert s[k] == s[1..][k - 1];
      }
    }
  }

  /** TrimEnd drops exactly the trailing whitespace. */
  lemma {:induction false} TrimEndSpec(s: seq<byte>)
    ensures TrimEnd(s) == s[..|TrimEnd(s)|]
    ensures forall k :: |TrimEnd(s)| <= k < |s| ==> IsSpace(s[k])
    ensures TrimEnd(s) == [] || !IsSpace(TrimEnd(s)[|TrimEnd(s)| - 1])
  {
    if |s| > 0 && IsSpace(s[|s| - 1]) {
      TrimEndSpec(s[..|s| - 1]);
      assert s[..|s| - 1][..|TrimEnd(s)|] == s[..|TrimEnd(s)|];
      forall k | |TrimEnd(s)| <= k < |s| - 1
        ensures IsSpace(s[k])
      {
        assert s[k] == s[..|s| - 1][k];
      }
    }
  }

  /** String.trim, for ASCII. */
  function Trim(s: seq<byte>): (r: seq<byte>)
  {
    TrimEnd(TrimStart(s))
  }

  /** Trim leaves alone what neither starts nor ends with whitespace. */
  lemma TrimKeeps(s: seq<byte>)
    requires s == [] || (!IsSpace(s[0]) && !IsSpace(s[|s| - 1]))
    ensures TrimStart(s) == s && Trim(s) == s
  {
  }

  /** r is s[lo..lo + |r|] and everything of s around it is whitespace. */
  ghost predicate TrimmedAt(s: seq<byte>, r: seq<byte>, lo: int)
  {
    && 0 <= lo && lo + |r| <= |s| && s[lo..lo + |r|] == r
    && (forall k :: 0 <= k < lo ==> IsSpace(s[k]))
    && (forall k :: lo + |r| <= k < |s| ==> IsSpace(s[k]))
  }

  /** Trim keeps a contiguous part of s, drops only whitespace around it,
      and leaves no whitespace at either end. */
  lemma TrimIsInfix(s: seq<byte>)
    ensures exists lo :: TrimmedAt(s, Trim(s), lo)
    ensures Trim(s) == [] || (!IsSpace(Trim(s)[0]) && !IsSpace(Trim(s)[|Trim(s)| - 1]))
  {
    var t := TrimStart(s);
    var r := TrimEnd(t);
    TrimStartSpec(s);
    TrimEndSpec(t);
    var lo := |s| - |t|;
    assert s[lo..lo + |r|] == t[..|r|];
    forall k | lo + |r| <= k < |s|
      ensures IsSpace(s[k])
    {
      assert s[k] == t[k - lo];
    }
    assert Trim(s) == r;
    assert TrimmedAt(s, r, lo);
  }

  /** ASCII case folding (toLocaleLowerCase on ASCII text). */
  function LowerByte(b: byte): (r: byte)
  {
    if 65 <= b <= 90 then b + 32 else b
  }

  function ToLower(s: seq<byte>): (r: seq<byte>)
    ensures |r| == |s|
  {
    seq(|s|, i requires 0 <= i < |s| => LowerByte(s[i]))
  }

  // ---------------------------------------------------------------------
  // Numerals
  // ---------------------------------------------------------------------

  predicate IsDigit(b: byte) { 48 <= b <= 57 }

  predicate AllDigits(s: seq<byte>) { forall i :: 0 <= i < |s| ==> IsDigit(s[i]) }

  /** The value of a string of decimal digits, most significant first. */
  function DigitsValue(s: seq<byte>): (r: nat)
    requires AllDigits(s)
  {
    if s == [] then 0 else 10 * DigitsValue(s[..|s| - 1]) + (s[|s| - 1] as int - 48)
  }

  /** A Content-Length value read as a decimal number: a non-empty string of
      digits, or nothing. */
  function ParseDecimal(s: seq<byte>): (r: Option<nat>)
    ensures r.Some? <==> s != [] && AllDigits(s)
  {
    if s != [] && AllDigits(s) then Some(DigitsValue(s)) else None
  }

  /** The decimal numeral of n (template-literal interpolation of a number). */
  function FormatDecimal(n: nat): (r: seq<byte>)
    ensures |r| >= 1
    decreases n
  {
    if n < 10 then [(48 + n) as byte] else FormatDecimal(n / 10) + [(48 + n % 10) as byte]
  }

  lemma {:induction false} DecimalRoundTrip(n: nat)
    ensures AllDigits(FormatDecimal(n))
    ensures ParseDecimal(FormatDecimal(n)) == Some(n)
    ensures |FormatDecimal(n)| > 1 ==> FormatDecimal(n)[0] != 48
    decreases n
  {
    var r := FormatDecimal(n);
    if n >= 10 {
      DecimalRoundTrip(n / 10);
      var hi := FormatDecimal(n / 10);
      assert r[..|r| - 1] == hi;
      assert r[0] == hi[0];
      assert DigitsValue(r) == 10 * DigitsValue(hi) + n % 10;
    } else {
      assert r[..0] == [];
      assert DigitsValue(r) == 10 * DigitsValue([]) + (r[0] as int - 48);
    }
  }

  predicate IsHexDigit(b: byte) { (48 <= b <= 57) || (97 <= b <= 102) }

  function HexDigit(d: nat): (b: byte)
    requires d < 16
    ensures IsHexDigit(b)
  {
    if d < 10 then (48 + d) as byte else (87 + d) as byte
  }

  function HexDigitValue(b: byte): (r: nat)
    requires IsHexDigit(b)
  {
    if b <= 57 then b as nat - 48 else b as nat - 87
  }

  /** Number.prototype.toString(16): lower-case hexadecimal, no leading zeros. */
  function FormatHex(n: nat): (r: seq<byte>)
    ensures |r| >= 1
    decreases n
  {
    if n < 16 then [HexDigit(n)] else FormatHex(n / 16) + [HexDigit(n % 16)]
  }

  function HexValue(s: seq<byte>): (r: nat)
    requires forall i :: 0 <= i < |s| ==> IsHexDigit(s[i])
  {
    if s == [] then 0 else 16 * HexValue(s[..|s| - 1]) + HexDigitValue(s[|s| - 1])
  }

  lemma {:induction false} HexRoundTrip(n: nat)
    ensures forall i :: 0 <= i < |FormatHex(n)| ==> IsHexDigit(FormatHex(n)[i])
    ensures HexValue(FormatHex(n)) == n
    ensures |FormatHex(n)| > 1 ==> FormatHex(n)[0] != 48
    decreases n
  {
    var r := FormatHex(n);
    if n >= 16 {
      HexRoundTrip(n / 16);
      var hi := FormatHex(n / 16);
      assert r[..|r| - 1] == hi;
      assert r[0] == hi[0];
    }
  }
}
