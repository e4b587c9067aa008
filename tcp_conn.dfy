/**
 * The promise-based connection wrapper of src/tcp-conn.ts as a state
 * machine. A read's promise is named by the number of reads issued before
 * it; `settled` records how each promise was settled. The socket's
 * pause/resume state is `flowing` and the bytes handed to socket.write are
 * `written`; the socket itself is not modelled. The server accepts
 * connections paused, so a new connection is not flowing.
 */
module TcpConn {
  import opened Bytes

  /** A transport error reported by the socket (its details are opaque). */
  datatype TransportError = TransportError(code: nat)

  datatype Settlement = Resolved(data: seq<byte>) | Rejected(err: TransportError)

  /** What a call to readTCPConn does: trip the assertion, or issue the
      read with the given promise id. */
  datatype ReadCall = AssertionFailed | Issued(id: nat)

  datatype WriteOutcome = WriteResolved | WriteRejected(err: TransportError)

  /** A promise, once settled, stays settled the same way. */
  ghost predicate Extends(before: map<nat, Settlement>, after: map<nat, Settlement>)
  {
    forall id :: id in before ==> id in after && after[id] == before[id]
  }

  class TCPConn {
    var reader: Option<nat>
    var err: Option<TransportError>
    var ended: bool
    var flowing: bool
    var issued: nat
    var settled: map<nat, Settlement>
    var written: seq<seq<byte>>

    /** At most one read is pending, and only while no error or end is
        latched; every issued read is pending or settled, never both; a
        flowing socket with nothing latched always has a reader waiting. */
    ghost predicate Valid()
      reads this
    {
      && (forall id :: id in settled ==> id < issued)
      && (forall id :: 0 <= id < issued ==> (id in settled <==> reader != Some(id)))
      && (reader.Some? ==> reader.value < issued && err.None? && !ended)
      && (flowing && err.None? && !ended ==> reader.Some?)
    }

    /** initTCPConn: nothing pending, nothing latched, socket paused. */
    constructor ()
      ensures Valid()
      ensures reader.None? && err.None? && !ended && !flowing
      ensures issued == 0 && settled == map[] && written == []
    {
      reader := None;
      err := None;
      ended := false;
      flowing := false;
      issued := 0;
      settled := map[];
      written := [];
    }

    /** readTCPConn. A second read while one is pending trips the assertion
        and changes nothing. Otherwise the read is rejected at once with a
        latched error, else resolved at once with empty data after the end,
        else registered as the pending reader with the socket resumed. */
    method ReadTCPConn() returns (call: ReadCall)
      requires Valid()
      modifies this
      ensures Valid()
      ensures Extends(old(settled), settled)
      ensures old(reader).Some? ==> call == AssertionFailed && unchanged(this)
      ensures old(reader).None? ==> call == Issued(old(issued)) && issued == old(issued) + 1
      ensures old(reader).None? && old(err).Some? ==>
        && settled == old(settled)[old(issued) := Rejected(old(err).value)]
        && reader.None? && flowing == old(flowing)
      ensures old(reader).None? && old(err).None? && old(ended) ==>
        && settled == old(settled)[old(issued) := Resolved([])]
        && reader.None? && flowing == old(flowing)
      ensures old(reader).None? && old(err).None? && !old(ended) ==>
        && settled == old(settled) && reader == Some(old(issued)) && flowing
      ensures err == old(err) && ended == old(ended) && written == old(written)
    {
      if reader.Some? {
        return AssertionFailed;
      }
      var id := issued;
      issued := issued + 1;
      call := Issued(id);
      if err.Some? {
        settled := settled[id := Rejected(err.value)];
        return;
      }
      if ended {
        settled := settled[id := Resolved([])];
        return;
      }
      reader := Some(id);
      flowing := true;
    }

    /** writeTCPConn. A latched error rejects the write without handing
        anything to the socket; otherwise the data is written and the
        outcome is the socket's completion, given here as `failure`. */
    method WriteTCPConn(data: seq<byte>, failure: Option<TransportError>) returns (outcome: WriteOutcome)
      requires Valid()
      modifies this
      ensures Valid()
      ensures Extends(old(settled), settled)
      ensures old(err).Some? ==> outcome == WriteRejected(old(err).value) && written == old(written)
      ensures old(err).None? ==> written == old(written) + [data]
      ensures old(err).None? ==>
        outcome == (if failure.Some? then WriteRejected(failure.value) else WriteResolved)
      ensures reader == old(reader) && err == old(err) && ended == old(ended) && flowing == old(flowing)
      ensures issued == old(issued) && settled == old(settled)
    {
      if err.Some? {
        return WriteRejected(err.value);
      }
      written := written + [data];
      outcome := if failure.Some? then WriteRejected(failure.value) else WriteResolved;
    }

    /** The `data` handler. Without a pending reader the assertion trips
        (ok is false) and nothing changes; that cannot happen while the
        socket flows with nothing latched. Otherwise the socket pauses and
        the pending read resolves with the data. */
    method OnData(data: seq<byte>) returns (ok: bool)
      requires Valid()
      modifies this
      ensures Valid()
      ensures Extends(old(settled), settled)
      ensures ok <==> old(reader).Some?
      ensures old(flowing) && old(err).None? && !old(ended) ==> ok
      ensures !ok ==> unchanged(this)
      ensures ok ==> settled == old(settled)[old(reader).value := Resolved(data)] && !flowing
      ensures reader.None?
      ensures err == old(err) && ended == old(ended) && issued == old(issued) && written == old(written)
    {
      if reader.None? {
        return false;
      }
      flowing := false;
      settled := settled[reader.value := Resolved(data)];
      reader := None;
      ok := true;
    }

    /** The `error` handler: latch the error (a later one replaces it) and
        reject the pending read, if any. */
    method OnError(e: TransportError)
      requires Valid()
      modifies this
      ensures Valid()
      ensures Extends(old(settled), settled)
      ensures err == Some(e) && reader.None?
      ensures old(reader).Some? ==> settled == old(settled)[old(reader).value := Rejected(e)]
      ensures old(reader).None? ==> settled == old(settled)
      ensures ended == old(ended) && flowing == old(flowing) && issued == old(issued) && written == old(written)
    {
      err := Some(e);
      if reader.Some? {
        settled := settled[reader.value := Rejected(e)];
        reader := None;
      }
    }

    /** The `end` handler: latch the end and resolve the pending read, if
        any, with empty data. */
    method OnEnd()
      requires Valid()
      modifies this
      ensures Valid()
      ensures Extends(old(settled), settled)
      ensures ended && reader.None?
      ensures old(reader).Some? ==> settled == old(settled)[old(reader).value := Resolved([])]
      ensures old(reader).None? ==> settled == old(settled)
      ensures err == old(err) && flowing == old(flowing) && issued == old(issued) && written == old(written)
    {
      ended := true;
      if reader.Some? {
        settled := settled[reader.value := Resolved([])];
        reader := None;
      }
    }
  }

  /** A read on a fresh connection followed by a data event: the read is
      pending until the event, which resolves it with the data and pauses
      the socket. */
  method ReadThenData(data: seq<byte>) returns (conn: TCPConn, ok: bool)
    ensures conn.Valid() && ok
    ensures conn.settled == map[0 := Resolved(data)] && conn.reader.None? && !conn.flowing
  {
    conn := new TCPConn();
    var call := conn.ReadTCPConn();
    assert conn.reader == Some(0);
    ok := conn.OnData(data);
  }

  /** When both an error and the end are latched, a read is rejected with
      the error: the error check comes first. */
  method ErrorWinsOverEnd(e: TransportError) returns (conn: TCPConn, call: ReadCall)
    ensures conn.Valid() && call == Issued(0)
    ensures conn.settled == map[0 := Rejected(e)] && conn.reader.None?
  {
    conn := new TCPConn();
    conn.OnEnd();
    conn.OnError(e);
    call := conn.ReadTCPConn();
  }

  /** A read after the end resolves at once with empty data, registers no
      reader and leaves the socket paused. */
  method ReadAfterEnd() returns (conn: TCPConn, call: ReadCall)
    ensures conn.Valid() && call == Issued(0)
    ensures conn.settled == map[0 := Resolved([])] && conn.reader.None? && !conn.flowing
  {
    conn := new TCPConn();
    conn.OnEnd();
    call := conn.ReadTCPConn();
  }
}
