/**
 * The read side of a connection as the body reader uses it:
 * readTCPConn returns the chunks the peer sent, one per call, and an empty
 * chunk once the peer has ended the stream (src/tcp-conn.ts:16-32 models the
 * event-driven machinery behind it; see module TcpConn). Here the chunks are
 * supplied up front. Data events never carry an empty chunk, so an empty
 * read means end-of-stream, and it stays that way.
 */
module Incoming {
  import opened Bytes

  class ChunkSource {
    var pending: seq<seq<byte>>

    ghost predicate Valid()
      reads this
    {
      forall i :: 0 <= i < |pending| ==> pending[i] != []
    }

    /** Every byte still to be delivered, in order. */
    function Remaining(): (r: seq<byte>)
      reads this
    {
      Flatten(pending)
    }

    constructor (chunks: seq<seq<byte>>)
      requires forall i :: 0 <= i < |chunks| ==> chunks[i] != []
      ensures Valid() && pending == chunks
    {
      pending := chunks;
    }

    /** One read: the next chunk, or an empty chunk at end-of-stream. */
    method Read() returns (chunk: seq<byte>)
      requires Valid()
      modifies this
      ensures Valid()
      ensures old(pending) == [] ==> chunk == [] && pending == []
      ensures old(pending) != [] ==> chunk == old(pending)[0] && pending == old(pending)[1..]
      ensures chunk + Remaining() == old(Remaining())
      ensures chunk == [] <==> old(Remaining()) == []
    {
      if pending == [] {
        chunk := [];
      } else {
        chunk := pending[0];
        pending := pending[1..];
      }
    }
  }
}
