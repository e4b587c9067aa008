/**
 * The growable byte buffer of src/dynamic-buffer.ts: a byte array whose
 * first `len` bytes are the unconsumed data. Appending at the tail grows the
 * array by doubling from a floor of MIN_CAPACITY; consuming from the head
 * copies a prefix out and shifts the rest of the array down to offset 0.
 */
module DynBuf {
  import opened Bytes

  const MIN_CAPACITY: nat := 32

  datatype BufferError = UnshiftTooLarge

  function Pow2(k: nat): (r: nat)
    ensures r >= 1
  {
    if k == 0 then 1 else 2 * Pow2(k - 1)
  }

  /** The capacity that the doubling loop of increaseCapacity reaches from
      start; the loop stops because start is positive. */
  function GrownCapacity(start: nat, atLeast: nat): (c: nat)
    requires start > 0
    ensures c >= start && c >= atLeast
    decreases atLeast - start
  {
    if start >= atLeast then start else GrownCapacity(2 * start, atLeast)
  }

  /** The number of doublings that loop performs. */
  function DoublingSteps(start: nat, atLeast: nat): (k: nat)
    requires start > 0
    decreases atLeast - start
  {
    if start >= atLeast then 0 else 1 + DoublingSteps(2 * start, atLeast)
  }

  /** c is start doubled k times, where k is the least number of doublings
      that reaches atLeast. */
  ghost predicate SmallestDoubling(start: nat, atLeast: nat, c: nat, k: nat)
  {
    && c == start * Pow2(k) && c >= atLeast
    && forall j :: 0 <= j < k ==> start * Pow2(j) < atLeast
  }

  lemma Pow2Shift(start: nat, j: nat)
    ensures (2 * start) * Pow2(j) == start * Pow2(j + 1)
  {
  }

  /** The grown capacity is the smallest start * 2^k that holds atLeast bytes. */
  lemma {:induction false} GrownCapacityIsSmallestDoubling(start: nat, atLeast: nat)
    requires start > 0
    ensures SmallestDoubling(start, atLeast, GrownCapacity(start, atLeast), DoublingSteps(start, atLeast))
    decreases atLeast - start
  {
    if start < atLeast {
      GrownCapacityIsSmallestDoubling(2 * start, atLeast);
      var k := DoublingSteps(2 * start, atLeast);
      Pow2Shift(start, k);
      forall j | 0 <= j < k + 1
        ensures start * Pow2(j) < atLeast
      {
        if j > 0 {
          Pow2Shift(start, j - 1);
        }
      }
    }
  }

  /** Only one capacity fits that description. */
  lemma SmallestDoublingUnique(start: nat, atLeast: nat, c1: nat, k1: nat, c2: nat, k2: nat)
    requires SmallestDoubling(start, atLeast, c1, k1)
    requires SmallestDoubling(start, atLeast, c2, k2)
    ensures c1 == c2 && k1 == k2
  {
    assert k1 < k2 ==> start * Pow2(k1) < atLeast;
    assert k2 < k1 ==> start * Pow2(k2) < atLeast;
  }

  /** The buffer of dynamic-buffer.test.ts:11-20: 88 bytes pushed onto a
      fresh 32-byte buffer make it grow to 128. */
  lemma GrowthFromDefault()
    ensures GrownCapacity(Max(MIN_CAPACITY, MIN_CAPACITY), 88) == 128
  {
  }

  class DynamicBuffer {
    var data: array<byte>
    var len: nat

    /** The valid bytes lie in data[0:len]. */
    ghost predicate Valid()
      reads this
    {
      len <= data.Length
    }

    /** The unconsumed bytes. */
    function Contents(): (r: seq<byte>)
      reads this, data
      requires Valid()
    {
      data[..len]
    }

    /** getCapacity */
    function Capacity(): (c: nat)
      reads this
      ensures Valid() ==> len <= c
    {
      data.Length
    }

    /** createDynamicBuffer: an empty buffer over a zero-filled array. */
    constructor (capacity: nat := MIN_CAPACITY)
      ensures Valid() && fresh(data)
      ensures len == 0 && Capacity() == capacity
      ensures data[..] == seq(capacity, _ => 0)
    {
      data := new byte[capacity](_ => 0);
      len := 0;
    }

    /** increaseCapacity: double from max(capacity, MIN_CAPACITY) until
        atLeast bytes fit, then move the whole old array into a zero-filled
        array of that size. */
    method IncreaseCapacity(atLeast: nat) returns (capacity: nat)
      requires Valid()
      modifies this
      ensures Valid() && fresh(data) && len == old(len)
      ensures capacity == Capacity() == GrownCapacity(Max(old(data.Length), MIN_CAPACITY), atLeast)
      ensures capacity >= atLeast && capacity >= old(data.Length)
      ensures data[..old(data.Length)] == old(data[..])
      ensures forall i :: old(data.Length) <= i < capacity ==> data[i] == 0
    {
      var start := Max(data.Length, MIN_CAPACITY);
      capacity := start;
      while capacity < atLeast
        invariant capacity >= start > 0
        invariant GrownCapacity(capacity, atLeast) == GrownCapacity(start, atLeast)
        decreases atLeast - capacity
      {
        capacity := capacity * 2;
      }
      var grown := new byte[capacity](_ => 0);
      forall i | 0 <= i < data.Length {
        grown[i] := data[i];
      }
      data := grown;
    }

    /** pushData: append newData at the tail, growing the array first only
        when the new length exceeds the capacity. */
    method PushData(newData: seq<byte>)
      requires Valid()
      modifies this, data
      ensures Valid()
      ensures len == old(len) + |newData|
      ensures Contents() == old(Contents()) + newData
      ensures Capacity() >= old(Capacity())
      ensures old(len) + |newData| <= old(Capacity()) ==>
        && data == old(data)
        && data[..] == old(data[..len]) + newData + old(data[len + |newData|..])
      ensures old(len) + |newData| > old(Capacity()) ==>
        && fresh(data)
        && Capacity() == GrownCapacity(Max(old(Capacity()), MIN_CAPACITY), len)
        && data[..] == old(data[..len]) + newData + seq(Capacity() - len, _ => 0)
    {
      var newLen := len + |newData|;
      if newLen > Capacity() {
        var _ := IncreaseCapacity(newLen);
      }
      ghost var before := data[..];
      forall i | 0 <= i < |newData| {
        data[len + i] := newData[i];
      }
      assert data[..] == before[..len] + newData + before[newLen..];
      len := newLen;
    }

    /** unshiftData: take n bytes off the head. More than len is refused and
        nothing changes; otherwise the prefix comes back and the rest of
        the array (copyWithin(0, n)) moves down to offset 0. */
    method UnshiftData(n: nat) returns (r: Result<seq<byte>, BufferError>)
      requires Valid()
      modifies this, data
      ensures Valid() && data == old(data)
      ensures n > old(len) ==> r == Err(UnshiftTooLarge) && len == old(len) && data[..] == old(data[..])
      ensures n <= old(len) ==>
        && r == Ok(old(Contents())[..n])
        && len == old(len) - n
        && Contents() == old(Contents())[n..]
        && data[..] == old(data[n..]) + old(data[data.Length - n..])
    {
      if n > len {
        return Err(UnshiftTooLarge);
      }
      var unshifted := data[..n];
      assert unshifted == old(Contents())[..n];
      var i := 0;
      while i < data.Length - n
        modifies data
        invariant 0 <= i <= data.Length - n
        invariant forall k :: 0 <= k < i ==> data[k] == old(data[k + n])
        invariant forall k :: i <= k < data.Length ==> data[k] == old(data[k])
      {
        data[i] := data[i + n];
        i := i + 1;
      }
      assert data[..] == old(data[n..]) + old(data[data.Length - n..]);
      len := len - n;
      r := Ok(unshifted);
    }
  }

  /** Pushing B onto an empty buffer and unshifting |B| bytes gives back B
      and leaves the buffer empty. */
  method PushUnshiftRoundTrip(buf: DynamicBuffer, b: seq<byte>) returns (r: Result<seq<byte>, BufferError>)
    requires buf.Valid() && buf.len == 0
    modifies buf, buf.data
    ensures r == Ok(b) && buf.Valid() && buf.len == 0
  {
    assert buf.Contents() == [];
    buf.PushData(b);
    assert buf.Contents() == b;
    r := buf.UnshiftData(|b|);
    assert r.value == b[..|b|] == b;
  }
}
