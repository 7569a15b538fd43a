/** The byte ring buffer of include/common/QueueLocalMemory.cpp: a bounded queue of bytes, in place. */
module RingQueue {
  import opened Common

  datatype QueueResult =
    | Success | CreateMemory | DidNotInitialize | NotEnoughFreeSpace | ReadBufferSizeIsBig | PopDataEmpty

  // ---------------------------------------------------------------- the ring on values

  /** Where the k-th stored byte lies. `head` may equal the size, and then stands for 0. */
  function Slot(head: nat, k: nat, size: nat): nat {
    if head + k < size then head + k else head + k - size
  }

  function TailOf(head: nat, used: nat, size: nat): nat {
    if head + used <= size then head + used else head + used - size
  }

  /** The `used` bytes from `head` on, around the end of the buffer. */
  ghost function Ring(buffer: seq<byte>, head: nat, used: nat): seq<byte>
    requires head <= |buffer| && used <= |buffer|
  {
    seq(used, k requires 0 <= k < used => buffer[Slot(head, k, |buffer|)])
  }

  /** Bytes written behind the stored ones extend the queue. */
  lemma WriteExtends(before: seq<byte>, after: seq<byte>, head: nat, used: nat, data: seq<byte>)
    requires |before| == |after| && head <= |before| && used + |data| <= |before|
    requires forall k | 0 <= k < used :: after[Slot(head, k, |before|)] == before[Slot(head, k, |before|)]
    requires forall k | 0 <= k < |data| :: after[Slot(head, used + k, |before|)] == data[k]
    ensures Ring(after, head, used + |data|) == Ring(before, head, used) + data
  {
    forall k | 0 <= k < used + |data|
      ensures Ring(after, head, used + |data|)[k] == (Ring(before, head, used) + data)[k]
    {
      if used <= k {
        assert after[Slot(head, used + (k - used), |before|)] == data[k - used];
      }
    }
  }

  /** Moving the head past n bytes drops them. */
  lemma AdvanceDrops(buffer: seq<byte>, head: nat, used: nat, n: nat)
    requires head <= |buffer| && n <= used < |buffer|
    ensures TailOf(head, n, |buffer|) <= |buffer|
    ensures Ring(buffer, TailOf(head, n, |buffer|), used - n) == Ring(buffer, head, used)[n..]
    ensures TailOf(TailOf(head, n, |buffer|), used - n, |buffer|) == TailOf(head, used, |buffer|)
  {
  }

  // ---------------------------------------------------------------- the object

  class QueueLocalMemory {
    var buffer: array?<byte>
    var tail: nat
    var head: nat
    var queueSize: nat
    var useSize: nat
    var popDataLen: nat

    ghost predicate Valid()
      reads this
    {
      buffer != null ==>
        && buffer.Length == queueSize && head <= queueSize && useSize < queueSize
        && tail == TailOf(head, useSize, queueSize) && popDataLen <= useSize
    }

    ghost function Contents(): seq<byte>
      requires Valid() && buffer != null
      reads this, buffer
    {
      Ring(buffer[..], head, useSize)
    }

    constructor ()
      ensures Valid() && buffer == null && tail == head == useSize == popDataLen == 0
    {
      buffer, tail, head, queueSize, useSize, popDataLen := null, 0, 0, 0, 0, 0;
    }

    /** The positions are not reset: only a queue that was never used starts out empty. */
    method Initialize(size: nat) returns (r: QueueResult)
      modifies this
      ensures r == if size == 0 then CreateMemory else Success
      ensures size == 0 ==> buffer == null
      ensures size > 0 ==> buffer != null && fresh(buffer) && queueSize == size
      ensures head == old(head) && tail == old(tail) && useSize == old(useSize) && popDataLen == old(popDataLen)
      ensures size > 0 && old(head == tail == useSize == popDataLen == 0) ==> Valid() && Contents() == []
    {
      Finalize();
      if size == 0 {
        return CreateMemory;
      }
      buffer, queueSize := new byte[size], size;
      r := Success;
    }

    method Finalize()
      modifies this`buffer
      ensures buffer == null
    {
      buffer := null;
    }

    method Push(data: seq<byte>) returns (r: QueueResult)
      requires Valid()
      modifies this`tail, this`useSize, buffer
      ensures Valid()
      ensures r == if buffer == null then DidNotInitialize
                   else if |data| > queueSize - 1 - old(useSize) then NotEnoughFreeSpace
                   else Success
      ensures buffer != null ==> Contents() == if r.Success? then old(Contents()) + data else old(Contents())
    {
      if buffer == null {
        return DidNotInitialize;
      }
      if |data| > queueSize - 1 - useSize {
        return NotEnoughFreeSpace;
      }
      ghost var before := buffer[..];
      var writeSize := queueSize - tail;
      if writeSize < |data| {
        forall i | 0 <= i < writeSize {
          buffer[tail + i] := data[i];
        }
        forall i | 0 <= i < |data| - writeSize {
          buffer[i] := data[writeSize + i];
        }
        tail := |data| - writeSize;
      } else {
        forall i | 0 <= i < |data| {
          buffer[tail + i] := data[i];
        }
        tail := tail + |data|;
      }
      WriteExtends(before, buffer[..], head, useSize, data);
      useSize := useSize + |data|;
      r := Success;
    }

    /** Copies the oldest bytes out without removing them, and remembers how many. */
    method Front(dst: array<byte>, n: nat) returns (r: QueueResult)
      requires Valid() && n <= dst.Length && dst != buffer
      modifies this`popDataLen, dst
      ensures Valid() && dst[n..] == old(dst[n..])
      ensures r == if buffer == null then DidNotInitialize else if useSize < n then ReadBufferSizeIsBig else Success
      ensures r.Success? ==> popDataLen == n && dst[..n] == Contents()[..n]
      ensures !r.Success? ==> popDataLen == old(popDataLen) && dst[..] == old(dst[..])
      ensures buffer != null ==> Contents() == old(Contents())
    {
      if buffer == null {
        return DidNotInitialize;
      }
      if useSize < n {
        return ReadBufferSizeIsBig;
      }
      var readSize := queueSize - head;
      if readSize < n {
        forall i | 0 <= i < readSize {
          dst[i] := buffer[head + i];
        }
        forall i | 0 <= i < n - readSize {
          dst[readSize + i] := buffer[i];
        }
      } else {
        forall i | 0 <= i < n {
          dst[i] := buffer[head + i];
        }
      }
      popDataLen := n;
      assert forall i :: 0 <= i < n ==> dst[i] == Contents()[i];
      r := Success;
    }

    /** Removes what the last Front copied. */
    method Pop() returns (r: QueueResult)
      requires Valid() && (buffer != null || popDataLen == 0)
      modifies this`head, this`useSize, this`popDataLen
      ensures Valid() && popDataLen == 0
      ensures r == if old(popDataLen) == 0 then PopDataEmpty else Success
      ensures buffer != null ==> Contents() == old(Contents())[old(popDataLen)..]
    {
      if popDataLen == 0 {
        return PopDataEmpty;
      }
      AdvanceDrops(buffer[..], head, useSize, popDataLen);
      var readSize := queueSize - head;
      if readSize < popDataLen {
        head := popDataLen - readSize;
      } else {
        head := head + popDataLen;
      }
      useSize := useSize - popDataLen;
      popDataLen := 0;
      r := Success;
    }
  }
}
