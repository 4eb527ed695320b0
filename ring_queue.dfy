/**
 * The fixed-capacity ring buffer of Graph/comp_conex.c and
 * Graph/top_sort_kahn.c (`queue_t`). Elements sit in `buff` from
 * `readIdx` on, wrapping around modulo `maxSize`; an enqueue on a full
 * queue is refused rather than overwriting the oldest element.
 */
module RingQueues {
  import opened Options

  /** A slot index that has run at most one lap past the end of the buffer. */
  function Wrap(j: nat, m: nat): (r: nat)
    requires 0 < m && j < 2 * m
    ensures r < m
    ensures r == j % m
  {
    if j < m then j else j - m
  }

  class Queue<T(0)> {
    var maxSize: nat
    var size: nat
    var readIdx: nat
    var writeIdx: nat
    var buff: array<T>
    /** The queued elements, oldest first. */
    ghost var Contents: seq<T>

    ghost predicate Valid()
      reads this, buff
    {
      && buff.Length == maxSize
      && size <= maxSize
      && |Contents| == size
      && (maxSize == 0 ==> readIdx == 0 && writeIdx == 0)
      && (maxSize > 0 ==>
            && readIdx < maxSize
            && writeIdx < maxSize
            && writeIdx == Wrap(readIdx + size, maxSize)
            && (forall i :: 0 <= i < size ==> Contents[i] == buff[Wrap(readIdx + i, maxSize)]))
    }

    /** q_create: an empty queue with room for `maxSize` elements. */
    constructor (maxSize: nat)
      ensures Valid() && fresh(buff)
      ensures this.maxSize == maxSize && Contents == []
      ensures readIdx == 0 && writeIdx == 0
    {
      this.maxSize := maxSize;
      size := 0;
      readIdx := 0;
      writeIdx := 0;
      buff := new T[maxSize];
      Contents := [];
    }

    /** q_get_size */
    function GetSize(): (r: nat)
      reads this, buff
      requires Valid()
      ensures r == |Contents|
    {
      size
    }

    /** q_is_empty */
    function IsEmpty(): (r: bool)
      reads this, buff
      requires Valid()
      ensures r <==> Contents == []
    {
      size == 0
    }

    /** q_front: the oldest element, or NULL for an empty queue. */
    function Front(): (r: Option<T>)
      reads this, buff
      requires Valid()
      ensures r == None <==> Contents == []
      ensures r.Some? ==> r.value == Contents[0]
    {
      if size == 0 then None else Some(buff[readIdx])
    }

    /**
     * q_dequeue: refused (false) on an empty queue; otherwise the read
     * index moves on by one slot and the oldest element leaves.
     */
    method Dequeue() returns (ok: bool)
      requires Valid()
      modifies this
      ensures Valid() && buff == old(buff) && maxSize == old(maxSize)
      ensures ok <==> old(Contents) != []
      ensures !ok ==> Contents == old(Contents) && readIdx == old(readIdx) && writeIdx == old(writeIdx)
      ensures ok ==> Contents == old(Contents)[1..]
      ensures ok ==> readIdx == (old(readIdx) + 1) % maxSize && writeIdx == old(writeIdx)
    {
      if size == 0 {
        return false;
      }
      var next := (readIdx + 1) % maxSize;
      assert next == Wrap(readIdx + 1, maxSize);
      readIdx := next;
      size := size - 1;
      Contents := Contents[1..];
      ok := true;
    }

    /**
     * q_enqueue: refused (false) on a full queue; otherwise `x` is stored
     * in slot `writeIdx`, which moves on by one slot.
     */
    method Enqueue(x: T) returns (ok: bool)
      requires Valid()
      modifies this, buff
      ensures Valid() && buff == old(buff) && maxSize == old(maxSize)
      ensures ok <==> old(|Contents|) < maxSize
      ensures !ok ==> Contents == old(Contents) && unchanged(buff)
      ensures !ok ==> readIdx == old(readIdx) && writeIdx == old(writeIdx)
      ensures ok ==> Contents == old(Contents) + [x]
      ensures ok ==> writeIdx == (old(writeIdx) + 1) % maxSize && readIdx == old(readIdx)
      ensures ok ==> buff[old(writeIdx)] == x
      ensures forall i :: 0 <= i < buff.Length && i != old(writeIdx) ==> buff[i] == old(buff[i])
    {
      if size == maxSize {
        return false;
      }
      var next := (writeIdx + 1) % maxSize;
      assert next == Wrap(writeIdx + 1, maxSize);
      assert Wrap(readIdx + size, maxSize) == writeIdx;
      buff[writeIdx] := x;
      writeIdx := next;
      size := size + 1;
      Contents := Contents + [x];
      ok := true;
    }

    /**
     * q_clear: an empty queue is left as it is (its indices stay where they
     * were); otherwise both indices and the size go back to 0.
     */
    method Clear()
      requires Valid()
      modifies this
      ensures Valid() && buff == old(buff) && maxSize == old(maxSize)
      ensures Contents == []
      ensures old(size) == 0 ==> readIdx == old(readIdx) && writeIdx == old(writeIdx)
      ensures old(size) != 0 ==> readIdx == 0 && writeIdx == 0
    {
      if size == 0 {
        return;
      }
      readIdx := 0;
      writeIdx := 0;
      size := 0;
      Contents := [];
    }
  }
}
