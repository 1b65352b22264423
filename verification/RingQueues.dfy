/** A bounded queue in a circular buffer. One slot always stays unused, so that a full
    queue and an empty one differ. */
module RingQueues {

  /** The position after i in a ring of n slots. */
  lemma WrapsAt(i: nat, n: nat)
    requires n > 0 && i <= n
    ensures i % n == if i == n then 0 else i
  {}

  class RingQueue<T(0)> {
    const cap: nat
    const storage: array<T>
    var head: nat
    var tail: nat
    // the object this queue belongs to
    ghost var owner: object?

    ghost predicate Valid()
      reads this
    {
      storage.Length == cap + 1 && head <= cap && tail <= cap
    }

    /** The queued elements, oldest first. */
    ghost function Contents(): (s: seq<T>)
      requires Valid()
      reads this, storage
      ensures |s| <= cap
    {
      if head <= tail then storage[head..tail] else storage[head..] + storage[..tail]
    }

    constructor (cap: nat)
      ensures Valid() && Contents() == [] && this.cap == cap
      ensures fresh(storage)
    {
      this.cap := cap;
      storage := new T[cap + 1];
      head, tail := 0, 0;
    }

    method Empty() returns (empty: bool)
      requires Valid()
      ensures empty <==> Contents() == []
    {
      empty := head == tail;
    }

    method Full() returns (full: bool)
      requires Valid()
      ensures full <==> |Contents()| == cap
    {
      WrapsAt(tail + 1, cap + 1);
      full := (tail + 1) % (cap + 1) == head;
    }

    method Size() returns (size: nat)
      requires Valid()
      ensures size == |Contents()|
    {
      if head <= tail {
        size := tail - head;
      } else {
        size := tail + cap + 1 - head;
      }
    }

    /** On an empty queue this is whatever the slot holds. */
    method Front() returns (x: T)
      requires Valid()
      ensures Contents() != [] ==> x == Contents()[0]
    {
      x := storage[head];
    }

    method Back() returns (x: T)
      requires Valid()
      ensures Contents() != [] ==> x == Contents()[|Contents()| - 1]
    {
      LastSlot(tail, cap);
      x := storage[(tail + cap) % (cap + 1)];
    }

    /** Dropping the front of an empty queue does nothing. */
    method Pop()
      requires Valid()
      modifies `head
      ensures Valid()
      ensures Contents() == if old(Contents()) == [] then [] else old(Contents())[1..]
    {
      if head != tail {
        WrapsAt(head + 1, cap + 1);
        head := (head + 1) % (cap + 1);
      }
    }

    /** 0 when stored, -1 when full. */
    method Push(x: T) returns (r: int)
      requires Valid()
      modifies `tail, storage
      ensures Valid()
      ensures r == if |old(Contents())| == cap then -1 else 0
      ensures Contents() == if |old(Contents())| == cap then old(Contents()) else old(Contents()) + [x]
    {
      var full := Full();
      if !full {
        WrapsAt(tail + 1, cap + 1);
        storage[tail] := x;
        tail := (tail + 1) % (cap + 1);
        return 0;
      } else {
        return -1;
      }
    }

    method Clear()
      requires Valid()
      modifies `head, `tail
      ensures Valid() && Contents() == []
    {
      head := 0;
      tail := 0;
    }
  }

  lemma LastSlot(tail: nat, cap: nat)
    requires tail <= cap
    ensures (tail + cap) % (cap + 1) == if tail == 0 then cap else tail - 1
  {
    if tail > 0 {
      assert tail + cap == 1 * (cap + 1) + (tail - 1);
    }
  }
}
