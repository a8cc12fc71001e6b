/** The driver's circular message queue. */
module MsgQueue {
  import opened Bytes

  datatype Msg = Msg(low: byte, high: byte)

  /** Where the i-th queued message lives, for a head in range. */
  function Slot(head: nat, i: nat, capacity: nat): nat {
    var k := head + 1 + i;
    if k < capacity then k else k - capacity
  }

  /** The next position round the circle. */
  function Following(k: nat, capacity: nat): nat {
    if k + 1 == capacity then 0 else k + 1
  }

  lemma FollowingIsMod(k: nat, capacity: nat)
    requires k < capacity
    ensures (k + 1) % capacity == Following(k, capacity)
  {
    if k + 1 == capacity {
      ModUnique(k + 1, capacity, 1, 0);
    } else {
      ModUnique(k + 1, capacity, 0, k + 1);
    }
  }

  /** The head position after t dequeues. */
  function HeadAfter(t: nat, capacity: nat): (k: nat)
    requires capacity > 0
    ensures k < capacity
  {
    if t == 0 then 0 else Following(HeadAfter(t - 1, capacity), capacity)
  }

  lemma {:induction false} HeadAfterIsMod(t: nat, capacity: nat) returns (q: nat)
    requires capacity > 0
    ensures t == q * capacity + HeadAfter(t, capacity) && t % capacity == HeadAfter(t, capacity)
  {
    q := 0;
    if t > 0 {
      q := HeadAfterIsMod(t - 1, capacity);
      if HeadAfter(t - 1, capacity) + 1 == capacity {
        assert (q + 1) * capacity == q * capacity + capacity;
        q := q + 1;
      }
    }
    ModUnique(t, capacity, q, HeadAfter(t, capacity));
  }

  /** The t-th dequeue, counting from 0, reads past the last position. */
  predicate ReadsPast(t: nat, capacity: nat)
    requires capacity > 0
  {
    HeadAfter(t, capacity) + 1 == capacity
  }

  /** That is every capacity-th dequeue. */
  lemma ReadsPastExactly(t: nat, capacity: nat)
    requires capacity > 0
    ensures ReadsPast(t, capacity) <==> (t + 1) % capacity == 0
  {
    var q := HeadAfterIsMod(t + 1, capacity);
  }

  class Queue {
    const capacity: nat
    const msgs: array<Msg>
    var headIdx: nat
    var tailIdx: nat
    var size: nat
    ghost var taken: nat // messages dequeued so far

    ghost predicate Valid()
      reads this
    {
      && capacity <= msgs.Length
      && size <= capacity
      && (capacity > 0 ==>
            && headIdx == HeadAfter(taken, capacity)
            && tailIdx < capacity
            && tailIdx == if headIdx + size < capacity then headIdx + size else headIdx + size - capacity)
    }

    /** The queued messages, oldest first. */
    ghost function Contents(): (r: seq<Msg>)
      reads this, msgs
      requires Valid()
      ensures |r| == size
    {
      seq(size, i requires 0 <= i < size && Valid() reads this, msgs => msgs[Slot(headIdx, i, capacity)])
    }

    /** The array has its own length, whatever the capacity: the queue is usable exactly when it fits the array. */
    constructor (capacity: nat, slots: nat)
      ensures Valid() <==> capacity <= slots
      ensures fresh(msgs) && this.capacity == capacity && msgs.Length == slots && size == 0 && taken == 0
    {
      this.capacity := capacity;
      headIdx, tailIdx, size, taken := 0, 0, 0, 0;
      msgs := new Msg[slots](_ => Msg(0, 0));
    }

    method IsFull() returns (full: bool)
      requires Valid()
      ensures full == (|Contents()| == capacity)
    {
      full := size == capacity;
    }

    method Enqueue(m: Msg) returns (r: int)
      requires Valid()
      modifies this`tailIdx, this`size, msgs
      ensures Valid() && taken == old(taken)
      ensures if |old(Contents())| == capacity then r == -1 && Contents() == old(Contents())
              else r == size && Contents() == old(Contents()) + [m]
      ensures msgs[capacity..] == old(msgs[capacity..])
    {
      if size == capacity {
        return -1;
      }
      FollowingIsMod(tailIdx, capacity);
      tailIdx := (tailIdx + 1) % capacity;
      assert tailIdx == Slot(headIdx, size, capacity);
      msgs[tailIdx] := m;
      size := size + 1;
      assert Contents()[..size - 1] == old(Contents());
      return size;
    }

    /** Reads the entry after head_idx without wrapping, then moves head_idx. When head_idx is the last position the
        entry read lies past the queue: in the array's unused part, or past the array, where it is whatever `beyond`
        is. */
    method Dequeue(beyond: Msg) returns (r: int, m: Msg)
      requires Valid()
      modifies this`headIdx, this`size, this`taken
      ensures Valid()
      ensures |old(Contents())| == 0 ==> r == -1 && taken == old(taken) && Contents() == old(Contents())
      ensures |old(Contents())| > 0 ==>
                && r == size && taken == old(taken) + 1 && Contents() == old(Contents())[1..]
                && m == if !ReadsPast(old(taken), capacity) then old(Contents())[0]
                        else if capacity < msgs.Length then msgs[capacity] else beyond
    {
      m := beyond;
      if size == 0 {
        return -1, m;
      }
      FollowingIsMod(headIdx, capacity);
      if headIdx + 1 < msgs.Length {
        m := msgs[headIdx + 1];
      }
      headIdx := (headIdx + 1) % capacity;
      size := size - 1;
      taken := taken + 1;
      assert forall i :: 0 <= i < size ==> Slot(headIdx, i, capacity) == Slot(old(headIdx), i + 1, capacity);
      assert Contents() == old(Contents())[1..];
      return size, m;
    }
  }
}
