/**
 * Fixed-capacity FIFO queue over a circular buffer
 * (10_DataStructures/03_Queue/QueueImplementation.cpp).
 *
 * `head` is the slot of the oldest element, `tail` the next free slot and `count` the
 * number of elements; both indices advance modulo the capacity.
 */
module QueueImpl {

  /** Slot `i` places after `h` in a ring of `n` slots: `(h + i) % n` for `h < n` and `i <= n`. */
  function Slot(h: nat, i: nat, n: nat): (j: nat)
    requires h < n && i <= n
    ensures j < n
  {
    if h + i < n then h + i else h + i - n
  }

  lemma SlotIsMod(h: nat, i: nat, n: nat)
    requires h < n && i <= n
    ensures Slot(h, i, n) == (h + i) % n
  {
  }

  /** The `count` elements of buffer `s` starting at slot `head`, wrapping around the end. */
  function Ring(s: seq<int>, head: nat, count: nat): (r: seq<int>)
    requires count <= |s| && (|s| > 0 ==> head < |s|)
    ensures |r| == count
  {
    seq(count, i requires 0 <= i < count => s[Slot(head, i, |s|)])
  }

  /** Writing the slot just past the last element appends to the ring. */
  lemma RingWrite(s: seq<int>, head: nat, count: nat, v: int)
    requires count < |s| && head < |s|
    ensures Ring(s[Slot(head, count, |s|) := v], head, count + 1) == Ring(s, head, count) + [v]
  {
  }

  /** Advancing `head` by one slot drops the first element of the ring. */
  lemma RingAdvance(s: seq<int>, head: nat, count: nat)
    requires 0 < count <= |s| && head < |s|
    ensures Ring(s, Slot(head, 1, |s|), count - 1) == Ring(s, head, count)[1..]
  {
    var n := |s|;
    forall j | 1 <= j < count
      ensures Ring(s, Slot(head, 1, n), count - 1)[j - 1] == Ring(s, head, count)[j]
    {
    }
  }

  class Queue {
    var buf: array<int>
    var head: nat
    var tail: nat
    var count: nat

    /** `count <= capacity`, both indices are slots, and `tail == (head + count) % capacity`. */
    ghost predicate Valid()
      reads this
    {
      count <= buf.Length &&
      (buf.Length == 0 ==> head == 0 && tail == 0) &&
      (buf.Length > 0 ==> head < buf.Length && tail < buf.Length && tail == (head + count) % buf.Length)
    }

    /** The abstract value: the queued elements, oldest first. */
    ghost function Contents(): seq<int>
      reads this, buf
      requires Valid()
    {
      Ring(buf[..], head, count)
    }

    /** `Queue(capacity = 8)`: an empty queue over `capacity` slots. */
    constructor (capacity: nat := 8)
      ensures Valid() && fresh(buf) && buf.Length == capacity && Contents() == []
    {
      buf := new int[capacity];
      head, tail, count := 0, 0, 0;
    }

    /** `empty()`: `count == 0`, that is, no element is queued. */
    function Empty(): (b: bool)
      reads this, buf
      requires Valid()
      ensures b <==> Contents() == []
    {
      count == 0
    }

    /** `full()`: `count == buf.size()`, that is, every slot holds a queued element. */
    function Full(): (b: bool)
      reads this, buf
      requires Valid()
      ensures b <==> |Contents()| == buf.Length
    {
      count == buf.Length
    }

    /** `front()`: the oldest element; the source does not guard an empty queue. */
    function Front(): (x: int)
      reads this, buf
      requires Valid() && count > 0
      ensures x == Contents()[0]
    {
      assert Slot(head, 0, buf.Length) == head;
      buf[head]
    }

    /** `enqueue(v)`: appends `v`, or silently does nothing when the queue is full. */
    method Enqueue(v: int)
      requires Valid()
      modifies this, buf
      ensures Valid() && buf == old(buf)
      ensures Contents() == if old(count) == buf.Length then old(Contents()) else old(Contents()) + [v]
    {
      if Full() {
        return;
      }
      var n := buf.Length;
      assert tail == Slot(head, count, n) by { SlotIsMod(head, count, n); }
      RingWrite(buf[..], head, count, v);
      buf[tail] := v;
      ghost var t := tail;
      tail := (tail + 1) % n;
      count := count + 1;
      assert tail == (head + count) % n by {
        SlotIsMod(t, 1, n);
        SlotIsMod(head, count, n);
      }
    }

    /** `dequeue()`: drops the oldest element, or silently does nothing when the queue is empty. */
    method Dequeue()
      requires Valid()
      modifies this
      ensures Valid() && buf == old(buf)
      ensures Contents() == if old(count) == 0 then old(Contents()) else old(Contents())[1..]
    {
      if Empty() {
        return;
      }
      var n := buf.Length;
      RingAdvance(buf[..], head, count);
      ghost var h := head;
      head := (head + 1) % n;
      count := count - 1;
      assert head == Slot(h, 1, n) by { SlotIsMod(h, 1, n); }
      assert tail == (head + count) % n by {
        SlotIsMod(h, count + 1, n);
        SlotIsMod(head, count, n);
      }
    }
  }

  /** `main`: a queue of capacity 5; front is 1 after enqueuing 1, 2, 3 and 2 after one dequeue. */
  method Example() returns (front: int, frontAfterDequeue: int)
    ensures front == 1 && frontAfterDequeue == 2
  {
    var q := new Queue(5);
    q.Enqueue(1);
    q.Enqueue(2);
    q.Enqueue(3);
    assert q.Contents() == [1, 2, 3];
    front := q.Front();
    q.Dequeue();
    frontAfterDequeue := q.Front();
  }
}
