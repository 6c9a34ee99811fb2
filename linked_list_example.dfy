/**
 * The minimal singly linked list of 10_DataStructures/01_LinkedList/LinkedListExample.cpp:
 * a raw `head` pointer, `push` at the front, `print`, and a destructor that deletes the
 * nodes one by one. The ghost sequence `spine` lists the nodes from the head.
 */
module LinkedListExample {

  class Node {
    const data: int
    var next: Node?

    constructor (d: int)
      ensures data == d && next == null
    {
      data := d;
      next := null;
    }
  }

  /** The data of a run of nodes, in order. */
  function Data(ns: seq<Node>): (r: seq<int>)
    ensures |r| == |ns| && forall i :: 0 <= i < |ns| ==> r[i] == ns[i].data
  {
    if ns == [] then [] else [ns[0].data] + Data(ns[1..])
  }

  class LinkedList {
    var head: Node?
    ghost var spine: seq<Node>

    /** `head` is the first node and each node points at the next; the last at null. */
    ghost predicate Valid()
      reads this, spine
    {
      (head == if spine == [] then null else spine[0]) &&
      (forall i :: 0 <= i < |spine| ==> LinkOk(i))
    }

    ghost predicate LinkOk(i: nat)
      reads this, spine
      requires i < |spine|
    {
      spine[i].next == if i + 1 < |spine| then spine[i + 1] else null
    }

    /** The abstract value: the data from the head on. */
    ghost function Contents(): seq<int>
      reads this
    {
      Data(spine)
    }

    /** `LinkedList() : head(nullptr)`. */
    constructor ()
      ensures Valid() && Contents() == []
    {
      head := null;
      spine := [];
    }

    /** `push(data)`: a new node in front of the old head. */
    method Push(data: int)
      requires Valid()
      modifies this
      ensures Valid() && Contents() == [data] + old(Contents())
      ensures fresh(head) && spine == [head] + old(spine)
    {
      var n := new Node(data);
      n.next := head;
      head := n;
      spine := [n] + spine;
      forall i | 0 <= i < |spine|
        ensures LinkOk(i)
      {
        if i > 0 {
          assert old(LinkOk(i - 1));
          assert spine[i] == old(spine[i - 1]) && spine[i] != n;
        }
      }
    }

    /** `print()`: the data met walking from `head` along `next`. */
    method Print() returns (out: seq<int>)
      requires Valid()
      ensures out == Contents()
    {
      out := [];
      var curr := head;
      ghost var i := 0;
      while curr != null
        invariant 0 <= i <= |spine|
        invariant curr == if i < |spine| then spine[i] else null
        invariant out == Contents()[..i]
        decreases |spine| - i
      {
        assert LinkOk(i);
        out := out + [curr.data];
        curr := curr.next;
        i := i + 1;
      }
    }

    /**
     * `~LinkedList()`: advances `head` past each node in turn, deleting it; every node is
     * released exactly once and the list ends empty.
     */
    method Destroy() returns (deleted: nat)
      requires Valid()
      modifies this
      ensures Valid() && Contents() == [] && head == null
      ensures deleted == old(|Contents()|)
    {
      deleted := 0;
      while head != null
        invariant Valid() && deleted + |spine| == old(|spine|)
        decreases |spine|
      {
        assert LinkOk(0);
        label Before:
        head := head.next;
        spine := spine[1..];
        forall i | 0 <= i < |spine| ensures LinkOk(i) {
          assert old@Before(LinkOk(i + 1));
        }
        deleted := deleted + 1;
      }
    }
  }

  /** `main`: pushing 3, 2, 1 prints 1 2 3. */
  method Example() returns (out: seq<int>)
    ensures out == [1, 2, 3]
  {
    var list := new LinkedList();
    list.Push(3);
    list.Push(2);
    list.Push(1);
    out := list.Print();
  }
}
