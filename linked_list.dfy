/**
 * Singly linked list with a head and a tail pointer
 * (10_DataStructures/01_LinkedList/LinkedListImplementation.cpp).
 *
 * The ghost sequence `spine` lists the nodes from head to tail; the list's value is the
 * sequence of their values. Ownership by `unique_ptr` becomes the requirement that the
 * spine holds distinct nodes linked in order.
 */
module LinkedListImpl {

  /** A node's value is fixed at construction; only its `next` link changes. */
  class Node {
    const value: int
    var next: Node?

    constructor (v: int)
      ensures value == v && next == null
    {
      value := v;
      next := null;
    }
  }

  /** The values of a run of nodes, in order. */
  function Values(ns: seq<Node>): (r: seq<int>)
    ensures |r| == |ns| && forall i :: 0 <= i < |ns| ==> r[i] == ns[i].value
  {
    if ns == [] then [] else [ns[0].value] + Values(ns[1..])
  }

  /** `s` without its first occurrence of `v` (all of `s` when there is none). */
  function RemoveFirst(s: seq<int>, v: int): seq<int>
  {
    if s == [] then []
    else if s[0] == v then s[1..]
    else [s[0]] + RemoveFirst(s[1..], v)
  }

  /** Removing the first occurrence at `i` splices `s` around index `i`. */
  lemma {:induction false} RemoveFirstAt(s: seq<int>, v: int, i: nat)
    requires i < |s| && s[i] == v && v !in s[..i]
    ensures RemoveFirst(s, v) == s[..i] + s[i + 1..]
  {
    if i > 0 {
      assert s[1..][..i - 1] == s[..i][1..];
      RemoveFirstAt(s[1..], v, i - 1);
      assert s[1..][i..] == s[i + 1..];
    }
  }

  /** Without an occurrence there is nothing to remove. */
  lemma {:induction false} RemoveFirstAbsent(s: seq<int>, v: int)
    requires v !in s
    ensures RemoveFirst(s, v) == s
  {
    if s != [] {
      RemoveFirstAbsent(s[1..], v);
    }
  }

  /** `remove` takes exactly one copy of `v` away when there is one. */
  lemma {:induction false} RemoveFirstMultiset(s: seq<int>, v: int)
    ensures multiset(RemoveFirst(s, v)) == multiset(s) - multiset{v}
  {
    if s != [] {
      assert s == [s[0]] + s[1..];
      assert multiset(s) == multiset{s[0]} + multiset(s[1..]);
      if s[0] != v {
        RemoveFirstMultiset(s[1..], v);
        assert multiset(RemoveFirst(s, v)) == multiset{s[0]} + multiset(RemoveFirst(s[1..], v));
      }
    }
  }

  /** The list gets one shorter exactly when `v` occurs. */
  lemma RemoveFirstLength(s: seq<int>, v: int)
    ensures |RemoveFirst(s, v)| == if v in s then |s| - 1 else |s|
  {
    RemoveFirstMultiset(s, v);
    assert |multiset(RemoveFirst(s, v))| == |RemoveFirst(s, v)|;
    assert v in s <==> v in multiset(s);
  }

  /** No node occurs twice. */
  ghost predicate Distinct(ns: seq<Node>)
  {
    forall a, b :: 0 <= a < b < |ns| ==> ns[a] != ns[b]
  }

  /** Splicing index `i` out of a sequence of distinct nodes leaves them distinct. */
  lemma DistinctSplice(ns: seq<Node>, i: nat)
    requires i < |ns| && Distinct(ns)
    ensures Distinct(ns[..i] + ns[i + 1..])
  {
    var r := ns[..i] + ns[i + 1..];
    forall a, b | 0 <= a < b < |r| ensures r[a] != r[b] {
      var a', b' := if a < i then a else a + 1, if b < i then b else b + 1;
      assert r[a] == ns[a'] && r[b] == ns[b'];
    }
  }

  /** Splicing a node out splices its value out of the values. */
  lemma {:induction false} ValuesSplice(ns: seq<Node>, i: nat)
    requires i < |ns|
    ensures Values(ns[..i] + ns[i + 1..]) == Values(ns)[..i] + Values(ns)[i + 1..]
  {
    var v := Values(ns);
    assert v == [ns[0].value] + Values(ns[1..]);
    if i == 0 {
      assert ns[..0] + ns[1..] == ns[1..] && v[..0] + v[1..] == v[1..];
    } else {
      ValuesSplice(ns[1..], i - 1);
      ConsSplice(ns[0], ns[1..], i);
      ConsSplice(ns[0].value, Values(ns[1..]), i);
      assert ns == [ns[0]] + ns[1..];
    }
  }

  /** Splicing out index `i > 0` of `[x] + t` is splicing index `i - 1` out of `t`. */
  lemma ConsSplice<T>(x: T, t: seq<T>, i: nat)
    requires 0 < i <= |t|
    ensures ([x] + t)[..i] + ([x] + t)[i + 1..] == [x] + (t[..i - 1] + t[i..])
  {
    var s := [x] + t;
    assert s[..i] == [x] + t[..i - 1];
    assert s[i + 1..] == t[i..];
  }

  class LinkedList {
    var head: Node?
    var tail: Node?
    ghost var spine: seq<Node>

    /** `head` and `tail` are the ends of the spine, each node links to the next, and no node repeats. */
    ghost predicate Valid()
      reads this, spine
    {
      (head == if spine == [] then null else spine[0]) &&
      (tail == if spine == [] then null else spine[|spine| - 1]) &&
      (forall i :: 0 <= i < |spine| ==> LinkOk(i)) &&
      Distinct(spine)
    }

    /** Node `i` of the spine points at node `i + 1`, or at nothing when it is the last. */
    ghost predicate LinkOk(i: nat)
      reads this, spine
      requires i < |spine|
    {
      spine[i].next == if i + 1 < |spine| then spine[i + 1] else null
    }

    /** The abstract value: the values from head to tail. */
    ghost function Contents(): seq<int>
      reads this
    {
      Values(spine)
    }

    constructor ()
      ensures Valid() && Contents() == []
    {
      head := null;
      tail := null;
      spine := [];
    }

    /** `push_front(v)`: a new head node; it is also the tail when the list was empty. */
    method PushFront(v: int)
      requires Valid()
      modifies this
      ensures Valid() && Contents() == [v] + old(Contents())
      ensures fresh(head) && spine == [head] + old(spine)
    {
      var n := new Node(v);
      if head == null {
        tail := n;
      } else {
        n.next := head;
      }
      head := n;
      spine := [n] + spine;
      forall i | 0 <= i < |spine|
        ensures LinkOk(i)
      {
        if i > 0 {
          assert old(LinkOk(i - 1));
          assert spine[i] == old(spine[i - 1]) && spine[i] != n;
        }
      }
    }

    /** `push_back(v)`: a new tail node, linked from the old tail when there was one. */
    method PushBack(v: int)
      requires Valid()
      modifies this, spine
      ensures Valid() && Contents() == old(Contents()) + [v]
      ensures fresh(tail) && spine == old(spine) + [tail]
    {
      var n := new Node(v);
      if head == null {
        head := n;
        tail := n;
      } else {
        tail.next := n;
        tail := n;
      }
      spine := spine + [n];
      forall i | 0 <= i < |spine|
        ensures LinkOk(i)
      {
        if i + 1 < old(|spine|) {
          assert old(LinkOk(i));
          assert spine[i] != n;
        }
      }
    }

    /**
     * `remove(v)`: walks `prev`/`curr` to the first node holding `v` and unlinks it,
     * moving `tail` back when the last node goes; false and no change when `v` is absent.
     */
    method Remove(v: int) returns (removed: bool)
      requires Valid()
      modifies this, spine
      ensures Valid()
      ensures removed <==> v in old(Contents())
      ensures Contents() == RemoveFirst(old(Contents()), v)
    {
      var prev: Node? := null;
      var curr := head;
      ghost var i := 0;
      while curr != null
        invariant Valid() && 0 <= i <= |spine|
        invariant curr == if i < |spine| then spine[i] else null
        invariant prev == if i == 0 then null else spine[i - 1]
        invariant forall j :: 0 <= j < i ==> spine[j].value != v
        decreases |spine| - i
      {
        if curr.value == v {
          break;
        }
        assert LinkOk(i);
        prev := curr;
        curr := curr.next;
        i := i + 1;
      }
      ghost var s := Contents();
      assert forall j :: 0 <= j < i ==> s[j] != v;
      if curr == null {
        assert v !in s;
        RemoveFirstAbsent(s, v);
        return false;
      }
      assert v !in s[..i] && s[i] == v;
      RemoveFirstAt(s, v, i);
      Unlink(prev, curr, i);
      return true;
    }

    /**
     * The unlinking step of `remove`: `curr` is node `i` and `prev` the one before it (null
     * at the head). `curr`'s successor takes its place, and `tail` moves back to `prev` when
     * `curr` was last.
     */
    method Unlink(prev: Node?, curr: Node, ghost i: nat)
      requires Valid() && i < |spine| && curr == spine[i]
      requires prev == if i == 0 then null else spine[i - 1]
      modifies this, spine
      ensures Valid() && spine == old(spine[..i] + spine[i + 1..])
      ensures Contents() == old(Contents()[..i] + Contents()[i + 1..])
    {
      ValuesSplice(spine, i);
      if prev == null {
        UnlinkHead();
        assert spine == old(spine[..i] + spine[i + 1..]);
      } else {
        UnlinkAfter(prev, i);
      }
    }

    /** Head removal: `head = std::move(curr->next)`, clearing `tail` when nothing is left. */
    method UnlinkHead()
      requires Valid() && spine != []
      modifies this
      ensures Valid() && spine == old(spine[1..])
    {
      assert LinkOk(0);
      head := head.next;
      if head == null {
        tail := null;
      }
      spine := spine[1..];
      forall j | 0 <= j < |spine| ensures LinkOk(j) {
        assert old(LinkOk(j + 1));
      }
      DistinctSplice(old(spine), 0);
      assert old(spine[..0] + spine[1..]) == spine;
    }

    /** Removal after `prev`, node `i - 1`: `prev->next = std::move(curr->next)`. */
    method UnlinkAfter(prev: Node, ghost i: nat)
      requires Valid() && 0 < i < |spine| && prev == spine[i - 1]
      modifies this, prev
      ensures Valid() && spine == old(spine[..i] + spine[i + 1..])
    {
      ghost var s0 := spine;
      ghost var rest := s0[..i] + s0[i + 1..];
      assert LinkOk(i - 1) && LinkOk(i);
      var curr := prev.next;
      prev.next := curr.next;
      if prev.next == null {
        tail := prev;
      }
      spine := rest;
      forall j | 0 <= j < |rest| ensures LinkOk(j) {
        if j + 1 < i {
          assert old(LinkOk(j));
          assert rest[j] == s0[j] && rest[j + 1] == s0[j + 1] && s0[j] != prev;
        } else if j + 1 > i {
          assert old(LinkOk(j + 1));
          assert rest[j] == s0[j + 1] && s0[j + 1] != prev;
          assert j + 1 < |rest| ==> rest[j + 1] == s0[j + 2];
        } else {
          assert rest[j] == prev;
          assert j + 1 < |rest| ==> rest[j + 1] == s0[j + 2];
        }
      }
      assert head == rest[0];
      assert tail == rest[|rest| - 1];
      DistinctSplice(s0, i);
    }

    /** `print()`: the values met walking from `head` along `next`. */
    method Print() returns (out: seq<int>)
      requires Valid()
      ensures out == Contents()
    {
      out := [];
      var curr := head;
      ghost var i := 0;
      while curr != null
        invariant 0 <= i <= |spine|
        invariant curr == if i < |spine| then spine[i] else null
        invariant out == Contents()[..i]
        decreases |spine| - i
      {
        assert LinkOk(i);
        out := out + [curr.value];
        curr := curr.next;
        i := i + 1;
      }
    }
  }

  lemma RemoveTwo()
    ensures RemoveFirst([0, 1, 2, 3], 2) == [0, 1, 3]
  {
    RemoveFirstAt([0, 1, 2, 3], 2, 2);
    assert [0, 1, 2, 3][..2] == [0, 1];
  }

  /** `main`: 0 1 2 3 is built from both ends; removing 2 leaves 0 1 3. */
  method Example() returns (before: seq<int>, removed: bool, after: seq<int>)
    ensures before == [0, 1, 2, 3] && removed && after == [0, 1, 3]
  {
    var list := new LinkedList();
    list.PushBack(1);
    list.PushBack(2);
    assert list.Contents() == [1, 2];
    list.PushFront(0);
    assert list.Contents() == [0, 1, 2];
    list.PushBack(3);
    before := list.Print();
    removed := list.Remove(2);
    RemoveTwo();
    after := list.Print();
  }
}
