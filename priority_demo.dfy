/**
 * The loops of 01_STL_Containers/04_ContainerAdaptors/PriorityQueueExample.cpp that drive a
 * `std::priority_queue`: draining an event scheduler and a task list, top-K selection with
 * a bounded min-heap, and the k-way merge of sorted arrays.
 *
 * A priority queue is modelled as the multiset it holds together with a `rank`: `top()` is
 * an element of greatest rank under the queue's comparison (for `std::greater`, or an
 * `operator<` that compares the other way round, the rank is the negated key). Which of
 * several equal-ranked elements comes out first is left to the library, so the model only
 * promises that the one returned ranks highest.
 */
module PriorityDemo {

  /** `t` is a possible `top()` of `h`: held, and ranked at least as high as everything held. */
  predicate IsTop<T>(h: multiset<T>, rank: T -> int, t: T)
  {
    t in h && forall x :: x in h ==> rank(x) <= rank(t)
  }

  /** Some element of a non-empty multiset ranks highest. */
  ghost function Best<T>(h: multiset<T>, rank: T -> int): (b: T)
    requires h != multiset{}
    ensures IsTop(h, rank, b)
    decreases |h|
  {
    var x :| x in h;
    var rest := h - multiset{x};
    assert forall y :: y in h ==> y == x || y in rest;
    if rest == multiset{} then x
    else
      var b := Best(rest, rank);
      if rank(x) <= rank(b) then b else x
  }

  /** `top()`: an element of greatest rank. */
  method Top<T>(h: multiset<T>, rank: T -> int) returns (t: T)
    requires h != multiset{}
    ensures IsTop(h, rank, t)
  {
    ghost var b := Best(h, rank);
    t :| IsTop(h, rank, t);
  }

  /** Position `i` of `s` ranks at least as high as position `j`. */
  predicate Ranked<T>(s: seq<T>, rank: T -> int, i: int, j: int)
    requires 0 <= i < |s| && 0 <= j < |s|
  {
    rank(s[i]) >= rank(s[j])
  }

  /** Ranks do not increase from front to back. */
  ghost predicate RankOrdered<T>(s: seq<T>, rank: T -> int)
  {
    forall i, j :: 0 <= i < j < |s| ==> Ranked(s, rank, i, j)
  }

  /** Appending an element ranked no higher than any before it keeps the order. */
  lemma AppendLowest<T>(s: seq<T>, t: T, rank: T -> int)
    requires RankOrdered(s, rank) && forall i :: 0 <= i < |s| ==> rank(t) <= rank(s[i])
    ensures RankOrdered(s + [t], rank)
  {
    var r := s + [t];
    forall i, j | 0 <= i < j < |r| ensures Ranked(r, rank, i, j) {
      if j < |s| {
        assert Ranked(s, rank, i, j);
      }
    }
  }

  /**
   * `while (!pq.empty()) { out(pq.top()); pq.pop(); }`: every element comes out once, in
   * order of nonincreasing rank.
   */
  method Drain<T>(heap: multiset<T>, rank: T -> int) returns (out: seq<T>)
    ensures multiset(out) == heap
    ensures RankOrdered(out, rank)
  {
    var h := heap;
    out := [];
    while h != multiset{}
      invariant multiset(out) + h == heap
      invariant RankOrdered(out, rank)
      invariant forall i, x :: 0 <= i < |out| && x in h ==> rank(x) <= rank(out[i])
      decreases |h|
    {
      var t := Top(h, rank);
      AppendLowest(out, t, rank);
      out := out + [t];
      h := h - multiset{t};
    }
  }

  /**
   * Any two rank-ordered arrangements of the same elements agree rank by rank: draining a
   * priority queue fixes the sequence of ranks, whatever the library does with ties.
   */
  lemma {:induction false} SameRanks<T>(a: seq<T>, b: seq<T>, rank: T -> int)
    requires multiset(a) == multiset(b) && RankOrdered(a, rank) && RankOrdered(b, rank)
    ensures |a| == |b| && forall i :: 0 <= i < |a| ==> rank(a[i]) == rank(b[i])
    decreases |a|
  {
    assert |a| == |b| by {
      assert |a| == |multiset(a)| && |b| == |multiset(b)|;
    }
    if a != [] {
      var p := LocateHead(a, b, rank);
      var b' := b[..p] + b[p + 1..];
      DropBoth(a, b, p, rank);
      SameRanks(a[1..], b', rank);
      RanksAfterDrop(a, b, p, rank);
    }
  }

  /** Dropping `a`'s front from both arrangements leaves two arrangements of the rest. */
  lemma DropBoth<T>(a: seq<T>, b: seq<T>, p: nat, rank: T -> int)
    requires a != [] && p < |b| && b[p] == a[0]
    requires multiset(a) == multiset(b) && RankOrdered(a, rank) && RankOrdered(b, rank)
    ensures multiset(a[1..]) == multiset(b[..p] + b[p + 1..])
    ensures RankOrdered(a[1..], rank) && RankOrdered(b[..p] + b[p + 1..], rank)
  {
    DropAt(b, p, rank);
    DropFront(a, rank);
  }

  /** Taking off the front removes one copy of it and keeps the rank order. */
  lemma DropFront<T>(a: seq<T>, rank: T -> int)
    requires a != [] && RankOrdered(a, rank)
    ensures multiset(a[1..]) == multiset(a) - multiset{a[0]}
    ensures RankOrdered(a[1..], rank)
  {
    assert a == [a[0]] + a[1..];
    var r := a[1..];
    forall i, j | 0 <= i < j < |r| ensures Ranked(r, rank, i, j) {
      assert r[i] == a[i + 1] && r[j] == a[j + 1] && Ranked(a, rank, i + 1, j + 1);
    }
  }

  /** The front of `a` sits somewhere in `b`, and `b`'s front shares its rank. */
  lemma LocateHead<T>(a: seq<T>, b: seq<T>, rank: T -> int) returns (p: nat)
    requires a != [] && multiset(a) == multiset(b) && RankOrdered(a, rank) && RankOrdered(b, rank)
    ensures p < |b| && b[p] == a[0] && rank(b[0]) == rank(a[0])
  {
    assert a[0] in multiset(b);
    p :| 0 <= p < |b| && b[p] == a[0];
    assert b[0] in multiset(a);
    var q :| 0 <= q < |a| && a[q] == b[0];
    if p > 0 {
      assert Ranked(b, rank, 0, p);
    }
    if q > 0 {
      assert Ranked(a, rank, 0, q);
    }
  }

  /** Ranks agreeing after dropping `a[0]` from `a` and its copy at `p` from `b` agree before. */
  lemma RanksAfterDrop<T>(a: seq<T>, b: seq<T>, p: nat, rank: T -> int)
    requires a != [] && |a| == |b| && p < |b| && b[p] == a[0] && rank(b[0]) == rank(a[0])
    requires RankOrdered(b, rank)
    requires var b' := b[..p] + b[p + 1..];
      forall i :: 0 <= i < |a| - 1 ==> rank(a[1..][i]) == rank(b'[i])
    ensures forall i :: 0 <= i < |a| ==> rank(a[i]) == rank(b[i])
  {
    var b' := b[..p] + b[p + 1..];
    forall i | 0 < i < |a| ensures rank(a[i]) == rank(b[i]) {
      assert rank(a[1..][i - 1]) == rank(b'[i - 1]);
      if i <= p {
        assert b'[i - 1] == b[i - 1];
        assert Ranked(b, rank, i - 1, i);
        if i - 1 > 0 {
          assert Ranked(b, rank, 0, i - 1);
        }
        if i < p {
          assert Ranked(b, rank, i, p);
        }
      } else {
        assert b'[i - 1] == b[i];
      }
    }
  }

  /** Taking out the element at `p` removes one copy of it and keeps the rank order. */
  lemma DropAt<T>(b: seq<T>, p: nat, rank: T -> int)
    requires p < |b| && RankOrdered(b, rank)
    ensures multiset(b[..p] + b[p + 1..]) == multiset(b) - multiset{b[p]}
    ensures RankOrdered(b[..p] + b[p + 1..], rank)
  {
    var b' := b[..p] + b[p + 1..];
    assert b == b[..p] + [b[p]] + b[p + 1..];
    assert multiset(b) == multiset(b[..p]) + multiset{b[p]} + multiset(b[p + 1..]);
    forall i, j | 0 <= i < j < |b'| ensures Ranked(b', rank, i, j) {
      var i', j' := if i < p then i else i + 1, if j < p then j else j + 1;
      assert b'[i] == b[i'] && b'[j] == b[j'] && Ranked(b, rank, i', j');
    }
  }

  /** When the ranks strictly fall along `b`, `b` is the only rank-ordered arrangement. */
  lemma SameOrder<T>(a: seq<T>, b: seq<T>, rank: T -> int)
    requires multiset(a) == multiset(b) && RankOrdered(a, rank)
    requires forall i, j :: 0 <= i < j < |b| ==> rank(b[i]) > rank(b[j])
    ensures a == b
  {
    assert RankOrdered(b, rank) by {
      forall i, j | 0 <= i < j < |b| ensures Ranked(b, rank, i, j) { }
    }
    SameRanks(a, b, rank);
    forall i | 0 <= i < |a| ensures a[i] == b[i] {
      assert a[i] in multiset(b);
      var j :| 0 <= j < |b| && b[j] == a[i];
    }
  }

  // ---------------------------------------------------------------------------------------
  // Event scheduler and task priorities
  // ---------------------------------------------------------------------------------------

  /** An event `time` minutes from now; `operator<` puts the soonest on top. */
  datatype Event = Event(time: int, description: string)

  function EventRank(e: Event): int
  {
    -e.time
  }

  /** `example4_EventScheduler`: the five events come out soonest first. */
  method EventDemo() returns (out: seq<Event>)
    ensures out == [Event(5, "Quick call"), Event(15, "Coffee break"), Event(30, "Code review"),
                    Event(60, "Meeting with team"), Event(120, "Lunch")]
  {
    var scheduler := multiset{Event(60, "Meeting with team"), Event(15, "Coffee break"),
                              Event(120, "Lunch"), Event(5, "Quick call"), Event(30, "Code review")};
    out := Drain(scheduler, EventRank);
    var expected := [Event(5, "Quick call"), Event(15, "Coffee break"), Event(30, "Code review"),
                     Event(60, "Meeting with team"), Event(120, "Lunch")];
    EventsExpected(scheduler, expected);
    SameOrder(out, expected, EventRank);
  }

  /** The demo events listed soonest first are an arrangement of the scheduler's contents. */
  lemma EventsExpected(scheduler: multiset<Event>, expected: seq<Event>)
    requires scheduler == multiset{Event(60, "Meeting with team"), Event(15, "Coffee break"),
                                   Event(120, "Lunch"), Event(5, "Quick call"), Event(30, "Code review")}
    requires expected == [Event(5, "Quick call"), Event(15, "Coffee break"), Event(30, "Code review"),
                          Event(60, "Meeting with team"), Event(120, "Lunch")]
    ensures multiset(expected) == scheduler
    ensures forall i, j :: 0 <= i < j < |expected| ==> EventRank(expected[i]) > EventRank(expected[j])
  {
    assert multiset(expected) == multiset{Event(5, "Quick call"), Event(15, "Coffee break"), Event(30, "Code review"),
                                          Event(60, "Meeting with team"), Event(120, "Lunch")};
    EventsRegrouped();
  }

  /** The demo events, listed in insertion order and soonest first. */
  lemma EventsRegrouped()
    ensures multiset{Event(5, "Quick call"), Event(15, "Coffee break"), Event(30, "Code review"),
                     Event(60, "Meeting with team"), Event(120, "Lunch")}
         == multiset{Event(60, "Meeting with team"), Event(15, "Coffee break"),
                     Event(120, "Lunch"), Event(5, "Quick call"), Event(30, "Code review")}
  {
  }

  /** A task with a priority; `operator<` puts the highest priority on top. */
  datatype Task = Task(name: string, priority: int)

  function TaskRank(t: Task): int
  {
    t.priority
  }

  /**
   * `example7_TaskPriority`: priorities come out 5 5 3 2 1. The two priority-5 tasks come
   * first in an order the library chooses; the rest are fixed.
   */
  method TaskDemo() returns (out: seq<Task>)
    ensures |out| == 5
    ensures out[0].priority == 5 && out[1].priority == 5
    ensures multiset(out[..2]) == multiset{Task("Fix critical bug", 5), Task("Security patch", 5)}
    ensures out[2..] == [Task("Code review", 3), Task("Write docs", 2), Task("Coffee", 1)]
  {
    var queue := multiset{Task("Write docs", 2), Task("Fix critical bug", 5), Task("Code review", 3),
                          Task("Coffee", 1), Task("Security patch", 5)};
    out := Drain(queue, TaskRank);
    var expected := [Task("Fix critical bug", 5), Task("Security patch", 5), Task("Code review", 3),
                     Task("Write docs", 2), Task("Coffee", 1)];
    TasksExpected(queue, expected);
    SameRanks(out, expected, TaskRank);
    TaskTail(out, expected, queue);
  }

  /** The demo tasks listed by priority are an arrangement of the queue's contents. */
  lemma TasksExpected(queue: multiset<Task>, expected: seq<Task>)
    requires queue == multiset{Task("Write docs", 2), Task("Fix critical bug", 5), Task("Code review", 3),
                               Task("Coffee", 1), Task("Security patch", 5)}
    requires expected == [Task("Fix critical bug", 5), Task("Security patch", 5), Task("Code review", 3),
                          Task("Write docs", 2), Task("Coffee", 1)]
    ensures multiset(expected) == queue && RankOrdered(expected, TaskRank)
  {
    assert multiset(expected) == multiset{Task("Fix critical bug", 5), Task("Security patch", 5), Task("Code review", 3),
                                          Task("Write docs", 2), Task("Coffee", 1)};
    TasksRegrouped();
    forall i, j | 0 <= i < j < |expected| ensures Ranked(expected, TaskRank, i, j) { }
  }

  /** The demo tasks, listed in insertion order and by priority. */
  lemma TasksRegrouped()
    ensures multiset{Task("Fix critical bug", 5), Task("Security patch", 5), Task("Code review", 3),
                     Task("Write docs", 2), Task("Coffee", 1)}
         == multiset{Task("Write docs", 2), Task("Fix critical bug", 5), Task("Code review", 3),
                     Task("Coffee", 1), Task("Security patch", 5)}
  {
  }

  /** The tasks of priority below 5 are each the only one of their priority. */
  lemma TaskTail(out: seq<Task>, expected: seq<Task>, queue: multiset<Task>)
    requires queue == multiset{Task("Write docs", 2), Task("Fix critical bug", 5), Task("Code review", 3),
                               Task("Coffee", 1), Task("Security patch", 5)}
    requires expected == [Task("Fix critical bug", 5), Task("Security patch", 5), Task("Code review", 3),
                          Task("Write docs", 2), Task("Coffee", 1)]
    requires multiset(out) == queue && |out| == |expected|
    requires forall i :: 0 <= i < |out| ==> TaskRank(out[i]) == TaskRank(expected[i])
    ensures out[0].priority == 5 && out[1].priority == 5
    ensures multiset(out[..2]) == multiset{Task("Fix critical bug", 5), Task("Security patch", 5)}
    ensures out[2..] == [Task("Code review", 3), Task("Write docs", 2), Task("Coffee", 1)]
  {
    assert TaskRank(out[0]) == 5 && TaskRank(out[1]) == 5;
    assert TaskRank(out[2]) == 3 && TaskRank(out[3]) == 2 && TaskRank(out[4]) == 1;
    assert out[2..] == [Task("Code review", 3), Task("Write docs", 2), Task("Coffee", 1)] by {
      assert out[2] in multiset(out) && out[3] in multiset(out) && out[4] in multiset(out);
    }
    PairLeft(out, queue);
  }

  /** With the last three fixed, the first two are the two priority-5 tasks. */
  lemma PairLeft(out: seq<Task>, queue: multiset<Task>)
    requires queue == multiset{Task("Write docs", 2), Task("Fix critical bug", 5), Task("Code review", 3),
                               Task("Coffee", 1), Task("Security patch", 5)}
    requires multiset(out) == queue && |out| == 5
    requires out[2..] == [Task("Code review", 3), Task("Write docs", 2), Task("Coffee", 1)]
    ensures multiset(out[..2]) == multiset{Task("Fix critical bug", 5), Task("Security patch", 5)}
  {
    assert out == out[..2] + out[2..];
    assert multiset(out) == multiset(out[..2]) + multiset(out[2..]);
  }

  // ---------------------------------------------------------------------------------------
  // Top-K with a bounded min-heap
  // ---------------------------------------------------------------------------------------

  /** `std::greater<int>`: the smallest value is on top. */
  function Smallest(x: int): int
  {
    -x
  }

  /** No kept value is smaller than a dropped one. */
  ghost predicate Dominates(kept: multiset<int>, dropped: multiset<int>)
  {
    forall x, y :: x in kept && y in dropped ==> y <= x
  }

  /** `h` is what the bounded heap holds after the values `seen`: the largest `min(k, |seen|)`. */
  ghost predicate Kept(h: multiset<int>, seen: multiset<int>, k: nat)
  {
    |h| == (if |seen| < k then |seen| else k) && h <= seen && Dominates(h, seen - h)
  }

  /**
   * The first loop of `example5_TopKElements`: each value is pushed, and the smallest is
   * popped whenever the heap grows past `k`. The heap ends with `min(k, |data|)` of the
   * values, none smaller than any value it let go.
   */
  method KeepLargest(data: seq<int>, k: nat) returns (minHeap: multiset<int>)
    ensures |minHeap| == if |data| < k then |data| else k
    ensures minHeap <= multiset(data)
    ensures Dominates(minHeap, multiset(data) - minHeap)
  {
    minHeap := multiset{};
    for i := 0 to |data|
      invariant Kept(minHeap, multiset(data[..i]), k)
    {
      ghost var seen := multiset(data[..i]);
      assert multiset(data[..i + 1]) == seen + multiset{data[i]} by {
        assert data[..i + 1] == data[..i] + [data[i]];
      }
      var grown := minHeap + multiset{data[i]};
      if |grown| > k {
        var m := Top(grown, Smallest);
        PopSmallest(minHeap, seen, data[i], m, k);
        minHeap := grown - multiset{m};
      } else {
        PushOnly(minHeap, seen, data[i], k);
        minHeap := grown;
      }
    }
    assert data[..|data|] == data;
  }

  /** Below the bound the heap holds everything seen, so pushing keeps nothing out. */
  lemma PushOnly(h: multiset<int>, seen: multiset<int>, v: int, k: nat)
    requires Kept(h, seen, k) && |h| + 1 <= k
    ensures Kept(h + multiset{v}, seen + multiset{v}, k)
  {
    assert seen == h + (seen - h);
    assert seen - h == multiset{};
    assert (seen + multiset{v}) - (h + multiset{v}) == multiset{};
  }

  /** At the bound, popping the smallest after a push keeps the held values above the dropped ones. */
  lemma PopSmallest(h: multiset<int>, seen: multiset<int>, v: int, m: int, k: nat)
    requires Kept(h, seen, k) && |h| + 1 > k
    requires IsTop(h + multiset{v}, Smallest, m)
    ensures Kept(h + multiset{v} - multiset{m}, seen + multiset{v}, k)
  {
    var grown := h + multiset{v};
    var kept := grown - multiset{m};
    assert (seen + multiset{v}) - kept == (seen - h) + multiset{m};
    forall x, y | x in kept && y in (seen - h) + multiset{m} ensures y <= x {
      assert Smallest(x) <= Smallest(m);
      if y != m && x !in h {
        assert x == v && m != v && m in h;
        assert Smallest(v) <= Smallest(m);
      }
    }
  }

  /**
   * `example5_TopKElements`: keeps the `k` largest values in a min-heap, drains it smallest
   * first into `topK`, and reads `topK` from the back, so the values come out largest first.
   */
  method TopK(data: seq<int>, k: nat) returns (top: seq<int>)
    ensures |top| == if |data| < k then |data| else k
    ensures multiset(top) <= multiset(data)
    ensures Dominates(multiset(top), multiset(data) - multiset(top))
    ensures forall i, j :: 0 <= i < j < |top| ==> top[i] >= top[j]
  {
    var minHeap := KeepLargest(data, k);
    var topK := Drain(minHeap, Smallest);
    top := [];
    var i: int := |topK| - 1;
    while i >= 0
      invariant -1 <= i < |topK|
      invariant |top| == |topK| - 1 - i
      invariant forall j :: 0 <= j < |top| ==> top[j] == topK[|topK| - 1 - j]
      invariant multiset(top) == multiset(topK[i + 1..])
    {
      assert topK[i..] == [topK[i]] + topK[i + 1..];
      top := top + [topK[i]];
      i := i - 1;
    }
    assert topK[0..] == topK;
    forall a, b | 0 <= a < b < |top| ensures top[a] >= top[b] {
      assert Ranked(topK, Smallest, |topK| - 1 - b, |topK| - 1 - a);
    }
  }

  /** `{12, 5, 23, 8, 42, 15, 37, 19, 3, 28}` with `k = 3` gives 42 37 28. */
  method TopKDemo() returns (top: seq<int>)
    ensures top == [42, 37, 28]
  {
    var data := [12, 5, 23, 8, 42, 15, 37, 19, 3, 28];
    top := TopK(data, 3);
    var sorted := [42, 37, 28, 23, 19, 15, 12, 8, 5, 3];
    assert multiset(sorted) == multiset(data) by {
      SameValues(data, sorted);
    }
    DemoTop(data, top, sorted);
  }

  /** A descending top three dominating the rest of data that sorts to `sorted` is 42 37 28. */
  lemma DemoTop(data: seq<int>, top: seq<int>, sorted: seq<int>)
    requires sorted == [42, 37, 28, 23, 19, 15, 12, 8, 5, 3] && multiset(sorted) == multiset(data)
    requires |top| == 3 && multiset(top) <= multiset(data)
    requires Dominates(multiset(top), multiset(data) - multiset(top))
    requires forall i, j :: 0 <= i < j < |top| ==> top[i] >= top[j]
    ensures top == [42, 37, 28]
  {
    SortedDemo(sorted);
    Descends(top);
    TopIsPrefix(data, top, sorted);
    FirstThree(top, sorted);
  }

  /** The sorted demo list is ordered largest first. */
  lemma SortedDemo(sorted: seq<int>)
    requires sorted == [42, 37, 28, 23, 19, 15, 12, 8, 5, 3]
    ensures RankOrdered(sorted, Largest)
  {
    Falls(sorted);
    Descending(sorted);
  }

  /** A list whose values never rise is ordered largest first. */
  lemma Descends(s: seq<int>)
    requires forall i, j :: 0 <= i < j < |s| ==> s[i] >= s[j]
    ensures RankOrdered(s, Largest)
  {
    forall i, j | 0 <= i < j < |s| ensures Ranked(s, Largest, i, j) { }
  }

  /** The first three of the sorted demo list are 42 37 28. */
  lemma FirstThree(top: seq<int>, sorted: seq<int>)
    requires sorted == [42, 37, 28, 23, 19, 15, 12, 8, 5, 3]
    requires |top| == 3 && |top| <= |sorted| && top == sorted[..|top|]
    ensures top == [42, 37, 28]
  {
  }

  /** The natural order on values: the rank of a max-heap of `int`. */
  function Largest(x: int): int
  {
    x
  }

  /** The elements of `m` highest rank first, built by repeatedly taking one of highest rank. */
  ghost function SortDown<T>(m: multiset<T>, rank: T -> int): (r: seq<T>)
    ensures multiset(r) == m && RankOrdered(r, rank)
    decreases |m|
  {
    if m == multiset{} then []
    else
      var b := Best(m, rank);
      var rest := SortDown(m - multiset{b}, rank);
      PrependTop(m, b, rest, rank);
      [b] + rest
  }

  /** Putting a top element before an ordered arrangement of the others keeps the order. */
  lemma PrependTop<T>(m: multiset<T>, b: T, rest: seq<T>, rank: T -> int)
    requires IsTop(m, rank, b) && multiset(rest) == m - multiset{b} && RankOrdered(rest, rank)
    ensures multiset([b] + rest) == m && RankOrdered([b] + rest, rank)
  {
    var r := [b] + rest;
    forall i, j | 0 <= i < j < |r| ensures Ranked(r, rank, i, j) {
      assert r[j] == rest[j - 1] && rest[j - 1] in multiset(rest);
      if i > 0 {
        assert r[i] == rest[i - 1] && Ranked(rest, rank, i - 1, j - 1);
      }
    }
  }

  /**
   * Top-K is a prefix of the data sorted largest first: a descending selection that no
   * dropped value exceeds agrees, place by place, with any descending arrangement of all
   * the data.
   */
  lemma TopIsPrefix(data: seq<int>, top: seq<int>, sorted: seq<int>)
    requires multiset(top) <= multiset(data) && RankOrdered(top, Largest)
    requires Dominates(multiset(top), multiset(data) - multiset(top))
    requires multiset(sorted) == multiset(data) && RankOrdered(sorted, Largest)
    ensures |top| <= |sorted| && top == sorted[..|top|]
  {
    var rest := SortDown(multiset(data) - multiset(top), Largest);
    var s := top + rest;
    JoinRest(top, rest, multiset(data));
    SameRanks(s, sorted, Largest);
    forall i | 0 <= i < |top| ensures top[i] == sorted[i] {
      assert Largest(s[i]) == Largest(sorted[i]) && s[i] == top[i];
    }
  }

  /** The kept values followed by the dropped ones, each run ordered, are ordered throughout. */
  lemma JoinRest(top: seq<int>, rest: seq<int>, d: multiset<int>)
    requires multiset(top) <= d && Dominates(multiset(top), d - multiset(top)) && RankOrdered(top, Largest)
    requires multiset(rest) == d - multiset(top) && RankOrdered(rest, Largest)
    ensures multiset(top + rest) == d && RankOrdered(top + rest, Largest)
  {
    var t := multiset(top);
    assert multiset(top + rest) == t + (d - t);
    forall i, j | 0 <= i < |top| && 0 <= j < |rest| ensures Largest(rest[j]) <= Largest(top[i]) {
      assert top[i] in t && rest[j] in multiset(rest);
    }
    Concatenated(top, rest, Largest);
  }

  /** Two ordered runs, the second ranked no higher than the first, make an ordered whole. */
  lemma Concatenated<T>(a: seq<T>, b: seq<T>, rank: T -> int)
    requires RankOrdered(a, rank) && RankOrdered(b, rank)
    requires forall i, j :: 0 <= i < |a| && 0 <= j < |b| ==> rank(b[j]) <= rank(a[i])
    ensures RankOrdered(a + b, rank)
  {
    var s := a + b;
    forall i, j | 0 <= i < j < |s| ensures Ranked(s, rank, i, j) {
      if j < |a| {
        assert s[i] == a[i] && s[j] == a[j] && Ranked(a, rank, i, j);
      } else if i >= |a| {
        assert s[i] == b[i - |a|] && s[j] == b[j - |a|] && Ranked(b, rank, i - |a|, j - |a|);
      } else {
        assert s[i] == a[i] && s[j] == b[j - |a|];
      }
    }
  }

  /** The two demo lists hold the same values. */
  lemma SameValues(data: seq<int>, sorted: seq<int>)
    requires data == [12, 5, 23, 8, 42, 15, 37, 19, 3, 28]
    requires sorted == [42, 37, 28, 23, 19, 15, 12, 8, 5, 3]
    ensures multiset(sorted) == multiset(data)
  {
    assert multiset(data) == multiset{12, 5, 23, 8, 42, 15, 37, 19, 3, 28};
    assert multiset(sorted) == multiset{42, 37, 28, 23, 19, 15, 12, 8, 5, 3};
    Regrouped();
  }

  /** The demo values, listed in input order and largest first. */
  lemma Regrouped()
    ensures multiset{12, 5, 23, 8, 42, 15, 37, 19, 3, 28} == multiset{42, 37, 28, 23, 19, 15, 12, 8, 5, 3}
  {
  }

  /** The sorted demo list falls at every step. */
  lemma Falls(sorted: seq<int>)
    requires sorted == [42, 37, 28, 23, 19, 15, 12, 8, 5, 3]
    ensures forall k :: 0 <= k < |sorted| - 1 ==> sorted[k] > sorted[k + 1]
  {
  }

  /** A sequence that falls at every step is ordered largest first. */
  lemma {:induction false} Descending(s: seq<int>)
    requires forall k :: 0 <= k < |s| - 1 ==> s[k] > s[k + 1]
    ensures RankOrdered(s, Largest)
    decreases |s|
  {
    if |s| > 1 {
      Descending(s[1..]);
      forall i, j | 0 <= i < j < |s| ensures Ranked(s, Largest, i, j) {
        if i > 0 {
          assert s[i] == s[1..][i - 1] && s[j] == s[1..][j - 1] && Ranked(s[1..], Largest, i - 1, j - 1);
        } else if j > 1 {
          assert s[1] == s[1..][0] && s[j] == s[1..][j - 1] && Ranked(s[1..], Largest, 0, j - 1);
        }
      }
    }
  }

  // ---------------------------------------------------------------------------------------
  // Merging k sorted arrays
  // ---------------------------------------------------------------------------------------

  /** A heap entry: a value and where it was read from; `operator<` puts the smallest on top. */
  datatype Element = Element(value: int, arrayIndex: nat, elementIndex: nat)

  function ElementRank(e: Element): int
  {
    -e.value
  }

  /** All the arrays, one after the other. */
  function Flatten(arrays: seq<seq<int>>): seq<int>
  {
    if arrays == [] then [] else Flatten(arrays[..|arrays| - 1]) + arrays[|arrays| - 1]
  }

  /** Values never decrease from front to back. */
  ghost predicate Ascending(s: seq<int>)
  {
    forall i, j :: 0 <= i < j < |s| ==> s[i] <= s[j]
  }

  /** Every input array is sorted. */
  ghost predicate AllSorted(arrays: seq<seq<int>>)
  {
    forall a :: 0 <= a < |arrays| ==> Ascending(arrays[a])
  }

  /** `pos[a]` counts the elements of `arrays[a]` already merged. */
  ghost predicate InRange(arrays: seq<seq<int>>, pos: seq<nat>)
  {
    |pos| == |arrays| && forall a :: 0 <= a < |pos| ==> pos[a] <= |arrays[a]|
  }

  /** The entry for the next unmerged element of `arrays[a]`, if any. */
  ghost function Head(arrays: seq<seq<int>>, pos: seq<nat>, a: nat): multiset<Element>
    requires a < |arrays| == |pos|
  {
    if pos[a] < |arrays[a]| then multiset{Element(arrays[a][pos[a]], a, pos[a])} else multiset{}
  }

  /** What the heap holds: one entry for each of the first `n` arrays not yet used up. */
  ghost function Pending(arrays: seq<seq<int>>, pos: seq<nat>, n: nat): multiset<Element>
    requires n <= |arrays| == |pos|
  {
    if n == 0 then multiset{} else Pending(arrays, pos, n - 1) + Head(arrays, pos, n - 1)
  }

  /** The values already merged from the first `n` arrays. */
  ghost function Taken(arrays: seq<seq<int>>, pos: seq<nat>, n: nat): multiset<int>
    requires n <= |arrays| && InRange(arrays, pos)
  {
    if n == 0 then multiset{} else Taken(arrays, pos, n - 1) + multiset(arrays[n - 1][..pos[n - 1]])
  }

  /** The entry pushed after `e` is popped: the next element of the same array, if any. */
  function Next(arrays: seq<seq<int>>, e: Element): multiset<Element>
    requires e.arrayIndex < |arrays|
  {
    if e.elementIndex + 1 < |arrays[e.arrayIndex]| then
      multiset{Element(arrays[e.arrayIndex][e.elementIndex + 1], e.arrayIndex, e.elementIndex + 1)}
    else multiset{}
  }

  /**
   * `example6_MergeSortedArrays`: the first element of every non-empty array goes into a
   * min-heap; each pop appends its value to `merged` and pushes the next element of the
   * same array. Every input value is merged exactly once, and when the arrays are sorted,
   * so is the result.
   */
  method MergeSorted(arrays: seq<seq<int>>) returns (merged: seq<int>)
    ensures multiset(merged) == multiset(Flatten(arrays))
    ensures AllSorted(arrays) ==> Ascending(merged)
  {
    ghost var pos: seq<nat> := seq(|arrays|, _ => 0);
    var pq := FirstEntries(arrays, pos);
    merged := [];
    Start(arrays, pos, pq);
    while pq != multiset{}
      invariant Merging(arrays, pos, pq, merged)
      decreases |Flatten(arrays)| - |merged|
    {
      var e := Top(pq, ElementRank);
      ghost var pos' := MergeStep(arrays, pos, pq, merged, e);
      pq := pq - multiset{e} + Next(arrays, e);
      merged := merged + [e.value];
      pos := pos';
    }
    Done(arrays, pos, merged);
  }

  /** The heap before the first pop: the front element of every non-empty array. */
  method FirstEntries(arrays: seq<seq<int>>, ghost pos: seq<nat>) returns (pq: multiset<Element>)
    requires |pos| == |arrays| && forall a :: 0 <= a < |pos| ==> pos[a] == 0
    ensures pq == Pending(arrays, pos, |arrays|)
  {
    pq := multiset{};
    for i := 0 to |arrays|
      invariant pq == Pending(arrays, pos, i)
    {
      if |arrays[i]| > 0 {
        assert Head(arrays, pos, i) == multiset{Element(arrays[i][0], i, 0)};
        pq := pq + multiset{Element(arrays[i][0], i, 0)};
      }
    }
  }

  /**
   * The state of the merge loop: the heap holds the next entry of each unfinished array,
   * `merged` the values passed over, and for sorted arrays `merged` is sorted and no
   * entry in the heap is smaller than its last value.
   */
  ghost predicate Merging(arrays: seq<seq<int>>, pos: seq<nat>, pq: multiset<Element>, merged: seq<int>)
  {
    && InRange(arrays, pos)
    && pq == Pending(arrays, pos, |arrays|)
    && multiset(merged) == Taken(arrays, pos, |arrays|)
    && |merged| <= |Flatten(arrays)|
    && (AllSorted(arrays) ==> Ascending(merged) && Below(merged, pq))
  }

  /** One round of the merge loop, popping `e`, keeps the loop's state. */
  lemma MergeStep(arrays: seq<seq<int>>, pos: seq<nat>, pq: multiset<Element>, merged: seq<int>, e: Element)
    returns (pos': seq<nat>)
    requires Merging(arrays, pos, pq, merged) && IsTop(pq, ElementRank, e)
    ensures e.arrayIndex < |arrays|
    ensures Merging(arrays, pos', pq - multiset{e} + Next(arrays, e), merged + [e.value])
  {
    pos' := Advance(arrays, pos, pq, e);
    Appended(arrays, merged, pq, e);
    Within(arrays, pos', |arrays|);
    assert arrays[..|arrays|] == arrays;
    Smaller(multiset(merged + [e.value]), multiset(Flatten(arrays)));
  }

  /** When the heap has run empty, every value has been merged. */
  lemma Done(arrays: seq<seq<int>>, pos: seq<nat>, merged: seq<int>)
    requires Merging(arrays, pos, multiset{}, merged)
    ensures multiset(merged) == multiset(Flatten(arrays))
    ensures AllSorted(arrays) ==> Ascending(merged)
  {
    Exhausted(arrays, pos, |arrays|);
    Within(arrays, pos, |arrays|);
    assert arrays[..|arrays|] == arrays;
  }

  /** A part has no more elements than the whole. */
  lemma Smaller<T>(a: multiset<T>, b: multiset<T>)
    requires a <= b
    ensures |a| <= |b|
  {
    assert b == a + (b - a);
  }

  /** After the last merged value comes nothing smaller that the heap holds. */
  ghost predicate Below(merged: seq<int>, pq: multiset<Element>)
  {
    merged != [] ==> forall x :: x in pq ==> merged[|merged| - 1] <= x.value
  }

  /** Before the first pop the heap holds the front of every non-empty array, and nothing is merged. */
  lemma Start(arrays: seq<seq<int>>, pos: seq<nat>, pq: multiset<Element>)
    requires |pos| == |arrays| && (forall a :: 0 <= a < |pos| ==> pos[a] == 0)
    requires pq == Pending(arrays, pos, |arrays|)
    ensures Merging(arrays, pos, pq, [])
  {
    Untouched(arrays, pos, |arrays|);
  }

  /** With nothing merged, nothing is taken. */
  lemma {:induction false} Untouched(arrays: seq<seq<int>>, pos: seq<nat>, n: nat)
    requires n <= |arrays| && InRange(arrays, pos) && forall a :: 0 <= a < |pos| ==> pos[a] == 0
    ensures Taken(arrays, pos, n) == multiset{}
  {
    if n > 0 {
      Untouched(arrays, pos, n - 1);
      assert arrays[n - 1][..pos[n - 1]] == [];
    }
  }

  /**
   * Popping `e` from the heap and pushing its successor moves the reading position of
   * `e`'s array one step on: the heap stays the set of next entries, and `e`'s value joins
   * the merged values.
   */
  lemma Advance(arrays: seq<seq<int>>, pos: seq<nat>, pq: multiset<Element>, e: Element) returns (pos': seq<nat>)
    requires InRange(arrays, pos) && pq == Pending(arrays, pos, |arrays|) && e in pq
    ensures e.arrayIndex < |arrays| && e.elementIndex == pos[e.arrayIndex] < |arrays[e.arrayIndex]|
    ensures e.value == arrays[e.arrayIndex][e.elementIndex]
    ensures pos' == pos[e.arrayIndex := pos[e.arrayIndex] + 1] && InRange(arrays, pos')
    ensures pq - multiset{e} + Next(arrays, e) == Pending(arrays, pos', |arrays|)
    ensures Taken(arrays, pos', |arrays|) == Taken(arrays, pos, |arrays|) + multiset{e.value}
  {
    PendingEntry(arrays, pos, |arrays|, e);
    var a := e.arrayIndex;
    pos' := pos[a := pos[a] + 1];
    MovedOn(arrays, pos, pos', a);
    HeapAfter(arrays, pos, pos', pq, e);
    TakenStep(arrays, pos, |arrays|, a);
  }

  /** Moving one array's position on stays within the arrays. */
  lemma MovedOn(arrays: seq<seq<int>>, pos: seq<nat>, pos': seq<nat>, a: nat)
    requires InRange(arrays, pos) && a < |arrays| && pos[a] < |arrays[a]| && pos' == pos[a := pos[a] + 1]
    ensures InRange(arrays, pos')
  {
  }

  /** The heap after popping `e` and pushing its successor is the set of entries at the new positions. */
  lemma HeapAfter(arrays: seq<seq<int>>, pos: seq<nat>, pos': seq<nat>, pq: multiset<Element>, e: Element)
    requires |pos| == |arrays| && pq == Pending(arrays, pos, |arrays|) && e in pq
    requires e.arrayIndex < |arrays| && e.elementIndex == pos[e.arrayIndex] < |arrays[e.arrayIndex]|
    requires e.value == arrays[e.arrayIndex][e.elementIndex]
    requires pos' == pos[e.arrayIndex := pos[e.arrayIndex] + 1]
    ensures pq - multiset{e} + Next(arrays, e) == Pending(arrays, pos', |arrays|)
  {
    SwapHeads(arrays, pos, pos', e);
    Exchange(Pending(arrays, pos', |arrays|), multiset{e}, e, pq, Next(arrays, e));
  }

  /** Moving on past `e` swaps `e` in the heap for its successor. */
  lemma SwapHeads(arrays: seq<seq<int>>, pos: seq<nat>, pos': seq<nat>, e: Element)
    requires |pos| == |arrays| && e.arrayIndex < |arrays|
    requires e.elementIndex == pos[e.arrayIndex] < |arrays[e.arrayIndex]|
    requires e.value == arrays[e.arrayIndex][e.elementIndex]
    requires pos' == pos[e.arrayIndex := pos[e.arrayIndex] + 1]
    ensures Pending(arrays, pos', |arrays|) + multiset{e} == Pending(arrays, pos, |arrays|) + Next(arrays, e)
  {
    PendingStep(arrays, pos, pos', |arrays|, e.arrayIndex);
    Heads(arrays, pos, pos', e);
  }

  /** Array `e.arrayIndex`'s entry is `e` before the move and `e`'s successor after it. */
  lemma Heads(arrays: seq<seq<int>>, pos: seq<nat>, pos': seq<nat>, e: Element)
    requires |pos| == |arrays| && e.arrayIndex < |arrays|
    requires e.elementIndex == pos[e.arrayIndex] < |arrays[e.arrayIndex]|
    requires e.value == arrays[e.arrayIndex][e.elementIndex]
    requires pos' == pos[e.arrayIndex := pos[e.arrayIndex] + 1]
    ensures Head(arrays, pos, e.arrayIndex) == multiset{e}
    ensures Head(arrays, pos', e.arrayIndex) == Next(arrays, e)
  {
  }

  /** Taking `e` out of `q` and adding `n` gives `p`, when `p` with `h`, which is `e` alone, is `q` with `n`. */
  lemma Exchange<T>(p: multiset<T>, h: multiset<T>, e: T, q: multiset<T>, n: multiset<T>)
    requires p + h == q + n && h == multiset{e} && e in q
    ensures q - multiset{e} + n == p
  {
    forall x ensures (q - multiset{e} + n)[x] == p[x] {
      assert (p + h)[x] == (q + n)[x];
    }
  }


  /** A heap entry is the next unmerged element of its own array. */
  lemma {:induction false} PendingEntry(arrays: seq<seq<int>>, pos: seq<nat>, n: nat, e: Element)
    requires n <= |arrays| == |pos| && e in Pending(arrays, pos, n)
    ensures e.arrayIndex < n && e.elementIndex == pos[e.arrayIndex] < |arrays[e.arrayIndex]|
    ensures e.value == arrays[e.arrayIndex][e.elementIndex]
  {
    if e !in Head(arrays, pos, n - 1) {
      PendingEntry(arrays, pos, n - 1, e);
    }
  }

  /**
   * The heap holds at most one entry per input array: every entry occurs once, and there
   * are no more entries than arrays.
   */
  lemma {:induction false} OnePerArray(arrays: seq<seq<int>>, pos: seq<nat>, n: nat)
    requires n <= |arrays| == |pos|
    ensures |Pending(arrays, pos, n)| <= n
    ensures forall e :: e in Pending(arrays, pos, n) ==> Pending(arrays, pos, n)[e] == 1
  {
    if n > 0 {
      OnePerArray(arrays, pos, n - 1);
      var p, h := Pending(arrays, pos, n - 1), Head(arrays, pos, n - 1);
      forall e | e in p + h ensures (p + h)[e] == 1 {
        if e in p {
          PendingEntry(arrays, pos, n - 1, e);
          assert e !in h;
        }
      }
    }
  }

  /** Two heap entries of the same array are the same entry. */
  lemma SameArraySameEntry(arrays: seq<seq<int>>, pos: seq<nat>, n: nat, d: Element, e: Element)
    requires n <= |arrays| == |pos| && d in Pending(arrays, pos, n) && e in Pending(arrays, pos, n)
    requires d.arrayIndex == e.arrayIndex
    ensures d == e
  {
    PendingEntry(arrays, pos, n, d);
    PendingEntry(arrays, pos, n, e);
  }

  /** Entries of the first `n` arrays depend only on those arrays' positions. */
  lemma {:induction false} PendingFrame(arrays: seq<seq<int>>, pos: seq<nat>, pos': seq<nat>, n: nat)
    requires n <= |arrays| == |pos| == |pos'| && forall b :: 0 <= b < n ==> pos'[b] == pos[b]
    ensures Pending(arrays, pos', n) == Pending(arrays, pos, n)
  {
    if n > 0 {
      PendingFrame(arrays, pos, pos', n - 1);
      assert Head(arrays, pos', n - 1) == Head(arrays, pos, n - 1);
    }
  }

  /** Array `a`'s old entry together with the heap after `a` moved on is its new entry with the heap before. */
  ghost predicate Swapped(arrays: seq<seq<int>>, pos: seq<nat>, pos': seq<nat>, n: nat, a: nat)
    requires n <= |arrays| == |pos| == |pos'| && a < |arrays|
  {
    Pending(arrays, pos', n) + Head(arrays, pos, a) == Pending(arrays, pos, n) + Head(arrays, pos', a)
  }

  /** Moving array `a`'s position swaps its old entry in the heap for its new one. */
  lemma {:induction false} PendingStep(arrays: seq<seq<int>>, pos: seq<nat>, pos': seq<nat>, n: nat, a: nat)
    requires n <= |arrays| == |pos| && a < n && pos' == pos[a := pos[a] + 1]
    ensures Swapped(arrays, pos, pos', n, a)
  {
    if a < n - 1 {
      PendingStep(arrays, pos, pos', n - 1, a);
      PendingLater(arrays, pos, pos', n, a);
    } else {
      PendingFrame(arrays, pos, pos', a);
      PendingAt(arrays, pos, pos', n, a);
    }
  }

  /** The step at array `a` itself: only `a`'s entry changes. */
  lemma PendingAt(arrays: seq<seq<int>>, pos: seq<nat>, pos': seq<nat>, n: nat, a: nat)
    requires n == a + 1 <= |arrays| == |pos| == |pos'| && Pending(arrays, pos', a) == Pending(arrays, pos, a)
    ensures Swapped(arrays, pos, pos', n, a)
  {
    var p := Pending(arrays, pos, a);
    Rotate(p, Head(arrays, pos', a), multiset{}, p, multiset{});
    Rotate(p, Head(arrays, pos, a), Head(arrays, pos', a), p, Head(arrays, pos', a));
  }

  /** The entry of an array after `a` is the same before and after `a` moves on. */
  lemma PendingLater(arrays: seq<seq<int>>, pos: seq<nat>, pos': seq<nat>, n: nat, a: nat)
    requires 0 < n <= |arrays| == |pos| && a < n - 1 && pos' == pos[a := pos[a] + 1]
    requires Swapped(arrays, pos, pos', n - 1, a)
    ensures Swapped(arrays, pos, pos', n, a)
  {
    assert pos'[n - 1] == pos[n - 1];
    assert Head(arrays, pos', n - 1) == Head(arrays, pos, n - 1);
    Rotate(Pending(arrays, pos', n - 1), Head(arrays, pos, n - 1), Head(arrays, pos, a),
           Pending(arrays, pos, n - 1), Head(arrays, pos', a));
  }

  /** `(p + h) + x == (q + h) + y` once `p + x == q + y`. */
  lemma Rotate<T>(p: multiset<T>, h: multiset<T>, x: multiset<T>, q: multiset<T>, y: multiset<T>)
    requires p + x == q + y
    ensures p + h + x == q + h + y
  {
    assert p + h + x == (p + x) + h;
    assert q + h + y == (q + y) + h;
  }

  /** Moving array `a`'s position adds the element passed over to the merged values. */
  lemma {:induction false} TakenStep(arrays: seq<seq<int>>, pos: seq<nat>, n: nat, a: nat)
    requires n <= |arrays| && InRange(arrays, pos) && a < n && pos[a] < |arrays[a]|
    requires InRange(arrays, pos[a := pos[a] + 1])
    ensures Taken(arrays, pos[a := pos[a] + 1], n) == Taken(arrays, pos, n) + multiset{arrays[a][pos[a]]}
  {
    var pos' := pos[a := pos[a] + 1];
    if n - 1 == a {
      TakenFrame(arrays, pos, pos', a);
      assert arrays[a][..pos'[a]] == arrays[a][..pos[a]] + [arrays[a][pos[a]]];
    } else {
      TakenStep(arrays, pos, n - 1, a);
      assert pos'[n - 1] == pos[n - 1];
    }
  }

  /** Values merged from the first `n` arrays depend only on those arrays' positions. */
  lemma {:induction false} TakenFrame(arrays: seq<seq<int>>, pos: seq<nat>, pos': seq<nat>, n: nat)
    requires n <= |arrays| && InRange(arrays, pos) && InRange(arrays, pos')
    requires forall b :: 0 <= b < n ==> pos'[b] == pos[b]
    ensures Taken(arrays, pos', n) == Taken(arrays, pos, n)
  {
    if n > 0 {
      TakenFrame(arrays, pos, pos', n - 1);
    }
  }

  /** Appending the popped minimum keeps the merged values sorted and below the heap. */
  lemma Appended(arrays: seq<seq<int>>, merged: seq<int>, pq: multiset<Element>, e: Element)
    requires e.arrayIndex < |arrays| && e.elementIndex < |arrays[e.arrayIndex]|
    requires e.value == arrays[e.arrayIndex][e.elementIndex]
    requires AllSorted(arrays) ==> Ascending(merged) && Below(merged, pq)
    requires IsTop(pq, ElementRank, e)
    ensures AllSorted(arrays) ==> Ascending(merged + [e.value]) && Below(merged + [e.value], pq - multiset{e} + Next(arrays, e))
  {
    if AllSorted(arrays) {
      var m := merged + [e.value];
      forall i, j | 0 <= i < j < |m| ensures m[i] <= m[j] {
        if j == |merged| {
          assert merged[|merged| - 1] <= e.value && merged[i] <= merged[|merged| - 1];
        }
      }
      forall x | x in pq - multiset{e} + Next(arrays, e) ensures e.value <= x.value {
        if x in Next(arrays, e) {
          assert Ascending(arrays[e.arrayIndex]);
          assert x.value == arrays[e.arrayIndex][e.elementIndex + 1];
        } else {
          assert ElementRank(x) <= ElementRank(e);
        }
      }
    }
  }

  /** An empty heap means every array has been read to its end. */
  lemma {:induction false} Exhausted(arrays: seq<seq<int>>, pos: seq<nat>, n: nat)
    requires n <= |arrays| && InRange(arrays, pos) && Pending(arrays, pos, n) == multiset{}
    ensures forall a :: 0 <= a < n ==> pos[a] == |arrays[a]|
  {
    if n > 0 {
      assert Head(arrays, pos, n - 1) == multiset{};
      Exhausted(arrays, pos, n - 1);
    }
  }

  /**
   * The merged values come from the arrays, and once every array has been read to its end
   * they are all of them.
   */
  lemma {:induction false} Within(arrays: seq<seq<int>>, pos: seq<nat>, n: nat)
    requires n <= |arrays| && InRange(arrays, pos)
    ensures Taken(arrays, pos, n) <= multiset(Flatten(arrays[..n]))
    ensures (forall a :: 0 <= a < n ==> pos[a] == |arrays[a]|) ==> Taken(arrays, pos, n) == multiset(Flatten(arrays[..n]))
  {
    if n > 0 {
      Within(arrays, pos, n - 1);
      var s := arrays[n - 1];
      assert arrays[..n][..n - 1] == arrays[..n - 1];
      assert Flatten(arrays[..n]) == Flatten(arrays[..n - 1]) + s;
      assert s == s[..pos[n - 1]] + s[pos[n - 1]..];
      assert multiset(s) == multiset(s[..pos[n - 1]]) + multiset(s[pos[n - 1]..]);
    }
  }

  /** The three demo arrays merge into 1 through 9. */
  method MergeDemo() returns (merged: seq<int>)
    ensures merged == [1, 2, 3, 4, 5, 6, 7, 8, 9]
  {
    var arrays := [[1, 4, 7], [2, 5, 8], [3, 6, 9]];
    DemoArrays(arrays);
    merged := MergeSorted(arrays);
    Merged(merged);
  }

  /** The demo arrays are sorted and hold 1 through 9. */
  lemma DemoArrays(arrays: seq<seq<int>>)
    requires arrays == [[1, 4, 7], [2, 5, 8], [3, 6, 9]]
    ensures AllSorted(arrays) && multiset(Flatten(arrays)) == multiset([1, 2, 3, 4, 5, 6, 7, 8, 9])
  {
    SortedArrays(arrays);
    FlattenDemo(arrays);
    assert multiset([1, 4, 7, 2, 5, 8, 3, 6, 9]) == multiset{1, 4, 7, 2, 5, 8, 3, 6, 9};
    assert multiset([1, 2, 3, 4, 5, 6, 7, 8, 9]) == multiset{1, 2, 3, 4, 5, 6, 7, 8, 9};
    Interleaved();
  }

  /** Each demo array is sorted. */
  lemma SortedArrays(arrays: seq<seq<int>>)
    requires arrays == [[1, 4, 7], [2, 5, 8], [3, 6, 9]]
    ensures AllSorted(arrays)
  {
    forall a | 0 <= a < |arrays| ensures Ascending(arrays[a]) {
      var s := arrays[a];
      assert |s| == 3 && s[0] < s[1] < s[2];
    }
  }

  /** The demo arrays one after the other. */
  lemma FlattenDemo(arrays: seq<seq<int>>)
    requires arrays == [[1, 4, 7], [2, 5, 8], [3, 6, 9]]
    ensures Flatten(arrays) == [1, 4, 7, 2, 5, 8, 3, 6, 9]
  {
    var one, two := arrays[..1], arrays[..2];
    assert one[..0] == [] && two[..1] == one && arrays[..2] == two;
    assert Flatten(one) == [1, 4, 7];
    assert Flatten(two) == [1, 4, 7] + [2, 5, 8];
    assert Flatten(arrays) == [1, 4, 7, 2, 5, 8] + [3, 6, 9];
  }

  /** The demo values, listed array by array and in order. */
  lemma Interleaved()
    ensures multiset{1, 4, 7, 2, 5, 8, 3, 6, 9} == multiset{1, 2, 3, 4, 5, 6, 7, 8, 9}
  {
  }

  /** A sorted arrangement of 1 through 9 is 1 through 9. */
  lemma Merged(merged: seq<int>)
    requires multiset(merged) == multiset([1, 2, 3, 4, 5, 6, 7, 8, 9]) && Ascending(merged)
    ensures merged == [1, 2, 3, 4, 5, 6, 7, 8, 9]
  {
    assert RankOrdered(merged, Smallest) by {
      forall i, j | 0 <= i < j < |merged| ensures Ranked(merged, Smallest, i, j) { }
    }
    var b := [1, 2, 3, 4, 5, 6, 7, 8, 9];
    Rises(b);
    Rising(b);
    SameOrder(merged, b, Smallest);
  }

  /** 1 through 9 rises at every step. */
  lemma Rises(b: seq<int>)
    requires b == [1, 2, 3, 4, 5, 6, 7, 8, 9]
    ensures forall k :: 0 <= k < |b| - 1 ==> b[k] < b[k + 1]
  {
  }

  /** A sequence that rises at every step falls strictly in `Smallest` rank. */
  lemma {:induction false} Rising(s: seq<int>)
    requires forall k :: 0 <= k < |s| - 1 ==> s[k] < s[k + 1]
    ensures forall i, j :: 0 <= i < j < |s| ==> Smallest(s[i]) > Smallest(s[j])
    decreases |s|
  {
    if |s| > 1 {
      var t := s[1..];
      Rising(t);
      forall i, j | 0 <= i < j < |s| ensures Smallest(s[i]) > Smallest(s[j]) {
        assert s[j] == t[j - 1];
        if i > 0 {
          assert s[i] == t[i - 1];
        } else if j > 1 {
          assert s[1] == t[0];
        }
      }
    }
  }
}
