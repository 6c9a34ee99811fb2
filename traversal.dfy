/**
 * Graphs as adjacency lists (`std::vector<std::vector<int>>`), reachability, and the
 * queue-driven breadth-first search shared by 10_DataStructures/05_Graph and the tree
 * walk in 01_STL_Containers/04_ContainerAdaptors/QueueExample.cpp.
 */
module Traversal {

  type Adjacency = seq<seq<nat>>

  /** Every listed neighbour is a vertex of the graph. */
  ghost predicate Closed(adj: Adjacency)
  {
    forall u, w :: 0 <= u < |adj| && w in adj[u] ==> w < |adj|
  }

  /** No vertex occurs twice. */
  ghost predicate Distinct(s: seq<nat>)
  {
    forall i, j :: 0 <= i < j < |s| ==> s[i] != s[j]
  }

  /** `p` is a walk along edges of `adj`. */
  ghost predicate IsPath(adj: Adjacency, p: seq<nat>)
  {
    |p| > 0 && p[0] < |adj| && forall i :: 0 < i < |p| ==> Step(adj, p, i)
  }

  /** The `i`-th move of `p` follows an edge. */
  ghost predicate Step(adj: Adjacency, p: seq<nat>, i: nat)
    requires 0 < i < |p|
  {
    p[i - 1] < |adj| && p[i] in adj[p[i - 1]]
  }

  ghost predicate Reachable(adj: Adjacency, s: nat, t: nat)
  {
    exists p :: IsPath(adj, p) && p[0] == s && p[|p| - 1] == t
  }

  lemma ReachRefl(adj: Adjacency, s: nat)
    requires s < |adj|
    ensures Reachable(adj, s, s)
  {
    assert IsPath(adj, [s]);
  }

  /** A neighbour of a reachable vertex is reachable. */
  lemma ReachStep(adj: Adjacency, s: nat, u: nat, v: nat)
    requires Reachable(adj, s, u) && u < |adj| && v in adj[u]
    ensures Reachable(adj, s, v)
  {
    var p :| IsPath(adj, p) && p[0] == s && p[|p| - 1] == u;
    var q := p + [v];
    forall i | 0 < i < |q| ensures Step(adj, q, i) {
      if i < |p| {
        assert Step(adj, p, i);
      }
    }
    assert IsPath(adj, q);
  }

  /** Reachability is transitive through one edge at the front. */
  lemma ReachFirstStep(adj: Adjacency, u: nat, v: nat, t: nat)
    requires u < |adj| && v in adj[u] && Reachable(adj, v, t)
    ensures Reachable(adj, u, t)
  {
    var p :| IsPath(adj, p) && p[0] == v && p[|p| - 1] == t;
    var q := [u] + p;
    forall i | 0 < i < |q| ensures Step(adj, q, i) {
      if i > 1 {
        assert Step(adj, p, i - 1);
      }
    }
    assert IsPath(adj, q);
  }

  /** Only vertices of the graph are reachable. */
  lemma ReachableIsVertex(adj: Adjacency, s: nat, t: nat)
    requires Closed(adj) && Reachable(adj, s, t)
    ensures t < |adj|
  {
    var p :| IsPath(adj, p) && p[0] == s && p[|p| - 1] == t;
    if |p| > 1 {
      assert Step(adj, p, |p| - 1);
    }
  }

  /** A set that holds `s` and is closed under edges holds every vertex reachable from `s`. */
  lemma {:induction false} ClosedHoldsReachable(adj: Adjacency, S: set<nat>, s: nat, t: nat)
    requires s in S && Reachable(adj, s, t)
    requires forall x, w :: x in S && x < |adj| && w in adj[x] ==> w in S
    ensures t in S
  {
    var p :| IsPath(adj, p) && p[0] == s && p[|p| - 1] == t;
    var i := 0;
    while i < |p| - 1
      invariant 0 <= i < |p| && p[i] in S
    {
      assert Step(adj, p, i + 1);
      i := i + 1;
    }
  }

  /** The vertices `0 .. n-1` in order. */
  function Below(n: nat): (r: seq<nat>)
    ensures |r| == n && forall i :: 0 <= i < n ==> r[i] == i
  {
    seq(n, i => i)
  }

  /** The vertices occurring in `s`. */
  ghost function Elems(s: seq<nat>): set<nat>
  {
    set x | x in s
  }

  lemma {:induction false} DistinctCard(s: seq<nat>)
    requires Distinct(s)
    ensures |Elems(s)| == |s|
  {
    if s != [] {
      var p, e := s[..|s| - 1], s[|s| - 1];
      assert s == p + [e];
      assert Distinct(p) by {
        forall i, j | 0 <= i < j < |p| ensures p[i] != p[j] {
          assert p[i] == s[i] && p[j] == s[j];
        }
      }
      DistinctCard(p);
      assert e !in Elems(p);
      assert Elems(s) == Elems(p) + {e};
    }
  }

  /** Pigeonhole: distinct vertices below `n` number at most `n`. */
  lemma DistinctBounded(s: seq<nat>, n: nat)
    requires Distinct(s) && forall x :: x in s ==> x < n
    ensures |s| <= n
  {
    var r := Below(n);
    DistinctCard(s);
    DistinctCard(r);
    forall x | x in s ensures x in r {
      assert r[x] == x;
    }
    var A, B := Elems(s), Elems(r);
    assert A <= B;
    assert B == A + (B - A);
  }

  /**
   * The index of the first vertex among `s[k..j]` that lists `s[j]` as a neighbour, or `j`
   * when none does.
   */
  function ParentFrom(adj: Adjacency, s: seq<nat>, j: nat, k: nat): (p: nat)
    requires j < |s| && k <= j
    ensures k <= p <= j
    ensures p < j ==> s[p] < |adj| && s[j] in adj[s[p]]
    ensures forall i :: k <= i < p ==> !(s[i] < |adj| && s[j] in adj[s[i]])
    decreases j - k
  {
    if k == j then j
    else if s[k] < |adj| && s[j] in adj[s[k]] then k
    else ParentFrom(adj, s, j, k + 1)
  }

  /** The first parent of `s[j]`: the earliest vertex before it that lists it as a neighbour. */
  function Parent(adj: Adjacency, s: seq<nat>, j: nat): nat
    requires j < |s|
  {
    ParentFrom(adj, s, j, 0)
  }

  /** Any earlier vertex listing `s[j]` is no earlier than its first parent. */
  lemma ParentAtMost(adj: Adjacency, s: seq<nat>, j: nat, k: nat)
    requires k < j < |s| && s[k] < |adj| && s[j] in adj[s[k]]
    ensures Parent(adj, s, j) <= k
  {
  }

  /** The first parent of `s[j]` depends only on `s[..j + 1]`. */
  lemma ParentPrefix(adj: Adjacency, s: seq<nat>, t: seq<nat>, j: nat)
    requires j < |s|
    ensures Parent(adj, s + t, j) == Parent(adj, s, j)
  {
    var a, b := Parent(adj, s + t, j), Parent(adj, s, j);
    assert forall i :: 0 <= i <= j ==> (s + t)[i] == s[i];
  }

  /** Every vertex after the first has a neighbour before it, so its first parent is earlier. */
  ghost predicate Linked(adj: Adjacency, s: seq<nat>)
  {
    forall j :: 0 < j < |s| ==> Parent(adj, s, j) < j
  }

  /**
   * First parents never go backwards along `s`: the vertices discovered from `s[0]` come
   * first, then those discovered from `s[1]`, and so on. This is the breadth-first order.
   */
  ghost predicate Layered(adj: Adjacency, s: seq<nat>)
  {
    forall j, j' :: 0 < j < j' < |s| ==> Parent(adj, s, j) <= Parent(adj, s, j')
  }

  /** The depth of `s[j]` in the tree that links each vertex to its first parent. */
  function Depth(adj: Adjacency, s: seq<nat>, j: nat): nat
    requires j < |s|
    decreases j
  {
    if j == 0 then 0
    else if Parent(adj, s, j) < j then Depth(adj, s, Parent(adj, s, j)) + 1
    else 0
  }

  /** In a layered order the depth never decreases. */
  lemma {:induction false} DepthMonotone(adj: Adjacency, s: seq<nat>, i: nat, i': nat)
    requires Linked(adj, s) && Layered(adj, s) && i <= i' < |s|
    ensures Depth(adj, s, i) <= Depth(adj, s, i')
    decreases i'
  {
    if 0 < i < i' {
      DepthMonotone(adj, s, Parent(adj, s, i), Parent(adj, s, i'));
    }
  }

  /** Following first parents back from `s[j]` gives a walk from `s[0]` of `Depth + 1` vertices. */
  lemma {:induction false} DepthPath(adj: Adjacency, s: seq<nat>, j: nat) returns (p: seq<nat>)
    requires Linked(adj, s) && j < |s| && s[0] < |adj|
    ensures IsPath(adj, p) && p[0] == s[0] && p[|p| - 1] == s[j] && |p| == Depth(adj, s, j) + 1
    decreases j
  {
    if j == 0 {
      p := [s[0]];
    } else {
      var k := Parent(adj, s, j);
      var p' := DepthPath(adj, s, k);
      p := p' + [s[j]];
      forall i | 0 < i < |p| ensures Step(adj, p, i) {
        if i < |p'| {
          assert Step(adj, p', i);
        }
      }
    }
  }

  /**
   * No walk from `s[0]` reaches `s[j]` in fewer steps than its depth, when `s` is linked,
   * layered and lists everything reachable once: the depth is the hop distance.
   */
  lemma {:induction false} DepthShortest(adj: Adjacency, s: seq<nat>, p: seq<nat>, j: nat)
    requires Linked(adj, s) && Layered(adj, s) && Distinct(s) && j < |s|
    requires forall v :: Reachable(adj, s[0], v) ==> v in s
    requires IsPath(adj, p) && p[0] == s[0] && p[|p| - 1] == s[j]
    ensures Depth(adj, s, j) <= |p| - 1
    decreases |p|
  {
    if |p| == 1 {
      assert s[j] == s[0];
    } else {
      var p' := p[..|p| - 1];
      forall i | 0 < i < |p'| ensures Step(adj, p', i) {
        assert Step(adj, p, i);
      }
      assert IsPath(adj, p');
      var y := p'[|p'| - 1];
      assert Reachable(adj, s[0], y);
      var i :| 0 <= i < |s| && s[i] == y;
      DepthShortest(adj, s, p', i);
      assert Step(adj, p, |p| - 1);
      if j > 0 {
        if i < j {
          ParentAtMost(adj, s, j, i);
        }
        DepthMonotone(adj, s, Parent(adj, s, j), i);
      }
    }
  }

  /**
   * The state of breadth-first search: `order` is output, `queue` waits, and together they
   * are the discovered vertices, which are exactly those marked in `seen`. All of them are
   * distinct and reachable from `start`; each but `start` has its first parent among the
   * output vertices, and first parents never go backwards.
   */
  ghost predicate Frontier(adj: Adjacency, start: nat, order: seq<nat>, queue: seq<nat>, seen: seq<bool>)
  {
    var disc := order + queue;
    |seen| == |adj| && |disc| > 0 && disc[0] == start && Distinct(disc) &&
    (forall i :: 0 <= i < |disc| ==> disc[i] < |adj| && Reachable(adj, start, disc[i])) &&
    (forall v :: 0 <= v < |adj| ==> (seen[v] <==> v in disc)) &&
    Tree(adj, disc, |order|)
  }

  /** `disc` is linked and layered, and every first parent is among its first `m` vertices. */
  ghost predicate Tree(adj: Adjacency, disc: seq<nat>, m: nat)
  {
    Linked(adj, disc) && Layered(adj, disc) && forall j :: 0 < j < |disc| ==> Parent(adj, disc, j) < m
  }

  /** The neighbours of the first `m` output vertices are all discovered. */
  ghost predicate Explored(adj: Adjacency, order: seq<nat>, m: nat, disc: seq<nat>)
    requires m <= |order| && forall i :: 0 <= i < |order| ==> order[i] < |adj|
  {
    forall i, w :: 0 <= i < m && w in adj[order[i]] ==> w in disc
  }

  /** Moving the queue front to the output keeps the neighbours of earlier output vertices discovered. */
  lemma ExploredPop(adj: Adjacency, order: seq<nat>, queue: seq<nat>)
    requires queue != [] && queue[0] < |adj| && forall i :: 0 <= i < |order| ==> order[i] < |adj|
    requires Explored(adj, order, |order|, order + queue)
    ensures forall i :: 0 <= i < |order + [queue[0]]| ==> (order + [queue[0]])[i] < |adj|
    ensures Explored(adj, order + [queue[0]], |order|, order + [queue[0]] + queue[1..])
  {
    var o := order + [queue[0]];
    assert order + queue == o + queue[1..];
    forall i, w | 0 <= i < |order| && w in adj[o[i]] ensures w in o + queue[1..] {
      assert o[i] == order[i];
    }
  }

  /** Discovering one more vertex keeps every discovered vertex discovered. */
  lemma ExploredPush(adj: Adjacency, order: seq<nat>, queue: seq<nat>, v: nat)
    requires order != [] && forall i :: 0 <= i < |order| ==> order[i] < |adj|
    requires Explored(adj, order, |order| - 1, order + queue)
    ensures Explored(adj, order, |order| - 1, order + (queue + [v]))
  {
    assert order + (queue + [v]) == (order + queue) + [v];
  }

  /** Once the last output vertex's neighbours are discovered, all output vertices are explored. */
  lemma ExploredLast(adj: Adjacency, order: seq<nat>, queue: seq<nat>)
    requires order != [] && forall i :: 0 <= i < |order| ==> order[i] < |adj|
    requires Explored(adj, order, |order| - 1, order + queue)
    requires forall w :: w in adj[order[|order| - 1]][..|adj[order[|order| - 1]]|] ==> w in order + queue
    ensures Explored(adj, order, |order|, order + queue)
  {
    var nbrs := adj[order[|order| - 1]];
    assert nbrs[..|nbrs|] == nbrs;
  }

  /** Popping the queue front onto the output keeps the state. */
  lemma PopStep(adj: Adjacency, start: nat, order: seq<nat>, queue: seq<nat>, seen: seq<bool>)
    requires Frontier(adj, start, order, queue, seen) && queue != []
    ensures Frontier(adj, start, order + [queue[0]], queue[1..], seen)
  {
    assert order + queue == (order + [queue[0]]) + queue[1..];
  }

  /**
   * A vertex `v` not yet discovered, found in the list of the last output vertex, has that
   * vertex as its first parent: the earlier output vertices list only discovered vertices.
   */
  lemma NewChild(adj: Adjacency, order: seq<nat>, queue: seq<nat>, v: nat)
    requires order != [] && forall i :: 0 <= i < |order| ==> order[i] < |adj|
    requires Explored(adj, order, |order| - 1, order + queue)
    requires v !in order + queue && v in adj[order[|order| - 1]]
    ensures Parent(adj, order + (queue + [v]), |order| + |queue|) == |order| - 1
  {
    var s := order + (queue + [v]);
    forall i | 0 <= i < |order| - 1 ensures !(s[i] < |adj| && v in adj[s[i]]) {
      assert s[i] == order[i];
    }
    assert s[|order| - 1] == order[|order| - 1];
    assert s[|order| + |queue|] == v;
  }

  /** Discovering an unseen neighbour `v` of the last output vertex keeps the state. */
  lemma PushStep(adj: Adjacency, start: nat, order: seq<nat>, queue: seq<nat>, seen: seq<bool>, v: nat)
    requires Frontier(adj, start, order, queue, seen) && order != []
    requires forall i :: 0 <= i < |order| ==> order[i] < |adj|
    requires Explored(adj, order, |order| - 1, order + queue)
    requires v < |adj| && v in adj[order[|order| - 1]] && !seen[v]
    ensures Frontier(adj, start, order, queue + [v], seen[v := true])
  {
    var disc := order + queue;
    var disc' := order + (queue + [v]);
    assert disc' == disc + [v];
    var u := order[|order| - 1];
    assert u == disc[|order| - 1];
    ReachStep(adj, start, u, v);
    PushTree(adj, order, queue, v);
  }

  /** Discovering `v` from the last output vertex keeps the discovered vertices a layered tree. */
  lemma PushTree(adj: Adjacency, order: seq<nat>, queue: seq<nat>, v: nat)
    requires order != [] && forall i :: 0 <= i < |order| ==> order[i] < |adj|
    requires Explored(adj, order, |order| - 1, order + queue)
    requires v !in order + queue && v in adj[order[|order| - 1]]
    requires Tree(adj, order + queue, |order|)
    ensures Tree(adj, order + (queue + [v]), |order|)
  {
    var disc := order + queue;
    var disc' := order + (queue + [v]);
    assert disc' == disc + [v];
    forall j | 0 < j < |disc| ensures Parent(adj, disc', j) == Parent(adj, disc, j) {
      ParentPrefix(adj, disc, [v], j);
    }
    NewChild(adj, order, queue, v);
  }

  /** The number of unmarked vertices. */
  function Unvisited(vis: seq<bool>): (c: nat)
    ensures c <= |vis|
  {
    if vis == [] then 0 else Unvisited(vis[..|vis| - 1]) + (if vis[|vis| - 1] then 0 else 1)
  }

  /** Marking more vertices leaves fewer unvisited; marking a new one leaves strictly fewer. */
  lemma {:induction false} UnvisitedShrinks(a: seq<bool>, b: seq<bool>)
    requires |a| == |b| && forall i :: 0 <= i < |a| && a[i] ==> b[i]
    ensures Unvisited(b) <= Unvisited(a)
    ensures (exists i :: 0 <= i < |a| && !a[i] && b[i]) ==> Unvisited(b) < Unvisited(a)
  {
    if a != [] {
      var a', b' := a[..|a| - 1], b[..|b| - 1];
      UnvisitedShrinks(a', b');
      if exists i :: 0 <= i < |a| && !a[i] && b[i] {
        var i :| 0 <= i < |a| && !a[i] && b[i];
        if i < |a'| {
          assert !a'[i] && b'[i];
        }
      }
    }
  }

  /** `n` unmarked vertices. */
  function Unmarked(n: nat): (r: seq<bool>)
    ensures |r| == n && forall v :: 0 <= v < n ==> !r[v]
  {
    seq(n, _ => false)
  }

  /** `seen` with the vertices of `s` marked as well. */
  function Mark(seen: seq<bool>, s: seq<nat>): (r: seq<bool>)
    ensures |r| == |seen| && forall v :: 0 <= v < |seen| ==> (r[v] <==> seen[v] || v in s)
  {
    seq(|seen|, v requires 0 <= v < |seen| => seen[v] || v in s)
  }

  lemma DistinctCons(x: nat, s: seq<nat>)
    requires Distinct(s) && x !in s
    ensures Distinct([x] + s)
  {
    var t := [x] + s;
    forall i, j | 0 <= i < j < |t| ensures t[i] != t[j] {
      assert t[j] == s[j - 1];
      if i > 0 {
        assert t[i] == s[i - 1];
      }
    }
  }

  /** A marking that adds exactly the vertices of `s` to `seen` is `Mark(seen, s)`. */
  lemma MarkExactly(seen: seq<bool>, now: seq<bool>, s: seq<nat>)
    requires |now| == |seen| && forall v :: 0 <= v < |seen| ==> (now[v] <==> seen[v] || v in s)
    ensures now == Mark(seen, s)
  {
  }

  /**
   * The vertices the inner loop of `bfs` enqueues from the list `nbrs` when `seen` is marked
   * on entry: each neighbour unmarked on entry, once, in list order.
   */
  function NewNeighbours(nbrs: seq<nat>, seen: seq<bool>): (r: seq<nat>)
    ensures forall w :: w in r ==> w in nbrs && w < |seen| && !seen[w]
    ensures forall w :: w in nbrs && w < |seen| && !seen[w] ==> w in r
    ensures Distinct(r)
    decreases |nbrs|
  {
    if nbrs == [] then []
    else if nbrs[0] < |seen| && !seen[nbrs[0]] then
      var rest := NewNeighbours(nbrs[1..], seen[nbrs[0] := true]);
      assert nbrs[0] !in rest;
      DistinctCons(nbrs[0], rest);
      [nbrs[0]] + rest
    else
      NewNeighbours(nbrs[1..], seen)
  }

  /**
   * Breadth-first order, defined without a loop: output the front of the queue, then go on
   * with the rest of the queue followed by its unmarked neighbours, which are now marked.
   */
  function BfsFrom(adj: Adjacency, queue: seq<nat>, seen: seq<bool>): seq<nat>
    requires Closed(adj) && |seen| == |adj| && forall v :: v in queue ==> v < |adj|
    decreases Unvisited(seen), |queue|
  {
    if queue == [] then []
    else
      assert queue[0] in queue;
      var found := NewNeighbours(adj[queue[0]], seen);
      var seen' := Mark(seen, found);
      assert found != [] ==> found[0] in found;
      assert forall v :: v in queue[1..] + found ==> v in queue[1..] || v in found;
      assert forall v :: v in queue[1..] ==> v in queue;
      UnvisitedShrinks(seen, seen');
      [queue[0]] + BfsFrom(adj, queue[1..] + found, seen')
  }

  /** The order `bfs(start)` prints: the search from `start` with only `start` marked. */
  function BfsOrder(adj: Adjacency, start: nat): seq<nat>
    requires Closed(adj) && start < |adj|
  {
    BfsFrom(adj, [start], Mark(Unmarked(|adj|), [start]))
  }

  /** One step of the reference order, with the enqueued vertices and new marks named. */
  lemma BfsUnfold(adj: Adjacency, u: nat, rest: seq<nat>, seen: seq<bool>, found: seq<nat>, seen': seq<bool>)
    requires Closed(adj) && |seen| == |adj| && u < |adj| && forall v :: v in rest ==> v < |adj|
    requires NewNeighbours(adj[u], seen) == found && Mark(seen, found) == seen'
    ensures forall v :: v in rest + found ==> v < |adj|
    ensures BfsFrom(adj, [u] + rest, seen) == [u] + BfsFrom(adj, rest + found, seen')
  {
    assert ([u] + rest)[0] == u && ([u] + rest)[1..] == rest;
  }

  /** One step of the reference order: printing `u` and enqueueing its unmarked neighbours. */
  lemma BfsReference(adj: Adjacency, start: nat, order: seq<nat>, u: nat, rest: seq<nat>, seen: seq<bool>,
                     q: seq<nat>, seen': seq<bool>)
    requires Closed(adj) && start < |adj| && |seen| == |adj| && u < |adj| && forall v :: v in rest ==> v < |adj|
    requires order + BfsFrom(adj, [u] + rest, seen) == BfsOrder(adj, start)
    requires q == rest + NewNeighbours(adj[u], seen) && seen' == Mark(seen, NewNeighbours(adj[u], seen))
    ensures forall v :: v in q ==> v < |adj|
    ensures (order + [u]) + BfsFrom(adj, q, seen') == BfsOrder(adj, start)
  {
    BfsUnfold(adj, u, rest, seen, NewNeighbours(adj[u], seen), seen');
    ConcatAssoc(order, [u], BfsFrom(adj, q, seen'));
  }

  lemma ConcatAssoc(a: seq<nat>, b: seq<nat>, c: seq<nat>)
    ensures a + (b + c) == (a + b) + c
  {
  }

  /**
   * The invariant of the outer loop of `bfs`: the search state, every neighbour of an output
   * vertex discovered, and the output so far followed by the reference order from the
   * current queue and marks is the reference order from `start`.
   */
  ghost predicate Searching(adj: Adjacency, start: nat, order: seq<nat>, q: seq<nat>, seen: seq<bool>)
  {
    Closed(adj) && start < |adj| && Frontier(adj, start, order, q, seen) &&
    (forall i :: 0 <= i < |order| ==> order[i] < |adj|) &&
    Explored(adj, order, |order|, order + q) &&
    (forall v :: v in q ==> v < |adj|) &&
    order + BfsFrom(adj, q, seen) == BfsOrder(adj, start)
  }

  /** Popping the queue front sets up the inner loop, and leaves room for it in the output. */
  lemma BfsPop(adj: Adjacency, start: nat, order: seq<nat>, q: seq<nat>, seen: seq<bool>)
    requires Searching(adj, start, order, q, seen) && q != []
    ensures |order| < |adj| && q[0] < |adj|
    ensures Frontier(adj, start, order + [q[0]], q[1..], seen)
    ensures forall i :: 0 <= i < |order + [q[0]]| ==> (order + [q[0]])[i] < |adj|
    ensures Explored(adj, order + [q[0]], |order|, order + [q[0]] + q[1..])
  {
    DistinctBounded(order + q, |adj|);
    PopStep(adj, start, order, q, seen);
    assert (order + q)[|order|] == q[0];
    ExploredPop(adj, order, q);
  }

  /** The inner loop's result puts the outer loop back in its invariant, one vertex further. */
  lemma BfsStep(adj: Adjacency, start: nat, order: seq<nat>, queue: seq<nat>, seen: seq<bool>,
                rest: seq<nat>, q: seq<nat>, now: seq<bool>)
    requires Searching(adj, start, order, queue, seen) && queue != [] && queue[0] < |adj|
    requires rest == queue[1..] && q == rest + NewNeighbours(adj[queue[0]], seen)
    requires |now| == |seen| && forall v :: 0 <= v < |seen| ==> (now[v] <==> seen[v] || v in q[|rest|..])
    requires Frontier(adj, start, order + [queue[0]], q, now)
    requires forall i :: 0 <= i < |order + [queue[0]]| ==> (order + [queue[0]])[i] < |adj|
    requires Explored(adj, order + [queue[0]], |order + [queue[0]]|, order + [queue[0]] + q)
    ensures Searching(adj, start, order + [queue[0]], q, now)
  {
    var u := queue[0];
    assert queue == [u] + rest;
    assert forall v :: v in rest ==> v in queue;
    assert q[|rest|..] == NewNeighbours(adj[u], seen);
    MarkExactly(seen, now, NewNeighbours(adj[u], seen));
    BfsReference(adj, start, order, u, rest, seen, q, now);
  }

  /**
   * `bfs(start)`: pops the queue front, outputs it, and enqueues each unvisited neighbour,
   * marking it visited when it is enqueued. The output is the reference order `BfsOrder`.
   * It starts at `start` and lists every vertex reachable from `start` exactly once and
   * nothing else; every later vertex has a first parent before it, and first parents never
   * go backwards, so the vertices come out by nondecreasing hop distance (`Depth`).
   */
  method Bfs(adj: Adjacency, start: nat) returns (order: seq<nat>)
    requires Closed(adj) && start < |adj|
    ensures order == BfsOrder(adj, start)
    ensures |order| > 0 && order[0] == start && Distinct(order)
    ensures forall i :: 0 <= i < |order| ==> order[i] < |adj|
    ensures forall v :: v in order <==> Reachable(adj, start, v)
    ensures Linked(adj, order) && Layered(adj, order)
  {
    var n := |adj|;
    var vis := new bool[n](_ => false);
    var q: seq<nat> := [start];
    vis[start] := true;
    order := [];
    ReachRefl(adj, start);
    assert vis[..] == Mark(Unmarked(n), [start]);
    assert Frontier(adj, start, order, q, vis[..]);
    assert Searching(adj, start, order, q, vis[..]);
    while q != []
      invariant vis.Length == n && Searching(adj, start, order, q, vis[..])
      decreases n - |order|
    {
      BfsPop(adj, start, order, q, vis[..]);
      var u := q[0];
      ghost var seen, queue, printed := vis[..], q, order;
      q := q[1..];
      ghost var rest := q;
      order := order + [u];
      q := EnqueueNeighbours(adj, start, order, q, vis);
      BfsStep(adj, start, printed, queue, seen, rest, q, vis[..]);
    }
    assert order + q == order;
    BfsDone(adj, start, order, vis[..]);
  }

  /**
   * The inner loop of `bfs`: the vertices enqueued are exactly the unvisited neighbours of
   * the vertex just output, in list order, and they are the only vertices newly marked;
   * afterwards all its neighbours are discovered.
   */
  method EnqueueNeighbours(adj: Adjacency, start: nat, order: seq<nat>, queue: seq<nat>, vis: array<bool>)
    returns (q: seq<nat>)
    requires Closed(adj) && order != [] && vis.Length == |adj|
    requires Frontier(adj, start, order, queue, vis[..])
    requires forall i :: 0 <= i < |order| ==> order[i] < |adj|
    requires Explored(adj, order, |order| - 1, order + queue)
    modifies vis
    ensures q == queue + NewNeighbours(adj[order[|order| - 1]], old(vis[..]))
    ensures forall v :: 0 <= v < vis.Length ==> (vis[v] <==> old(vis[v]) || v in q[|queue|..])
    ensures Frontier(adj, start, order, q, vis[..])
    ensures Explored(adj, order, |order|, order + q)
  {
    ghost var seen := vis[..];
    q := queue;
    var nbrs := adj[order[|order| - 1]];
    assert nbrs[..0] == [] && nbrs[0..] == nbrs;
    for j := 0 to |nbrs|
      invariant Scanned(adj, start, order, queue, seen, nbrs, j, q, vis[..])
    {
      q := EnqueueIfUnvisited(adj, start, order, queue, seen, nbrs, j, q, vis);
    }
    ScanDone(adj, start, order, queue, seen, nbrs, q, vis[..]);
  }

  /**
   * The state of the inner loop of `bfs` over the list `nbrs` of the last output vertex,
   * with `j` entries done: the search state holds, the neighbours seen so far are all
   * discovered, and the vertices enqueued so far followed by those the rest of the list
   * will enqueue are the ones the whole list enqueues from the marks `seen` on entry.
   */
  ghost predicate Scanned(adj: Adjacency, start: nat, order: seq<nat>, queue: seq<nat>, seen: seq<bool>,
                          nbrs: seq<nat>, j: nat, q: seq<nat>, now: seq<bool>)
  {
    order != [] && (forall i :: 0 <= i < |order| ==> order[i] < |adj|) && j <= |nbrs| &&
    Frontier(adj, start, order, q, now) && Explored(adj, order, |order| - 1, order + q) &&
    (forall w :: w in nbrs[..j] ==> w in order + q) &&
    |queue| <= |q| && q[..|queue|] == queue &&
    q[|queue|..] + NewNeighbours(nbrs[j..], now) == NewNeighbours(nbrs, seen)
  }

  /** `if (!vis[v]) { vis[v] = true; q.push(v); }` for the `j`-th neighbour `v`. */
  method EnqueueIfUnvisited(adj: Adjacency, start: nat, order: seq<nat>, queue: seq<nat>, ghost seen: seq<bool>,
                            nbrs: seq<nat>, j: nat, q: seq<nat>, vis: array<bool>)
    returns (q': seq<nat>)
    requires Closed(adj) && vis.Length == |adj| && j < |nbrs|
    requires Scanned(adj, start, order, queue, seen, nbrs, j, q, vis[..])
    requires nbrs == adj[order[|order| - 1]]
    modifies vis
    ensures Scanned(adj, start, order, queue, seen, nbrs, j + 1, q', vis[..])
  {
    var v := nbrs[j];
    assert v in adj[order[|order| - 1]];
    assert nbrs[j..][0] == v && nbrs[j..][1..] == nbrs[j + 1..];
    assert nbrs[..j + 1] == nbrs[..j] + [v];
    q' := q;
    if !vis[v] {
      PushStep(adj, start, order, q, vis[..], v);
      ExploredPush(adj, order, q, v);
      vis[v] := true;
      q' := q + [v];
      assert q'[|queue|..] == q[|queue|..] + [v];
      assert q'[..|queue|] == q[..|queue|];
    }
  }

  /** After the whole list, the loop state gives what `EnqueueNeighbours` promises. */
  lemma ScanDone(adj: Adjacency, start: nat, order: seq<nat>, queue: seq<nat>, seen: seq<bool>,
                 nbrs: seq<nat>, q: seq<nat>, now: seq<bool>)
    requires Closed(adj) && Frontier(adj, start, order, queue, seen)
    requires Scanned(adj, start, order, queue, seen, nbrs, |nbrs|, q, now)
    requires nbrs == adj[order[|order| - 1]]
    ensures q == queue + NewNeighbours(nbrs, seen)
    ensures forall v :: 0 <= v < |now| ==> (now[v] <==> seen[v] || v in q[|queue|..])
    ensures Frontier(adj, start, order, q, now)
    ensures Explored(adj, order, |order|, order + q)
  {
    assert nbrs[|nbrs|..] == [];
    assert q == q[..|queue|] + q[|queue|..];
    assert nbrs[..|nbrs|] == nbrs;
    ExploredLast(adj, order, q);
    forall v | 0 <= v < |now| ensures now[v] <==> seen[v] || v in q[|queue|..] {
      assert v in order + q <==> v in order + queue || v in q[|queue|..];
    }
  }

  /**
   * With the queue empty, the output is closed under edges and so holds everything
   * reachable; it keeps its first-parent links and layers.
   */
  lemma BfsDone(adj: Adjacency, start: nat, order: seq<nat>, seen: seq<bool>)
    requires Frontier(adj, start, order, [], seen)
    requires forall i :: 0 <= i < |order| ==> order[i] < |adj|
    requires Explored(adj, order, |order|, order)
    ensures forall v :: v in order <==> Reachable(adj, start, v)
    ensures Linked(adj, order) && Layered(adj, order)
  {
    assert order + [] == order;
    forall v | Reachable(adj, start, v) ensures v in order {
      forall x, w | x in Elems(order) && x < |adj| && w in adj[x] ensures w in Elems(order) {
        var i :| 0 <= i < |order| && order[i] == x;
      }
      ClosedHoldsReachable(adj, Elems(order), start, v);
    }
  }
}
