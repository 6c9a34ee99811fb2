/**
 * Undirected adjacency-list graph with breadth- and depth-first traversal
 * (10_DataStructures/05_Graph/GraphImplementation.cpp).
 *
 * Vertices are `0 .. n-1`; `adj` is the vector of neighbour lists, extended in place by
 * `addEdge`. Traversals return the vertices in the order the C++ prints them.
 */
module GraphImpl {
  import opened Traversal

  /** Each vertex is listed in `adj[u]` as often as `u` is listed in its own list. */
  ghost predicate Symmetric(adj: Adjacency)
  {
    forall u, w :: 0 <= u < |adj| && 0 <= w < |adj| ==> multiset(adj[u])[w] == multiset(adj[w])[u]
  }

  /** The neighbour lists after `addEdge(u, v)`: `v` appended to `adj[u]`, then `u` to `adj[v]`. */
  function WithEdge(adj: Adjacency, u: nat, v: nat): Adjacency
    requires u < |adj| && v < |adj|
  {
    var a := adj[u := adj[u] + [v]];
    a[v := a[v] + [u]]
  }

  lemma CountAppend(s: seq<nat>, e: nat, w: nat)
    ensures multiset(s + [e])[w] == multiset(s)[w] + (if w == e then 1 else 0)
  {
    assert multiset(s + [e]) == multiset(s) + multiset{e};
  }

  /**
   * Adding an edge keeps every neighbour a vertex and the lists symmetric: it adds one
   * `v` to `u`'s list and one `u` to `v`'s (two `u`s to its own list for a self-loop).
   */
  lemma AddEdgeKeepsInvariant(adj: Adjacency, u: nat, v: nat)
    requires Closed(adj) && Symmetric(adj) && u < |adj| && v < |adj|
    ensures |WithEdge(adj, u, v)| == |adj|
    ensures Closed(WithEdge(adj, u, v)) && Symmetric(WithEdge(adj, u, v))
    ensures u != v ==> WithEdge(adj, u, v)[u] == adj[u] + [v] && WithEdge(adj, u, v)[v] == adj[v] + [u]
    ensures u == v ==> WithEdge(adj, u, v)[u] == adj[u] + [v, u]
    ensures forall x :: 0 <= x < |adj| && x != u && x != v ==> WithEdge(adj, u, v)[x] == adj[x]
  {
    var r := WithEdge(adj, u, v);
    if u == v {
      assert r[u] == adj[u] + [v] + [u];
    }
    forall x, w | 0 <= x < |adj| && 0 <= w < |adj|
      ensures multiset(r[x])[w] == multiset(r[w])[x]
    {
      CountAfterEdge(adj, u, v, x, w);
      CountAfterEdge(adj, u, v, w, x);
      assert multiset(adj[x])[w] == multiset(adj[w])[x];
    }
  }

  /** How often `w` is listed in `x`'s list after `addEdge(u, v)`. */
  lemma CountAfterEdge(adj: Adjacency, u: nat, v: nat, x: nat, w: nat)
    requires u < |adj| && v < |adj| && x < |adj|
    ensures multiset(WithEdge(adj, u, v)[x])[w] ==
      multiset(adj[x])[w] + (if x == u && w == v then 1 else 0) + (if x == v && w == u then 1 else 0)
  {
    if x == u && u == v {
      assert WithEdge(adj, u, v)[x] == adj[u] + [v] + [u];
      CountAppend(adj[u], v, w);
      CountAppend(adj[u] + [v], u, w);
    } else if x == u {
      CountAppend(adj[u], v, w);
    } else if x == v {
      CountAppend(adj[v], u, w);
    }
  }

  /** Output marked before a call and output of vertices unmarked before it do not overlap. */
  lemma JoinDistinct(out: seq<nat>, sub: seq<nat>, marked: seq<bool>)
    requires Distinct(out) && Distinct(sub)
    requires forall i :: 0 <= i < |out| ==> out[i] < |marked| && marked[out[i]]
    requires forall i :: 0 <= i < |sub| ==> sub[i] < |marked| && !marked[sub[i]]
    ensures Distinct(out + sub)
  {
    var joined := out + sub;
    forall a, b | 0 <= a < b < |joined| ensures joined[a] != joined[b] {
      if a < |out| && b >= |out| {
        assert joined[a] == out[a] && joined[b] == sub[b - |out|];
      } else if a >= |out| {
        assert joined[a] == sub[a - |out|] && joined[b] == sub[b - |out|];
      } else {
        assert joined[a] == out[a] && joined[b] == out[b];
      }
    }
  }

  /**
   * What a depth-first call from `u` achieves, marks `entry` before and `now` after: `out`
   * starts at `u`, has no repeats, holds only vertices unmarked before and reachable from
   * `u`, the newly marked vertices are exactly those of `out`, and every vertex of `out`
   * after `u` is a neighbour of one before it.
   */
  ghost predicate Grown(adj: Adjacency, u: nat, entry: seq<bool>, now: seq<bool>, out: seq<nat>)
  {
    |entry| == |adj| && |now| == |adj| && |out| > 0 && out[0] == u && Distinct(out) &&
    (forall i :: 0 <= i < |out| ==> out[i] < |adj| && !entry[out[i]] && Reachable(adj, u, out[i])) &&
    (forall x :: 0 <= x < |now| ==> (now[x] <==> entry[x] || x in out)) &&
    Linked(adj, out)
  }

  /** Every neighbour of `out[lo..]` is marked in `now`. */
  ghost predicate ClosedFrom(adj: Adjacency, out: seq<nat>, lo: nat, now: seq<bool>)
  {
    forall i :: lo <= i < |out| ==> NeighboursMarked(adj, out[i], now)
  }

  ghost predicate NeighboursMarked(adj: Adjacency, x: nat, now: seq<bool>)
  {
    x < |adj| ==> forall w :: w in adj[x] ==> w < |now| && now[w]
  }

  /** Appending the output of a nested call on an unmarked neighbour `v` of `u`. */
  lemma CallStep(adj: Adjacency, u: nat, v: nat, entry: seq<bool>, before: seq<bool>, after: seq<bool>,
                 out: seq<nat>, sub: seq<nat>)
    requires Grown(adj, u, entry, before, out) && ClosedFrom(adj, out, 1, before)
    requires u < |adj| && v in adj[u] && v < |adj| && !before[v]
    requires Grown(adj, v, before, after, sub) && ClosedFrom(adj, sub, 0, after)
    ensures Grown(adj, u, entry, after, out + sub) && ClosedFrom(adj, out + sub, 1, after)
    ensures forall x :: 0 <= x < |before| && before[x] ==> after[x]
  {
    forall i | 0 <= i < |sub| ensures Reachable(adj, u, sub[i]) {
      ReachFirstStep(adj, u, v, sub[i]);
    }
    JoinDistinct(out, sub, before);
    JoinLinked(adj, out, sub);
    var joined := out + sub;
    forall i | 0 <= i < |joined|
      ensures joined[i] < |adj| && !entry[joined[i]] && Reachable(adj, u, joined[i])
    {
      if i >= |out| {
        assert joined[i] == sub[i - |out|];
        assert before[sub[i - |out|]] <==> entry[sub[i - |out|]] || sub[i - |out|] in out;
      }
    }
    forall i | 1 <= i < |joined| ensures NeighboursMarked(adj, joined[i], after) {
      if i >= |out| {
        assert joined[i] == sub[i - |out|];
        assert NeighboursMarked(adj, sub[i - |out|], after);
      } else {
        assert joined[i] == out[i];
        assert NeighboursMarked(adj, out[i], before);
      }
    }
  }

  /**
   * Appending the output of a call on a neighbour of `out[0]` keeps every vertex after the
   * first a neighbour of an earlier one.
   */
  lemma JoinLinked(adj: Adjacency, out: seq<nat>, sub: seq<nat>)
    requires Linked(adj, out) && Linked(adj, sub) && out != [] && sub != []
    requires out[0] < |adj| && sub[0] in adj[out[0]]
    ensures Linked(adj, out + sub)
  {
    var joined := out + sub;
    forall j | 0 < j < |joined| ensures Parent(adj, joined, j) < j {
      if j < |out| {
        ParentPrefix(adj, out, sub, j);
      } else if j == |out| {
        ParentAtMost(adj, joined, j, 0);
      } else {
        var p := Parent(adj, sub, j - |out|);
        assert joined[|out| + p] == sub[p] && joined[j] == sub[j - |out|];
        ParentAtMost(adj, joined, j, |out| + p);
      }
    }
  }

  /**
   * Depth-first order, defined without the marks array: `dfsUtil(u)` outputs `u` and then
   * what the scan of `u`'s list outputs with `u` marked.
   */
  function DfsVisit(adj: Adjacency, u: nat, seen: seq<bool>): seq<nat>
    requires Closed(adj) && |seen| == |adj| && u < |adj| && !seen[u]
    decreases Unvisited(seen), 0, 0
  {
    UnvisitedShrinks(seen, seen[u := true]);
    assert forall i :: 0 <= i < |adj[u]| ==> adj[u][i] in adj[u];
    [u] + DfsList(adj, adj[u], seen[u := true])
  }

  /**
   * The scan of a neighbour list: a marked neighbour is skipped, an unmarked one is visited
   * and the rest of the list is scanned with the vertices that visit output marked.
   */
  function DfsList(adj: Adjacency, nbrs: seq<nat>, seen: seq<bool>): seq<nat>
    requires Closed(adj) && |seen| == |adj| && forall i :: 0 <= i < |nbrs| ==> nbrs[i] < |adj|
    decreases Unvisited(seen), 1, |nbrs|
  {
    if nbrs == [] then []
    else if seen[nbrs[0]] then DfsList(adj, nbrs[1..], seen)
    else
      var out := DfsVisit(adj, nbrs[0], seen);
      UnvisitedShrinks(seen, Mark(seen, out));
      out + DfsList(adj, nbrs[1..], Mark(seen, out))
  }

  /** The order `dfs(start)` prints: a visit of `start` with nothing marked. */
  function DfsOrder(adj: Adjacency, start: nat): seq<nat>
    requires Closed(adj) && start < |adj|
  {
    DfsVisit(adj, start, Unmarked(|adj|))
  }

  /** `n` vertices with empty neighbour lists. */
  function NoEdges(n: nat): (adj: Adjacency)
    ensures |adj| == n && forall u :: 0 <= u < n ==> adj[u] == []
  {
    seq(n, _ => [])
  }

  /**
   * The state of `dfsUtil(u)`'s loop over `adj[u]` after `j` entries, with marks `entry` on
   * entry and `now` at present: what the calls so far achieve, every neighbour scanned so far
   * marked, and the output so far followed by what the rest of the scan outputs is the
   * reference visit.
   */
  ghost predicate DfsScan(adj: Adjacency, u: nat, entry: seq<bool>, j: nat, now: seq<bool>, out: seq<nat>)
  {
    Closed(adj) && u < |adj| && j <= |adj[u]| && |entry| == |adj| && !entry[u] &&
    Grown(adj, u, entry, now, out) && ClosedFrom(adj, out, 1, now) &&
    (forall i :: 0 <= i < j ==> adj[u][i] < |now| && now[adj[u][i]]) &&
    (forall i :: 0 <= i < |adj[u][j..]| ==> adj[u][j..][i] < |adj|) &&
    out + DfsList(adj, adj[u][j..], now) == DfsVisit(adj, u, entry)
  }

  /** Marking `u` and printing it starts the scan of its list. */
  lemma DfsStart(adj: Adjacency, u: nat, entry: seq<bool>, now: seq<bool>)
    requires Closed(adj) && u < |adj| && |entry| == |adj| && !entry[u] && now == entry[u := true]
    ensures DfsScan(adj, u, entry, 0, now, [u])
  {
    ReachRefl(adj, u);
    var nbrs := adj[u];
    assert nbrs[0..] == nbrs;
    forall i | 0 <= i < |nbrs| ensures nbrs[i] < |adj| {
      assert nbrs[i] in adj[u];
    }
  }

  /** A neighbour already marked is skipped. */
  lemma DfsSkip(adj: Adjacency, u: nat, entry: seq<bool>, j: nat, now: seq<bool>, out: seq<nat>)
    requires DfsScan(adj, u, entry, j, now, out) && j < |adj[u]| && adj[u][j] < |now| && now[adj[u][j]]
    ensures DfsScan(adj, u, entry, j + 1, now, out)
  {
    var nbrs := adj[u];
    assert nbrs[j..][0] == nbrs[j] && nbrs[j..][1..] == nbrs[j + 1..];
  }

  /** A call on an unmarked neighbour appends the reference visit of that neighbour. */
  lemma DfsCall(adj: Adjacency, u: nat, entry: seq<bool>, j: nat, before: seq<bool>, after: seq<bool>,
                out: seq<nat>, sub: seq<nat>)
    requires DfsScan(adj, u, entry, j, before, out) && j < |adj[u]|
    requires adj[u][j] < |adj| && !before[adj[u][j]]
    requires sub == DfsVisit(adj, adj[u][j], before)
    requires Grown(adj, adj[u][j], before, after, sub) && ClosedFrom(adj, sub, 0, after)
    ensures DfsScan(adj, u, entry, j + 1, after, out + sub)
  {
    var nbrs := adj[u];
    var v := nbrs[j];
    assert v in adj[u];
    assert nbrs[j..][0] == v && nbrs[j..][1..] == nbrs[j + 1..];
    CallStep(adj, u, v, entry, before, after, out, sub);
    assert sub[0] == v;
    forall i | 0 <= i < j + 1 ensures nbrs[i] < |after| && after[nbrs[i]] {
      if i < j {
        assert before[nbrs[i]];
      }
    }
    DfsCallOrder(adj, nbrs[j..], before, after, out, sub, DfsVisit(adj, u, entry));
  }

  /** The reference scan, continued past a visited neighbour. */
  lemma DfsCallOrder(adj: Adjacency, nbrs: seq<nat>, before: seq<bool>, after: seq<bool>,
                     out: seq<nat>, sub: seq<nat>, visit: seq<nat>)
    requires Closed(adj) && |before| == |adj| && nbrs != [] && forall i :: 0 <= i < |nbrs| ==> nbrs[i] < |adj|
    requires !before[nbrs[0]] && out + DfsList(adj, nbrs, before) == visit
    requires sub == DfsVisit(adj, nbrs[0], before)
    requires |after| == |before| && forall x :: 0 <= x < |after| ==> (after[x] <==> before[x] || x in sub)
    ensures forall i :: 0 <= i < |nbrs[1..]| ==> nbrs[1..][i] < |adj|
    ensures (out + sub) + DfsList(adj, nbrs[1..], after) == visit
  {
    MarkExactly(before, after, sub);
    DfsListUnfold(adj, nbrs, before);
    ConcatAssoc(out, sub, DfsList(adj, nbrs[1..], after));
  }

  /** The scan of a list whose first vertex is unmarked visits that vertex first. */
  lemma DfsListUnfold(adj: Adjacency, nbrs: seq<nat>, seen: seq<bool>)
    requires Closed(adj) && |seen| == |adj| && nbrs != [] && forall i :: 0 <= i < |nbrs| ==> nbrs[i] < |adj|
    requires !seen[nbrs[0]]
    ensures forall i :: 0 <= i < |nbrs[1..]| ==> nbrs[1..][i] < |adj|
    ensures DfsList(adj, nbrs, seen) ==
      DfsVisit(adj, nbrs[0], seen) + DfsList(adj, nbrs[1..], Mark(seen, DfsVisit(adj, nbrs[0], seen)))
  {
  }

  /** After the whole list every neighbour of `u` is marked and the output is the reference visit. */
  lemma DfsEnd(adj: Adjacency, u: nat, entry: seq<bool>, now: seq<bool>, out: seq<nat>)
    requires u < |adj| && DfsScan(adj, u, entry, |adj[u]|, now, out)
    ensures out == DfsVisit(adj, u, entry)
    ensures Grown(adj, u, entry, now, out) && ClosedFrom(adj, out, 0, now)
  {
    var nbrs := adj[u];
    assert nbrs[|nbrs|..] == [];
    forall w | w in adj[u] ensures w < |now| && now[w] {
      var k :| 0 <= k < |nbrs| && nbrs[k] == w;
    }
    assert NeighboursMarked(adj, out[0], now);
  }

  class Graph {
    var adj: Adjacency

    ghost predicate Valid()
      reads this
    {
      Closed(adj) && Symmetric(adj)
    }

    /** `Graph(n)`: `n` vertices and no edges. */
    constructor (n: nat)
      ensures Valid() && adj == NoEdges(n)
    {
      adj := NoEdges(n);
    }

    /**
     * `addEdge(u, v)`: appends `v` to `adj[u]` and then `u` to `adj[v]`, so a self-loop
     * lists `u` twice in its own list. Both endpoints must be vertices.
     */
    method AddEdge(u: nat, v: nat)
      requires Valid() && u < |adj| && v < |adj|
      modifies this
      ensures Valid() && |adj| == |old(adj)| && adj == WithEdge(old(adj), u, v)
    {
      AddEdgeKeepsInvariant(adj, u, v);
      adj := adj[u := adj[u] + [v]];
      adj := adj[v := adj[v] + [u]];
    }

    /**
     * `bfs(start)`: the shared queue-driven breadth-first search, printing the reference
     * order: each reachable vertex once, linked to and layered by its first parent.
     */
    method Bfs(start: nat) returns (order: seq<nat>)
      requires Valid() && start < |adj|
      ensures order == BfsOrder(adj, start)
      ensures |order| > 0 && order[0] == start && Distinct(order)
      ensures forall i :: 0 <= i < |order| ==> order[i] < |adj|
      ensures forall v :: v in order <==> Reachable(adj, start, v)
      ensures Linked(adj, order) && Layered(adj, order)
    {
      order := Traversal.Bfs(adj, start);
    }

    /**
     * `dfsUtil(u, vis)`: marks `u`, outputs it, and recurses into each neighbour still
     * unmarked when its turn comes. The output lists `u` first and then exactly the
     * vertices it newly marks, each once; all are reachable from `u`, and on return every
     * neighbour of an output vertex is marked.
     */
    method DfsUtil(u: nat, vis: array<bool>) returns (out: seq<nat>)
      requires Valid() && vis.Length == |adj| && u < |adj| && !vis[u]
      modifies vis
      decreases Unvisited(vis[..])
      ensures out == DfsVisit(adj, u, old(vis[..]))
      ensures Grown(adj, u, old(vis[..]), vis[..], out) && ClosedFrom(adj, out, 0, vis[..])
    {
      ghost var entry := vis[..];
      vis[u] := true;
      out := [u];
      var nbrs := adj[u];
      DfsStart(adj, u, entry, vis[..]);
      for j := 0 to |nbrs|
        invariant DfsScan(adj, u, entry, j, vis[..], out)
      {
        var v := nbrs[j];
        if !vis[v] {
          UnvisitedShrinks(entry, vis[..]);
          assert !entry[u] && vis[..][u];
          ghost var before := vis[..];
          var sub := DfsUtil(v, vis);
          DfsCall(adj, u, entry, j, before, vis[..], out, sub);
          out := out + sub;
        } else {
          DfsSkip(adj, u, entry, j, vis[..], out);
        }
      }
      DfsEnd(adj, u, entry, vis[..], out);
    }

    /**
     * `dfs(start)`: depth-first search from `start` with nothing marked, printing the
     * reference order: each reachable vertex once, each after the first a neighbour of one
     * printed before it.
     */
    method Dfs(start: nat) returns (order: seq<nat>)
      requires Valid() && start < |adj|
      ensures order == DfsOrder(adj, start)
      ensures |order| > 0 && order[0] == start && Distinct(order)
      ensures forall v :: v in order <==> Reachable(adj, start, v)
      ensures Linked(adj, order)
    {
      var vis := new bool[|adj|](_ => false);
      assert vis[..] == Unmarked(|adj|);
      order := DfsUtil(start, vis);
      forall v | Reachable(adj, start, v) ensures v in order {
        forall x, w | x in Elems(order) && x < |adj| && w in adj[x] ensures w in Elems(order) {
          var i :| 0 <= i < |order| && order[i] == x;
        }
        ClosedHoldsReachable(adj, Elems(order), start, v);
      }
    }
  }

  /** `addEdge(u, v)` on two distinct vertices yields the lists `b`. */
  lemma EdgeYields(a: Adjacency, u: nat, v: nat, b: Adjacency)
    requires u < |a| && v < |a| && u != v && |b| == |a|
    requires b[u] == a[u] + [v] && b[v] == a[v] + [u]
    requires forall x :: 0 <= x < |a| && x != u && x != v ==> b[x] == a[x]
    ensures WithEdge(a, u, v) == b
  {
  }

  /** Every vertex of the example graph is reachable from 0, and nothing else is. */
  lemma ExampleConnected(adj: Adjacency)
    requires adj == [[1, 2], [0, 3], [0, 4], [1], [2, 5], [4]]
    ensures Closed(adj)
    ensures forall v :: Reachable(adj, 0, v) <==> v < 6
  {
    ReachRefl(adj, 0);
    ReachStep(adj, 0, 0, 1);
    ReachStep(adj, 0, 0, 2);
    ReachStep(adj, 0, 1, 3);
    ReachStep(adj, 0, 2, 4);
    ReachStep(adj, 0, 4, 5);
    forall v | Reachable(adj, 0, v) ensures v < 6 {
      ReachableIsVertex(adj, 0, v);
    }
    forall v: nat | v < 6 ensures Reachable(adj, 0, v) {
      assert v == 0 || v == 1 || v == 2 || v == 3 || v == 4 || v == 5;
    }
  }

  /** `main`: `bfs(0)` prints 0 1 2 3 4 5 and `dfs(0)` prints 0 1 3 2 4 5. */
  method Example() returns (bfsOrder: seq<nat>, dfsOrder: seq<nat>)
    ensures bfsOrder == [0, 1, 2, 3, 4, 5]
    ensures dfsOrder == [0, 1, 3, 2, 4, 5]
  {
    var g := ExampleGraph();
    ExampleListsValue();
    bfsOrder := g.Bfs(0);
    ExampleBfsOrder(g.adj);
    dfsOrder := g.Dfs(0);
    ExampleDfsOrder(g.adj);
  }

  /** Breadth-first order of the example graph from 0, one queue front at a time. */
  lemma ExampleBfsOrder(adj: Adjacency)
    requires adj == [[1, 2], [0, 3], [0, 4], [1], [2, 5], [4]]
    ensures Closed(adj) && BfsOrder(adj, 0) == [0, 1, 2, 3, 4, 5]
  {
    ExampleConnected(adj);
    var s0 := [true, false, false, false, false, false];
    var s4 := [true, true, true, true, true, true];
    assert Mark(Unmarked(6), [0]) == s0;
    calc {
      BfsOrder(adj, 0);
      BfsFrom(adj, [0], s0);
      { ExampleBfsFront0(adj); }
      [0] + BfsFrom(adj, [1, 2], [true, true, true, false, false, false]);
      { ExampleBfsFront1(adj); }
      [0] + ([1] + BfsFrom(adj, [2, 3], [true, true, true, true, false, false]));
      { ExampleBfsFront2(adj); }
      [0] + ([1] + ([2] + BfsFrom(adj, [3, 4], [true, true, true, true, true, false])));
      { ExampleBfsFront3(adj); }
      [0] + ([1] + ([2] + ([3] + BfsFrom(adj, [4], [true, true, true, true, true, false]))));
      { ExampleBfsFront4(adj); }
      [0] + ([1] + ([2] + ([3] + ([4] + BfsFrom(adj, [5], s4)))));
      { ExampleBfsFront5(adj); }
      [0] + ([1] + ([2] + ([3] + ([4] + ([5] + BfsFrom(adj, [], s4))))));
      [0, 1, 2, 3, 4, 5];
    }
  }

  /** With 0 marked, printing front 0 enqueues 1 and 2. */
  lemma ExampleBfsFront0(adj: Adjacency)
    requires adj == [[1, 2], [0, 3], [0, 4], [1], [2, 5], [4]]
    ensures Closed(adj)
    ensures BfsFrom(adj, [0], [true, false, false, false, false, false]) ==
      [0] + BfsFrom(adj, [1, 2], [true, true, true, false, false, false])
  {
    ExampleConnected(adj);
    assert NewNeighbours([2], [true, true, false, false, false, false]) == [2];
    assert NewNeighbours([1, 2], [true, false, false, false, false, false]) == [1, 2];
    assert Mark([true, false, false, false, false, false], [1, 2]) ==
      [true, true, true, false, false, false];
    BfsUnfold(adj, 0, [],
      [true, false, false, false, false, false], [1, 2], [true, true, true, false, false, false]);
  }

  /** With 0, 1, 2 marked, printing front 1 enqueues 3. */
  lemma ExampleBfsFront1(adj: Adjacency)
    requires adj == [[1, 2], [0, 3], [0, 4], [1], [2, 5], [4]]
    ensures Closed(adj)
    ensures BfsFrom(adj, [1, 2], [true, true, true, false, false, false]) ==
      [1] + BfsFrom(adj, [2, 3], [true, true, true, true, false, false])
  {
    ExampleConnected(adj);
    assert NewNeighbours([3], [true, true, true, false, false, false]) == [3];
    assert NewNeighbours([0, 3], [true, true, true, false, false, false]) == [3];
    assert Mark([true, true, true, false, false, false], [3]) ==
      [true, true, true, true, false, false];
    BfsUnfold(adj, 1, [2],
      [true, true, true, false, false, false], [3], [true, true, true, true, false, false]);
  }

  /** With 0, 1, 2, 3 marked, printing front 2 enqueues 4. */
  lemma ExampleBfsFront2(adj: Adjacency)
    requires adj == [[1, 2], [0, 3], [0, 4], [1], [2, 5], [4]]
    ensures Closed(adj)
    ensures BfsFrom(adj, [2, 3], [true, true, true, true, false, false]) ==
      [2] + BfsFrom(adj, [3, 4], [true, true, true, true, true, false])
  {
    ExampleConnected(adj);
    assert NewNeighbours([4], [true, true, true, true, false, false]) == [4];
    assert NewNeighbours([0, 4], [true, true, true, true, false, false]) == [4];
    assert Mark([true, true, true, true, false, false], [4]) ==
      [true, true, true, true, true, false];
    BfsUnfold(adj, 2, [3],
      [true, true, true, true, false, false], [4], [true, true, true, true, true, false]);
  }

  /** With 0, 1, 2, 3, 4 marked, printing front 3 enqueues nothing. */
  lemma ExampleBfsFront3(adj: Adjacency)
    requires adj == [[1, 2], [0, 3], [0, 4], [1], [2, 5], [4]]
    ensures Closed(adj)
    ensures BfsFrom(adj, [3, 4], [true, true, true, true, true, false]) ==
      [3] + BfsFrom(adj, [4], [true, true, true, true, true, false])
  {
    ExampleConnected(adj);
    assert NewNeighbours([1], [true, true, true, true, true, false]) == [];
    assert Mark([true, true, true, true, true, false], []) == [true, true, true, true, true, false];
    BfsUnfold(adj, 3, [4],
      [true, true, true, true, true, false], [], [true, true, true, true, true, false]);
  }

  /** With 0, 1, 2, 3, 4 marked, printing front 4 enqueues 5. */
  lemma ExampleBfsFront4(adj: Adjacency)
    requires adj == [[1, 2], [0, 3], [0, 4], [1], [2, 5], [4]]
    ensures Closed(adj)
    ensures BfsFrom(adj, [4], [true, true, true, true, true, false]) ==
      [4] + BfsFrom(adj, [5], [true, true, true, true, true, true])
  {
    ExampleConnected(adj);
    assert NewNeighbours([5], [true, true, true, true, true, false]) == [5];
    assert NewNeighbours([2, 5], [true, true, true, true, true, false]) == [5];
    assert Mark([true, true, true, true, true, false], [5]) == [true, true, true, true, true, true];
    BfsUnfold(adj, 4, [],
      [true, true, true, true, true, false], [5], [true, true, true, true, true, true]);
  }

  /** With 0, 1, 2, 3, 4, 5 marked, printing front 5 enqueues nothing. */
  lemma ExampleBfsFront5(adj: Adjacency)
    requires adj == [[1, 2], [0, 3], [0, 4], [1], [2, 5], [4]]
    ensures Closed(adj)
    ensures BfsFrom(adj, [5], [true, true, true, true, true, true]) ==
      [5] + BfsFrom(adj, [], [true, true, true, true, true, true])
  {
    ExampleConnected(adj);
    assert NewNeighbours([4], [true, true, true, true, true, true]) == [];
    assert Mark([true, true, true, true, true, true], []) == [true, true, true, true, true, true];
    BfsUnfold(adj, 5, [],
      [true, true, true, true, true, true], [], [true, true, true, true, true, true]);
  }

  /** Depth-first order of the example graph from 0, one call at a time. */
  lemma ExampleDfsOrder(adj: Adjacency)
    requires adj == [[1, 2], [0, 3], [0, 4], [1], [2, 5], [4]]
    ensures Closed(adj) && DfsOrder(adj, 0) == [0, 1, 3, 2, 4, 5]
  {
    ExampleConnected(adj);
    ExampleDfsVisit1(adj);
    ExampleDfsVisit2(adj);
    assert Unmarked(6)[0 := true] == [true, false, false, false, false, false];
    assert Mark([true, false, false, false, false, false], [1, 3]) ==
      [true, true, false, true, false, false];
    DfsListUnfold(adj, [1, 2], [true, false, false, false, false, false]);
    assert [1, 2][1..] == [2];
    calc {
      DfsOrder(adj, 0);
      [0] + DfsList(adj, [1, 2], [true, false, false, false, false, false]);
      [0] + (DfsVisit(adj, 1, [true, false, false, false, false, false]) + DfsList(adj, [2], [true, true, false, true, false, false]));
      [0] + ([1, 3] + ([2, 4, 5] + DfsList(adj, [], Mark([true, true, false, true, false, false], [2, 4, 5]))));
      [0, 1, 3, 2, 4, 5];
    }
  }

  /** Visiting 5 last finds its one neighbour 4 marked. */
  lemma ExampleDfsVisit5(adj: Adjacency)
    requires adj == [[1, 2], [0, 3], [0, 4], [1], [2, 5], [4]]
    ensures Closed(adj) && DfsVisit(adj, 5, [true, true, true, true, true, false]) == [5]
  {
    ExampleConnected(adj);
  }

  /** Visiting 4 skips 2 and visits 5. */
  lemma ExampleDfsVisit4(adj: Adjacency)
    requires adj == [[1, 2], [0, 3], [0, 4], [1], [2, 5], [4]]
    ensures Closed(adj) && DfsVisit(adj, 4, [true, true, true, true, false, false]) == [4, 5]
  {
    ExampleConnected(adj);
    ExampleDfsVisit5(adj);
    assert [true, true, true, true, false, false][4 := true] == [true, true, true, true, true, false];
    assert DfsList(adj, [5], [true, true, true, true, true, false]) == [5] + DfsList(adj, [], Mark([true, true, true, true, true, false], [5]));
    assert DfsList(adj, [2, 5], [true, true, true, true, true, false]) == DfsList(adj, [5], [true, true, true, true, true, false]);
  }

  /** Visiting 2 after 0, 1 and 3 skips 0 and visits 4. */
  lemma ExampleDfsVisit2(adj: Adjacency)
    requires adj == [[1, 2], [0, 3], [0, 4], [1], [2, 5], [4]]
    ensures Closed(adj) && DfsVisit(adj, 2, [true, true, false, true, false, false]) == [2, 4, 5]
  {
    ExampleConnected(adj);
    ExampleDfsVisit4(adj);
    assert [true, true, false, true, false, false][2 := true] == [true, true, true, true, false, false];
    assert DfsList(adj, [4], [true, true, true, true, false, false]) == [4, 5] + DfsList(adj, [], Mark([true, true, true, true, false, false], [4, 5]));
    assert DfsList(adj, [0, 4], [true, true, true, true, false, false]) == DfsList(adj, [4], [true, true, true, true, false, false]);
  }

  /** Visiting 3 finds its one neighbour 1 marked. */
  lemma ExampleDfsVisit3(adj: Adjacency)
    requires adj == [[1, 2], [0, 3], [0, 4], [1], [2, 5], [4]]
    ensures Closed(adj) && DfsVisit(adj, 3, [true, true, false, false, false, false]) == [3]
  {
    ExampleConnected(adj);
    assert [true, true, false, false, false, false][3 := true] == [true, true, false, true, false, false];
    assert DfsList(adj, [1], [true, true, false, true, false, false]) == DfsList(adj, [], [true, true, false, true, false, false]);
  }

  /** Visiting 1 skips 0 and visits 3. */
  lemma ExampleDfsVisit1(adj: Adjacency)
    requires adj == [[1, 2], [0, 3], [0, 4], [1], [2, 5], [4]]
    ensures Closed(adj) && DfsVisit(adj, 1, [true, false, false, false, false, false]) == [1, 3]
  {
    ExampleConnected(adj);
    ExampleDfsVisit3(adj);
    assert [true, false, false, false, false, false][1 := true] == [true, true, false, false, false, false];
    assert DfsList(adj, [3], [true, true, false, false, false, false]) == [3] + DfsList(adj, [], Mark([true, true, false, false, false, false], [3]));
    assert DfsList(adj, [0, 3], [true, true, false, false, false, false]) == DfsList(adj, [3], [true, true, false, false, false, false]);
  }

  /** The neighbour lists `main` builds with its five `addEdge` calls. */
  function ExampleLists(): Adjacency
  {
    WithEdge(WithEdge(WithEdge(WithEdge(WithEdge(NoEdges(6), 0, 1), 0, 2), 1, 3), 2, 4), 4, 5)
  }

  lemma ExampleListsValue()
    ensures ExampleLists() == [[1, 2], [0, 3], [0, 4], [1], [2, 5], [4]]
  {
    var a0 := NoEdges(6);
    assert a0 == [[], [], [], [], [], []];
    EdgeYields(a0, 0, 1, [[1], [0], [], [], [], []]);
    EdgeYields([[1], [0], [], [], [], []], 0, 2, [[1, 2], [0], [0], [], [], []]);
    EdgeYields([[1, 2], [0], [0], [], [], []], 1, 3, [[1, 2], [0, 3], [0], [1], [], []]);
    EdgeYields([[1, 2], [0, 3], [0], [1], [], []], 2, 4, [[1, 2], [0, 3], [0, 4], [1], [2], []]);
    EdgeYields([[1, 2], [0, 3], [0, 4], [1], [2], []], 4, 5, [[1, 2], [0, 3], [0, 4], [1], [2, 5], [4]]);
  }

  /** The graph `main` builds. */
  method ExampleGraph() returns (g: Graph)
    ensures fresh(g) && g.Valid() && g.adj == ExampleLists()
  {
    g := new Graph(6);
    g.AddEdge(0, 1);
    g.AddEdge(0, 2);
    g.AddEdge(1, 3);
    g.AddEdge(2, 4);
    g.AddEdge(4, 5);
  }
}
