/**
 * The algorithms of 01_STL_Containers/04_ContainerAdaptors/QueueExample.cpp that drive a
 * `std::queue` (modelled as a sequence, front first): bounded FIFO task processing where
 * one task spawns another, breadth-first search over a small tree, and a print queue that
 * totals pages and flags long jobs.
 */
module QueueDemo {
  import opened Traversal

  // ---------------------------------------------------------------------------------------
  // Bounded task processing
  // ---------------------------------------------------------------------------------------

  datatype Task = Task(id: int, description: string)

  /** The follow-up that processing task 2 adds to the back of the queue. */
  const FollowUp := Task(5, "Verify email sent")

  /** The tasks processing `t` adds: the follow-up for task 2, nothing otherwise. */
  function Spawned(t: Task): seq<Task>
  {
    if t.id == 2 then [FollowUp] else []
  }

  /** The tasks spawned while processing `done`, in the order they were added. */
  function SpawnedBy(done: seq<Task>): (r: seq<Task>)
    ensures |r| <= |done|
    ensures forall j :: 0 <= j < |r| ==> r[j] == FollowUp
  {
    if done == [] then [] else SpawnedBy(done[..|done| - 1]) + Spawned(done[|done| - 1])
  }

  /**
   * The loop `while (!taskQueue.empty() && processed < limit)`: pops the front, records it
   * and pushes what it spawns. FIFO: what was processed followed by what remains is the
   * original queue followed by everything spawned. At most `limit` tasks are processed, and
   * fewer only when the queue ran dry.
   */
  method ProcessTasks(tasks: seq<Task>, limit: nat) returns (processed: seq<Task>, remaining: seq<Task>)
    ensures processed + remaining == tasks + SpawnedBy(processed)
    ensures |processed| <= limit
    ensures |processed| < limit ==> remaining == []
  {
    processed := [];
    remaining := tasks;
    var count := 0;
    while remaining != [] && count < limit
      invariant count == |processed| <= limit
      invariant processed + remaining == tasks + SpawnedBy(processed)
      decreases limit - count
    {
      var current := remaining[0];
      ServeStep(tasks, processed, remaining);
      remaining := remaining[1..];
      remaining := remaining + Spawned(current);
      processed := processed + [current];
      count := count + 1;
    }
  }

  /** Serving the front task keeps the FIFO account balanced. */
  lemma ServeStep(tasks: seq<Task>, processed: seq<Task>, remaining: seq<Task>)
    requires remaining != [] && processed + remaining == tasks + SpawnedBy(processed)
    ensures processed + [remaining[0]] + (remaining[1..] + Spawned(remaining[0]))
         == tasks + SpawnedBy(processed + [remaining[0]])
  {
    var t := remaining[0];
    var p := processed + [t];
    assert p[..|p| - 1] == processed;
    assert SpawnedBy(p) == SpawnedBy(processed) + Spawned(t);
    assert [t] + remaining[1..] == remaining;
    Rebalance(processed, t, remaining[1..], Spawned(t), tasks, SpawnedBy(processed));
  }

  /** Moving the front `t` of the second part to the end of the first, and appending `d` to both sides. */
  lemma Rebalance<T>(a: seq<T>, t: T, rest: seq<T>, d: seq<T>, b: seq<T>, c: seq<T>)
    requires a + ([t] + rest) == b + c
    ensures a + [t] + (rest + d) == b + (c + d)
  {
    calc {
      a + [t] + (rest + d);
      (a + ([t] + rest)) + d;
      (b + c) + d;
      b + (c + d);
    }
  }

  /** `example3`: four tasks, at most three processed; task 2 adds its follow-up, two remain. */
  method TaskDemo() returns (processed: seq<Task>, remaining: seq<Task>)
    ensures processed == [Task(1, "Process data"), Task(2, "Send email"), Task(3, "Update database")]
    ensures remaining == [Task(4, "Generate report"), FollowUp] && |remaining| == 2
  {
    var tasks := [Task(1, "Process data"), Task(2, "Send email"), Task(3, "Update database"),
                  Task(4, "Generate report")];
    processed, remaining := ProcessTasks(tasks, 3);
    TaskOutcome(tasks, processed, remaining);
  }

  /** The only outcome the FIFO account allows for the four demo tasks and a limit of three. */
  lemma TaskOutcome(tasks: seq<Task>, p: seq<Task>, r: seq<Task>)
    requires tasks == [Task(1, "Process data"), Task(2, "Send email"), Task(3, "Update database"),
                       Task(4, "Generate report")]
    requires p + r == tasks + SpawnedBy(p) && |p| <= 3 && (|p| < 3 ==> r == [])
    ensures p == tasks[..3] && r == [tasks[3], FollowUp]
  {
    ThreeProcessed(tasks, p, r);
    var x := tasks + SpawnedBy(p);
    Halves(p, r, x);
    assert p == tasks[..3] by {
      assert x[..3] == tasks[..3];
    }
    DemoSpawned(tasks);
    assert x == tasks + [FollowUp];
  }

  /** Four tasks and whatever they spawn are more than three, so the limit is reached. */
  lemma ThreeProcessed(tasks: seq<Task>, p: seq<Task>, r: seq<Task>)
    requires |tasks| == 4
    requires p + r == tasks + SpawnedBy(p) && |p| <= 3 && (|p| < 3 ==> r == [])
    ensures |p| == 3
  {
    assert |p + r| == |tasks| + |SpawnedBy(p)|;
  }

  /** Of the first three demo tasks only task 2 spawns, once. */
  lemma DemoSpawned(tasks: seq<Task>)
    requires tasks == [Task(1, "Process data"), Task(2, "Send email"), Task(3, "Update database"),
                       Task(4, "Generate report")]
    ensures SpawnedBy(tasks[..3]) == [FollowUp]
  {
    var p := tasks[..3];
    assert p[..2][..1] == p[..1] && p[..2] == p[..|p| - 1];
    assert SpawnedBy(p[..1]) == [] + Spawned(tasks[0]);
    assert SpawnedBy(p[..2]) == SpawnedBy(p[..1]) + Spawned(tasks[1]) == [FollowUp];
  }

  /** The halves of a concatenation are its prefix and suffix. */
  lemma Halves<T>(p: seq<T>, r: seq<T>, x: seq<T>)
    requires p + r == x
    ensures p == x[..|p|] && r == x[|p|..]
  {
  }

  // ---------------------------------------------------------------------------------------
  // Breadth-first search over the example tree
  // ---------------------------------------------------------------------------------------

  /** A vertex that no list names is reached from nowhere but itself. */
  lemma NeverEntered(adj: Adjacency, s: nat, t: nat, x: nat)
    requires forall u :: 0 <= u < |adj| ==> x !in adj[u]
    requires s != x && Reachable(adj, s, t)
    ensures t != x
  {
    var p :| IsPath(adj, p) && p[0] == s && p[|p| - 1] == t;
    if |p| > 1 {
      assert Step(adj, p, |p| - 1);
    }
  }

  /** Node 1 has children 2 and 3, node 2 has 4 and 5, node 3 has 6; slot 0 is unused. */
  lemma TreeReach(tree: Adjacency)
    requires tree == [[], [2, 3], [4, 5], [6], [], [], []]
    ensures Closed(tree)
    ensures forall v :: Reachable(tree, 1, v) <==> 1 <= v <= 6
  {
    ReachRefl(tree, 1);
    ReachStep(tree, 1, 1, 2);
    ReachStep(tree, 1, 1, 3);
    ReachStep(tree, 1, 2, 4);
    ReachStep(tree, 1, 2, 5);
    ReachStep(tree, 1, 3, 6);
    forall v | Reachable(tree, 1, v) ensures 1 <= v <= 6 {
      ReachableIsVertex(tree, 1, v);
      NeverEntered(tree, 1, v, 0);
    }
    forall v: nat | 1 <= v <= 6 ensures Reachable(tree, 1, v) {
      assert v == 1 || v == 2 || v == 3 || v == 4 || v == 5 || v == 6;
    }
  }

  /**
   * `example4_BFSSimulation`: the queue-driven search from node 1, marking each child when
   * it is enqueued, visits each of the six tree nodes exactly once, node 1 first.
   */
  method TreeBfsDemo() returns (order: seq<nat>)
    ensures order == [1, 2, 3, 4, 5, 6]
    ensures |order| == 6 && order[0] == 1 && Distinct(order)
    ensures forall v :: v in order <==> 1 <= v <= 6
  {
    var tree: Adjacency := [[], [2, 3], [4, 5], [6], [], [], []];
    TreeReach(tree);
    order := Bfs(tree, 1);
    TreeBfsOrder(tree);
  }

  /** Breadth-first order of the tree from node 1, one queue front at a time. */
  lemma TreeBfsOrder(tree: Adjacency)
    requires tree == [[], [2, 3], [4, 5], [6], [], [], []]
    ensures Closed(tree) && BfsOrder(tree, 1) == [1, 2, 3, 4, 5, 6]
  {
    TreeReach(tree);
    assert Mark(Unmarked(7), [1]) == [false, true, false, false, false, false, false];
    var full := [false, true, true, true, true, true, true];
    calc {
      BfsOrder(tree, 1);
      BfsFrom(tree, [1], [false, true, false, false, false, false, false]);
      { TreeBfsFront1(tree); }
      [1] + BfsFrom(tree, [2, 3], [false, true, true, true, false, false, false]);
      { TreeBfsFront2(tree); }
      [1] + ([2] + BfsFrom(tree, [3, 4, 5], [false, true, true, true, true, true, false]));
      { TreeBfsFront3(tree); }
      [1] + ([2] + ([3] + BfsFrom(tree, [4, 5, 6], full)));
      { TreeBfsFront4(tree); }
      [1] + ([2] + ([3] + ([4] + BfsFrom(tree, [5, 6], full))));
      { TreeBfsFront5(tree); }
      [1] + ([2] + ([3] + ([4] + ([5] + BfsFrom(tree, [6], full)))));
      { TreeBfsFront6(tree); }
      [1] + ([2] + ([3] + ([4] + ([5] + ([6] + BfsFrom(tree, [], full))))));
      [1, 2, 3, 4, 5, 6];
    }
  }

  /** Printing front 1 enqueues 2 and 3. */
  lemma TreeBfsFront1(tree: Adjacency)
    requires tree == [[], [2, 3], [4, 5], [6], [], [], []]
    ensures Closed(tree)
    ensures BfsFrom(tree, [1], [false, true, false, false, false, false, false]) ==
      [1] + BfsFrom(tree, [2, 3], [false, true, true, true, false, false, false])
  {
    TreeReach(tree);
    assert NewNeighbours([3], [false, true, true, false, false, false, false]) == [3];
    assert NewNeighbours([2, 3], [false, true, false, false, false, false, false]) == [2, 3];
    assert Mark([false, true, false, false, false, false, false], [2, 3]) ==
      [false, true, true, true, false, false, false];
    BfsUnfold(tree, 1, [],
      [false, true, false, false, false, false, false], [2, 3], [false, true, true, true, false, false, false]);
  }

  /** Printing front 2 enqueues 4 and 5. */
  lemma TreeBfsFront2(tree: Adjacency)
    requires tree == [[], [2, 3], [4, 5], [6], [], [], []]
    ensures Closed(tree)
    ensures BfsFrom(tree, [2, 3], [false, true, true, true, false, false, false]) ==
      [2] + BfsFrom(tree, [3, 4, 5], [false, true, true, true, true, true, false])
  {
    TreeReach(tree);
    assert NewNeighbours([5], [false, true, true, true, true, false, false]) == [5];
    assert NewNeighbours([4, 5], [false, true, true, true, false, false, false]) == [4, 5];
    assert Mark([false, true, true, true, false, false, false], [4, 5]) ==
      [false, true, true, true, true, true, false];
    BfsUnfold(tree, 2, [3],
      [false, true, true, true, false, false, false], [4, 5], [false, true, true, true, true, true, false]);
  }

  /** Printing front 3 enqueues 6. */
  lemma TreeBfsFront3(tree: Adjacency)
    requires tree == [[], [2, 3], [4, 5], [6], [], [], []]
    ensures Closed(tree)
    ensures BfsFrom(tree, [3, 4, 5], [false, true, true, true, true, true, false]) ==
      [3] + BfsFrom(tree, [4, 5, 6], [false, true, true, true, true, true, true])
  {
    TreeReach(tree);
    assert NewNeighbours([6], [false, true, true, true, true, true, false]) == [6];
    assert Mark([false, true, true, true, true, true, false], [6]) ==
      [false, true, true, true, true, true, true];
    assert [4, 5] + [6] == [4, 5, 6];
    BfsUnfold(tree, 3, [4, 5],
      [false, true, true, true, true, true, false], [6], [false, true, true, true, true, true, true]);
  }

  /** Printing front 4 enqueues nothing. */
  lemma TreeBfsFront4(tree: Adjacency)
    requires tree == [[], [2, 3], [4, 5], [6], [], [], []]
    ensures Closed(tree)
    ensures BfsFrom(tree, [4, 5, 6], [false, true, true, true, true, true, true]) ==
      [4] + BfsFrom(tree, [5, 6], [false, true, true, true, true, true, true])
  {
    TreeReach(tree);
    assert NewNeighbours([], [false, true, true, true, true, true, true]) == [];
    assert Mark([false, true, true, true, true, true, true], []) ==
      [false, true, true, true, true, true, true];
    BfsUnfold(tree, 4, [5, 6],
      [false, true, true, true, true, true, true], [], [false, true, true, true, true, true, true]);
  }

  /** Printing front 5 enqueues nothing. */
  lemma TreeBfsFront5(tree: Adjacency)
    requires tree == [[], [2, 3], [4, 5], [6], [], [], []]
    ensures Closed(tree)
    ensures BfsFrom(tree, [5, 6], [false, true, true, true, true, true, true]) ==
      [5] + BfsFrom(tree, [6], [false, true, true, true, true, true, true])
  {
    TreeReach(tree);
    assert NewNeighbours([], [false, true, true, true, true, true, true]) == [];
    assert Mark([false, true, true, true, true, true, true], []) ==
      [false, true, true, true, true, true, true];
    BfsUnfold(tree, 5, [6],
      [false, true, true, true, true, true, true], [], [false, true, true, true, true, true, true]);
  }

  /** Printing front 6 enqueues nothing. */
  lemma TreeBfsFront6(tree: Adjacency)
    requires tree == [[], [2, 3], [4, 5], [6], [], [], []]
    ensures Closed(tree)
    ensures BfsFrom(tree, [6], [false, true, true, true, true, true, true]) ==
      [6] + BfsFrom(tree, [], [false, true, true, true, true, true, true])
  {
    TreeReach(tree);
    assert NewNeighbours([], [false, true, true, true, true, true, true]) == [];
    assert Mark([false, true, true, true, true, true, true], []) ==
      [false, true, true, true, true, true, true];
    BfsUnfold(tree, 6, [],
      [false, true, true, true, true, true, true], [], [false, true, true, true, true, true, true]);
  }

  // ---------------------------------------------------------------------------------------
  // Print queue
  // ---------------------------------------------------------------------------------------

  datatype PrintJob = PrintJob(document: string, pages: int)

  /** A job of more than 20 pages gets the long-job notice. */
  predicate IsLong(job: PrintJob)
  {
    job.pages > 20
  }

  /** The pages of all jobs, added in queue order. */
  function TotalPages(jobs: seq<PrintJob>): int
  {
    if jobs == [] then 0 else TotalPages(jobs[..|jobs| - 1]) + jobs[|jobs| - 1].pages
  }

  /** Adding up two batches one after the other gives the sum of their totals. */
  lemma {:induction false} TotalPagesAppend(a: seq<PrintJob>, b: seq<PrintJob>)
    ensures TotalPages(a + b) == TotalPages(a) + TotalPages(b)
    decreases |b|
  {
    if b != [] {
      var b' := b[..|b| - 1];
      assert (a + b)[..|a + b| - 1] == a + b';
      assert (a + b)[|a + b| - 1] == b[|b| - 1];
      TotalPagesAppend(a, b');
    } else {
      assert a + b == a;
    }
  }

  /** The documents of `jobs`, in queue order. */
  function Documents(jobs: seq<PrintJob>): (r: seq<string>)
    ensures |r| == |jobs| && forall i :: 0 <= i < |jobs| ==> r[i] == jobs[i].document
  {
    if jobs == [] then [] else Documents(jobs[..|jobs| - 1]) + [jobs[|jobs| - 1].document]
  }

  /** The long jobs of `jobs`, in queue order: exactly the jobs of more than 20 pages. */
  function LongJobs(jobs: seq<PrintJob>): (r: seq<PrintJob>)
    ensures |r| <= |jobs|
    ensures forall job :: job in r <==> job in jobs && IsLong(job)
  {
    if jobs == [] then []
    else
      var init, last := jobs[..|jobs| - 1], jobs[|jobs| - 1];
      assert jobs == init + [last];
      LongJobs(init) + if IsLong(last) then [last] else []
  }

  /**
   * `example6_PrintQueue`: pops every job in turn, prints its document, adds its pages to
   * `totalPages` and notes it when it is long.
   */
  method PrintAll(queue: seq<PrintJob>) returns (printed: seq<string>, flagged: seq<string>, totalPages: int)
    ensures printed == Documents(queue)
    ensures flagged == Documents(LongJobs(queue))
    ensures totalPages == TotalPages(queue)
  {
    printed, flagged, totalPages := [], [], 0;
    for i := 0 to |queue|
      invariant printed == Documents(queue[..i])
      invariant flagged == Documents(LongJobs(queue[..i]))
      invariant totalPages == TotalPages(queue[..i])
    {
      var job := queue[i];
      PrintNext(queue, i);
      printed := printed + [job.document];
      totalPages := totalPages + job.pages;
      if job.pages > 20 {
        flagged := flagged + [job.document];
      }
    }
    assert queue[..|queue|] == queue;
  }

  /** The queue up to `i + 1` is the queue up to `i` and one more job. */
  lemma PrintNext(queue: seq<PrintJob>, i: nat)
    requires i < |queue|
    ensures Documents(queue[..i + 1]) == Documents(queue[..i]) + [queue[i].document]
    ensures LongJobs(queue[..i + 1]) == LongJobs(queue[..i]) + if IsLong(queue[i]) then [queue[i]] else []
    ensures TotalPages(queue[..i + 1]) == TotalPages(queue[..i]) + queue[i].pages
  {
    assert queue[..i + 1] == queue[..i] + [queue[i]];
    PrintStep(queue[..i], queue[i]);
  }

  /** One more job extends the documents, the long jobs when it is long, and the total. */
  lemma PrintStep(done: seq<PrintJob>, job: PrintJob)
    ensures Documents(done + [job]) == Documents(done) + [job.document]
    ensures LongJobs(done + [job]) == LongJobs(done) + if IsLong(job) then [job] else []
    ensures TotalPages(done + [job]) == TotalPages(done) + job.pages
  {
    assert (done + [job])[..|done|] == done;
  }

  /** Four jobs print in insertion order; only the presentation is long; 38 pages in all. */
  method PrintDemo() returns (printed: seq<string>, flagged: seq<string>, totalPages: int)
    ensures printed == ["Report.pdf", "Letter.docx", "Presentation.pptx", "Invoice.pdf"]
    ensures flagged == ["Presentation.pptx"] && totalPages == 38
  {
    var queue := [PrintJob("Report.pdf", 10), PrintJob("Letter.docx", 1),
                  PrintJob("Presentation.pptx", 25), PrintJob("Invoice.pdf", 2)];
    printed, flagged, totalPages := PrintAll(queue);
    PrintTotals(queue);
  }

  /** What the demo queue prints, flags and totals. */
  lemma PrintTotals(queue: seq<PrintJob>)
    requires queue == [PrintJob("Report.pdf", 10), PrintJob("Letter.docx", 1),
                       PrintJob("Presentation.pptx", 25), PrintJob("Invoice.pdf", 2)]
    ensures Documents(queue) == ["Report.pdf", "Letter.docx", "Presentation.pptx", "Invoice.pdf"]
    ensures Documents(LongJobs(queue)) == ["Presentation.pptx"] && TotalPages(queue) == 38
  {
    var q1, q2, q3 := queue[..1], queue[..2], queue[..3];
    assert q2[..1] == q1 && q3[..2] == q2 && queue[..3] == q3 && q1[..0] == [] by {
      Prefixes(queue);
    }
    assert TotalPages(queue) == 38 by {
      assert TotalPages(q1) == 10;
      assert TotalPages(q2) == 11;
      assert TotalPages(q3) == 36;
    }
    assert LongJobs(queue) == [queue[2]] by {
      assert LongJobs(q1) == [];
      assert LongJobs(q2) == [];
      assert LongJobs(q3) == [queue[2]];
    }
  }

  /** How the prefixes of a four-job queue nest. */
  lemma Prefixes(queue: seq<PrintJob>)
    requires |queue| == 4
    ensures queue[..2][..1] == queue[..1] && queue[..3][..2] == queue[..2] && queue[..4][..3] == queue[..3]
    ensures queue[..1][..0] == [] && queue[..4] == queue
  {
  }
}
