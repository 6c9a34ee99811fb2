/**
 * The two deque-driven loops of 01_STL_Containers/01_SequenceContainers/DequeExample.cpp:
 * the sliding-window maximum, which keeps a deque of indices, and a task scheduler that
 * drains a deque of task names. A deque is a sequence, front first.
 */
module DequeDemo {

  // ---------------------------------------------------------------------------------------
  // Sliding-window maximum
  // ---------------------------------------------------------------------------------------

  /** The largest element of a non-empty sequence. */
  function MaxOf(s: seq<int>): (m: int)
    requires s != []
    ensures m in s && forall x :: x in s ==> x <= m
  {
    if |s| == 1 then s[0]
    else
      var r := MaxOf(s[1..]);
      assert forall x :: x in s ==> x == s[0] || x in s[1..];
      if s[0] >= r then s[0] else r
  }

  /** An element of `s` that bounds all of `s` is its maximum. */
  lemma MaxOfUnique(s: seq<int>, m: int)
    requires m in s && forall x :: x in s ==> x <= m
    ensures MaxOf(s) == m
  {
  }

  ghost predicate Increasing(w: seq<nat>)
  {
    forall a, b :: 0 <= a < b < |w| ==> w[a] < w[b]
  }

  /** The values at the window indices strictly decrease from front to back. */
  ghost predicate Decreasing(data: seq<int>, w: seq<nat>)
    requires forall j :: 0 <= j < |w| ==> w[j] < |data|
  {
    forall a, b :: 0 <= a < b < |w| ==> data[w[a]] > data[w[b]]
  }

  /** Where the stretch of indices that window entry `j` stands for begins. */
  function GapStart(w: seq<nat>, lo: nat, j: nat): nat
    requires j < |w|
  {
    if j == 0 then lo else w[j - 1] + 1
  }

  /**
   * Window entry `j` is at least every value from the end of the previous entry (from `lo`
   * for the front) up to itself: the indices dropped from the back were no larger.
   */
  ghost predicate Gap(data: seq<int>, w: seq<nat>, lo: nat, j: nat)
    requires j < |w| && w[j] < |data|
  {
    forall t :: GapStart(w, lo, j) <= t <= w[j] ==> data[t] <= data[w[j]]
  }

  ghost predicate Gaps(data: seq<int>, w: seq<nat>, lo: nat)
    requires forall j :: 0 <= j < |w| ==> w[j] < |data|
  {
    forall j :: 0 <= j < |w| ==> Gap(data, w, lo, j)
  }

  /** The front of the window bounds every value from `lo` to the back of the window. */
  lemma FrontIsMax(data: seq<int>, w: seq<nat>, lo: nat, t: nat)
    requires w != [] && forall j :: 0 <= j < |w| ==> w[j] < |data|
    requires Increasing(w) && Decreasing(data, w) && Gaps(data, w, lo)
    requires lo <= t <= w[|w| - 1]
    ensures data[t] <= data[w[0]]
  {
    var j := 0;
    while w[j] < t
      invariant 0 <= j < |w| && GapStart(w, lo, j) <= t
      decreases |w| - j
    {
      j := j + 1;
    }
    assert Gap(data, w, lo, j);
  }

  /** Dropping the front entry: the next entry now starts its stretch just after it. */
  lemma PopFrontGaps(data: seq<int>, w: seq<nat>, lo: nat)
    requires w != [] && forall j :: 0 <= j < |w| ==> w[j] < |data|
    requires Gaps(data, w, lo)
    ensures Gaps(data, w[1..], w[0] + 1)
  {
    var r, lo' := w[1..], w[0] + 1;
    forall j | 0 <= j < |r| ensures Gap(data, r, lo', j) {
      assert Gap(data, w, lo, j + 1);
      assert GapStart(r, lo', j) == GapStart(w, lo, j + 1);
    }
  }

  /** A later start for the front's stretch keeps every stretch covered. */
  lemma RaiseLo(data: seq<int>, w: seq<nat>, lo: nat, lo': nat)
    requires forall j :: 0 <= j < |w| ==> w[j] < |data|
    requires Gaps(data, w, lo) && lo <= lo'
    ensures Gaps(data, w, lo')
  {
    forall j | 0 <= j < |w| ensures Gap(data, w, lo', j) {
      assert Gap(data, w, lo, j);
    }
  }

  /**
   * Dropping the back entry, which is no larger than `data[i]`: everything from the
   * dropped entry's stretch onwards is then bounded by `data[i]`.
   */
  lemma PopBackGaps(data: seq<int>, w: seq<nat>, lo: nat, i: nat)
    requires w != [] && forall j :: 0 <= j < |w| ==> w[j] < |data|
    requires Gaps(data, w, lo) && i < |data| && data[w[|w| - 1]] <= data[i]
    requires forall t :: w[|w| - 1] < t < i ==> data[t] <= data[i]
    ensures forall t :: GapStart(w, lo, |w| - 1) <= t < i ==> data[t] <= data[i]
  {
    assert Gap(data, w, lo, |w| - 1);
  }

  /** A prefix of the window keeps its order and its stretches. */
  lemma PrefixKeeps(data: seq<int>, w: seq<nat>, lo: nat, n: nat)
    requires n <= |w| && forall j :: 0 <= j < |w| ==> w[j] < |data|
    requires Increasing(w) && Decreasing(data, w) && Gaps(data, w, lo)
    ensures forall j :: 0 <= j < n ==> w[..n][j] < |data|
    ensures Increasing(w[..n]) && Decreasing(data, w[..n]) && Gaps(data, w[..n], lo)
  {
    var r := w[..n];
    forall j | 0 <= j < n ensures Gap(data, r, lo, j) {
      assert Gap(data, w, lo, j);
      assert GapStart(r, lo, j) == GapStart(w, lo, j);
    }
  }

  /** Pushing `i` after popping every entry no larger: `i` bounds its whole stretch. */
  lemma PushGaps(data: seq<int>, w: seq<nat>, lo: nat, i: nat)
    requires forall j :: 0 <= j < |w| ==> w[j] < |data|
    requires Gaps(data, w, lo) && i < |data|
    requires forall t :: (if w == [] then lo else w[|w| - 1] + 1) <= t < i ==> data[t] <= data[i]
    ensures Gaps(data, w + [i], lo)
  {
    var r := w + [i];
    forall j | 0 <= j < |r| ensures Gap(data, r, lo, j) {
      if j < |w| {
        assert Gap(data, w, lo, j);
        assert GapStart(r, lo, j) == GapStart(w, lo, j);
      }
    }
  }

  /**
   * The deque of indices after `data[0 .. i-1]` has been processed: increasing indices
   * below `i` ending at `i - 1`, strictly decreasing values, and each entry bounding the
   * stretch of values it stands for, the front's stretch starting at `lo`.
   */
  ghost predicate Window(data: seq<int>, w: seq<nat>, lo: nat, i: nat)
  {
    i <= |data| &&
    (forall j :: 0 <= j < |w| ==> w[j] < i) &&
    (w != [] ==> w[|w| - 1] + 1 == i) && (w == [] ==> lo >= i) &&
    Increasing(w) && Decreasing(data, w) && Gaps(data, w, lo)
  }

  /** `while (window.front() <= i - k) window.pop_front()`: drops the indices that left the window. */
  method DropExpired(data: seq<int>, window: seq<nat>, i: nat, k: nat, ghost lo: nat)
    returns (w: seq<nat>, ghost lo': nat)
    requires k > 0 && i < |data| && Window(data, window, lo, i)
    requires lo == if i >= k then i - k else 0
    requires window != [] ==> window[0] + k >= i
    ensures Window(data, w, lo', i) && lo' <= if i + 1 >= k then i + 1 - k else 0
    ensures w != [] ==> w[0] + k > i
    ensures w == window || w == window[1..]
  {
    w, lo' := window, lo;
    while w != [] && w[0] as int <= i - k
      invariant Window(data, w, lo', i) && lo' <= if i + 1 >= k then i + 1 - k else 0
      invariant w == window || (w == window[1..] && window[0] + k == i)
      decreases |w|
    {
      PopFrontGaps(data, w, lo');
      lo' := w[0] + 1;
      w := w[1..];
    }
  }

  /** `while (data[window.back()] <= data[i]) window.pop_back()`: drops the entries `data[i]` outranks. */
  method DropSmaller(data: seq<int>, window: seq<nat>, i: nat, ghost lo: nat) returns (w: seq<nat>)
    requires i < |data| && Window(data, window, lo, i)
    ensures |w| <= |window| && w == window[..|w|]
    ensures forall j :: 0 <= j < |w| ==> w[j] < i
    ensures Increasing(w) && Decreasing(data, w) && Gaps(data, w, lo)
    ensures w != [] ==> data[w[|w| - 1]] > data[i]
    ensures forall t :: (if w == [] then lo else w[|w| - 1] + 1) <= t < i ==> data[t] <= data[i]
  {
    w := window;
    while w != [] && data[w[|w| - 1]] <= data[i]
      invariant |w| <= |window| && w == window[..|w|]
      invariant forall t :: (if w == [] then lo else w[|w| - 1] + 1) <= t < i ==> data[t] <= data[i]
      decreases |w|
    {
      PrefixKeeps(data, window, lo, |w|);
      PopBackGaps(data, w, lo, i);
      assert window[..|w| - 1] == w[..|w| - 1];
      w := w[..|w| - 1];
    }
    PrefixKeeps(data, window, lo, |w|);
  }

  /** Pushing `i` onto the window after dropping every entry no larger than `data[i]`. */
  lemma PushWindow(data: seq<int>, w: seq<nat>, lo: nat, i: nat)
    requires i < |data| && forall j :: 0 <= j < |w| ==> w[j] < i
    requires Increasing(w) && Decreasing(data, w) && Gaps(data, w, lo)
    requires w != [] ==> data[w[|w| - 1]] > data[i]
    requires forall t :: (if w == [] then lo else w[|w| - 1] + 1) <= t < i ==> data[t] <= data[i]
    requires w == [] ==> lo <= i
    ensures Window(data, w + [i], lo, i + 1)
  {
    PushGaps(data, w, lo, i);
    var r := w + [i];
    forall a, b | 0 <= a < b < |r| ensures r[a] < r[b] && data[r[a]] > data[r[b]] {
      if b == |w| {
        assert data[w[a]] >= data[w[|w| - 1]];
      }
    }
  }

  /** With the window complete, its front holds the maximum of `data[i+1-k .. i]`. */
  lemma ReportMax(data: seq<int>, w: seq<nat>, lo: nat, i: nat, k: nat)
    requires 0 < k <= i + 1 && Window(data, w, lo, i + 1) && lo <= i + 1 - k
    requires w != [] && w[0] + k > i
    ensures data[w[0]] == MaxOf(data[i + 1 - k..i + 1])
  {
    var m := data[w[0]];
    var s := data[i + 1 - k..i + 1];
    forall t | i + 1 - k <= t <= i ensures data[t] <= m {
      FrontIsMax(data, w, lo, t);
    }
    assert s[w[0] - (i + 1 - k)] == m;
    forall x | x in s ensures x <= m {
      var p :| 0 <= p < |s| && s[p] == x;
      assert x == data[i + 1 - k + p];
    }
    MaxOfUnique(s, m);
  }

  /** One round of the loop for index `i`: expire the front, outrank the back, push `i`. */
  method Advance(data: seq<int>, window: seq<nat>, i: nat, k: nat, ghost lo: nat)
    returns (w: seq<nat>, ghost lo': nat)
    requires k > 0 && i < |data| && Window(data, window, lo, i)
    requires lo == if i >= k then i - k else 0
    requires window != [] ==> window[0] + k >= i
    ensures Window(data, w, lo', i + 1) && lo' == if i + 1 >= k then i + 1 - k else 0
    ensures w != [] && w[0] + k > i
  {
    var expired;
    expired, lo' := DropExpired(data, window, i, k, lo);
    var lo1: nat := if i + 1 >= k then i + 1 - k else 0;
    RaiseLo(data, expired, lo', lo1);
    lo' := lo1;
    var kept := DropSmaller(data, expired, i, lo');
    PushWindow(data, kept, lo', i);
    w := kept + [i];
    assert w[0] == if kept == [] then i else expired[0];
  }

  /**
   * `example5_SlidingWindowPattern` on `data` with window size `k`: the maximum of every
   * complete window `data[j .. j+k-1]`, in order. A window size of 0 never completes a
   * window, because `static_cast<size_t>(k - 1)` wraps to the largest `size_t`.
   */
  method SlidingWindowMax(data: seq<int>, k: nat) returns (maxima: seq<int>)
    ensures |maxima| == if k > 0 && |data| >= k then |data| - k + 1 else 0
    ensures forall j :: 0 <= j < |maxima| ==> j + k <= |data| && maxima[j] == MaxOf(data[j..j + k])
  {
    maxima := [];
    if k == 0 {
      return;
    }
    var window: seq<nat> := [];
    ghost var lo: nat := 0;
    for i := 0 to |data|
      invariant Window(data, window, lo, i) && lo == (if i >= k then i - k else 0)
      invariant window != [] ==> window[0] + k >= i
      invariant |maxima| == if i >= k then i - k + 1 else 0
      invariant forall j :: 0 <= j < |maxima| ==> j + k <= i && maxima[j] == MaxOf(data[j..j + k])
    {
      window, lo := Advance(data, window, i, k, lo);
      if i + 1 >= k {
        ReportMax(data, window, lo, i, k);
        Report(data, maxima, k, i, data[window[0]]);
        maxima := maxima + [data[window[0]]];
      }
    }
  }

  /** Appending the maximum of the window ending at `i` extends the reported maxima by one window. */
  lemma Report(data: seq<int>, maxima: seq<int>, k: nat, i: nat, m: int)
    requires 0 < k <= i + 1 <= |data| && |maxima| == i + 1 - k
    requires forall j :: 0 <= j < |maxima| ==> j + k <= i && maxima[j] == MaxOf(data[j..j + k])
    requires m == MaxOf(data[i + 1 - k..i + 1])
    ensures forall j :: 0 <= j < |maxima| + 1 ==> j + k <= i + 1 && (maxima + [m])[j] == MaxOf(data[j..j + k])
  {
  }

  /** `example5_SlidingWindowPattern`: the data and window size of the demo. */
  method SlidingWindowDemo() returns (maxima: seq<int>)
    ensures maxima == [3, 3, 5, 5, 6, 7]
  {
    var data := [1, 3, -1, -3, 5, 3, 6, 7];
    maxima := SlidingWindowMax(data, 3);
    DemoMaxima(data);
  }

  /** The six windows of three in `1 3 -1 -3 5 3 6 7` peak at 3 3 5 5 6 7. */
  lemma DemoMaxima(data: seq<int>)
    requires data == [1, 3, -1, -3, 5, 3, 6, 7]
    ensures forall j :: 0 <= j < 6 ==> MaxOf(data[j..j + 3]) == [3, 3, 5, 5, 6, 7][j]
  {
    forall j | 0 <= j < 6 ensures MaxOf(data[j..j + 3]) == [3, 3, 5, 5, 6, 7][j] {
      ThreeMax(data, j, [3, 3, 5, 5, 6, 7][j]);
    }
  }

  /** The window of three at `j` peaks at `m` when `m` is one of its values and bounds them all. */
  lemma ThreeMax(data: seq<int>, j: nat, m: int)
    requires j + 3 <= |data|
    requires m == data[j] || m == data[j + 1] || m == data[j + 2]
    requires data[j] <= m && data[j + 1] <= m && data[j + 2] <= m
    ensures MaxOf(data[j..j + 3]) == m
  {
    var s := data[j..j + 3];
    assert s == [data[j], data[j + 1], data[j + 2]];
    MaxOfUnique(s, m);
  }

  // ---------------------------------------------------------------------------------------
  // Task scheduler
  // ---------------------------------------------------------------------------------------

  const UpdateTask := "Update database"
  const VerifyTask := "Verify database integrity"

  /** The tasks that processing `s` spawns: one verification per database update, in order. */
  function Spawns(s: seq<string>): (r: seq<string>)
    ensures forall j :: 0 <= j < |r| ==> r[j] == VerifyTask
    ensures |r| <= |s|
  {
    if s == [] then []
    else (if s[0] == UpdateTask then [VerifyTask] else []) + Spawns(s[1..])
  }

  lemma {:induction false} SpawnsAppend(a: seq<string>, b: seq<string>)
    ensures Spawns(a + b) == Spawns(a) + Spawns(b)
  {
    if a != [] {
      assert (a + b)[1..] == a[1..] + b;
      SpawnsAppend(a[1..], b);
    } else {
      assert a + b == b;
    }
  }

  /** Spawned tasks spawn nothing. */
  lemma {:induction false} SpawnsOfSpawns(s: seq<string>)
    ensures Spawns(Spawns(s)) == []
  {
    var r := Spawns(s);
    var i := |r|;
    while i > 0
      invariant 0 <= i <= |r| && Spawns(r[i..]) == []
    {
      i := i - 1;
      assert r[i..][1..] == r[i + 1..];
      assert r[i] != UpdateTask;
    }
  }

  /** Tasks still to look at, counting a database update twice for the verification it will add. */
  function Pending(q: seq<string>): nat
  {
    |q| + |Spawns(q)|
  }

  /**
   * Processing the front task keeps the loop's invariant: what has been processed and what
   * is queued are the initial tasks followed by the tasks spawned so far.
   */
  lemma TaskStep(queue: seq<string>, processed: seq<string>, q: seq<string>)
    requires q != [] && processed + q == queue + Spawns(processed)
    ensures var spawned := if q[0] == UpdateTask then [VerifyTask] else [];
      (processed + [q[0]]) + (q[1..] + spawned) == queue + Spawns(processed + [q[0]]) &&
      Pending(q[1..] + spawned) < Pending(q)
  {
    var current := q[0];
    var spawned := if current == UpdateTask then [VerifyTask] else [];
    assert Spawns(processed + [current]) == Spawns(processed) + spawned by {
      SpawnsAppend(processed, [current]);
      assert Spawns([current]) == spawned;
    }
    assert (processed + [current]) + (q[1..] + spawned) == (processed + q) + spawned by {
      assert [current] + q[1..] == q;
    }
    assert Pending(q[1..] + spawned) < Pending(q) by {
      SpawnsAppend([current], q[1..]);
      assert [current] + q[1..] == q;
      SpawnsAppend(q[1..], spawned);
      assert Spawns([current]) == spawned;
      assert Spawns(spawned) == [];
    }
  }

  /** When the queue runs dry, only the initial tasks' spawns have been added. */
  lemma TasksDone(queue: seq<string>, processed: seq<string>)
    requires processed == queue + Spawns(processed)
    ensures processed == queue + Spawns(queue)
  {
    SpawnsAppend(queue, Spawns(processed));
    SpawnsOfSpawns(processed);
  }

  /**
   * The processing loop: take the front task; a database update appends a verification
   * task at the back. Everything queued is processed first, then the spawned tasks.
   */
  method ProcessTasks(queue: seq<string>) returns (processed: seq<string>)
    ensures processed == queue + Spawns(queue)
  {
    var q := queue;
    processed := [];
    while q != []
      invariant processed + q == queue + Spawns(processed)
      decreases Pending(q)
    {
      TaskStep(queue, processed, q);
      var current := q[0];
      q := q[1..];
      processed := processed + [current];
      if current == UpdateTask {
        q := q + [VerifyTask];
      } else {
        assert q + [] == q;
      }
    }
    assert processed + [] == processed;
    TasksDone(queue, processed);
  }

  /**
   * `example6_TaskScheduler`: three tasks at the back, an emergency at the front; the
   * emergency runs first and the spawned verification last.
   */
  method SchedulerDemo() returns (processed: seq<string>)
    ensures processed == ["Emergency: Fix server", "Process data", "Send email", UpdateTask, VerifyTask]
  {
    var q: seq<string> := [];
    q := q + ["Process data"];
    q := q + ["Send email"];
    q := q + [UpdateTask];
    q := ["Emergency: Fix server"] + q;
    assert q == ["Emergency: Fix server", "Process data", "Send email", UpdateTask];
    assert Spawns(q[3..]) == [VerifyTask];
    assert Spawns(q[2..]) == [VerifyTask];
    assert Spawns(q[1..]) == [VerifyTask];
    assert Spawns(q) == [VerifyTask];
    processed := ProcessTasks(q);
  }
}
