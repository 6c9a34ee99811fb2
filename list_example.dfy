/**
 * The recent-files list of 01_SequenceContainers/ListExample.cpp: a `std::list<std::string>`
 * (modelled as a sequence, most recent first) and the `addRecentFile` lambda, which erases
 * every copy of the file, puts it at the front and drops the oldest entry once the list is
 * longer than `maxRecent`.
 */
module RecentFiles {

  /** `maxRecent`. */
  const MaxRecent: nat := 5

  ghost predicate NoDuplicates<T>(s: seq<T>)
  {
    forall i, j :: 0 <= i < j < |s| ==> s[i] != s[j]
  }

  /**
   * `a` is `b` with some elements deleted and the rest in their original order.
   */
  ghost predicate Subsequence<T>(a: seq<T>, b: seq<T>)
    decreases |b|
  {
    if a == [] then true
    else if b == [] then false
    else (a[0] == b[0] && Subsequence(a[1..], b[1..])) || Subsequence(a, b[1..])
  }

  /**
   * `std::list::remove(x)`: every element equal to `x` is erased. What is left is exactly the
   * other elements, in their original order.
   */
  function Without<T(==)>(s: seq<T>, x: T): (r: seq<T>)
    ensures x !in r
    ensures x !in s ==> r == s
  {
    if s == [] then []
    else if s[0] == x then Without(s[1..], x)
    else [s[0]] + Without(s[1..], x)
  }

  /** Erasing `x` keeps every other element and deletes rather than reorders. */
  lemma {:induction false} WithoutKeeps<T>(s: seq<T>, x: T)
    ensures Subsequence(Without(s, x), s)
    ensures forall i :: 0 <= i < |s| && s[i] != x ==> s[i] in Without(s, x)
  {
    if s != [] {
      WithoutKeeps(s[1..], x);
      var r := Without(s[1..], x);
      if s[0] == x {
        SubsequenceSkip(r, s);
      } else {
        assert ([s[0]] + r)[1..] == r;
      }
      forall i | 0 <= i < |s| && s[i] != x ensures s[i] in Without(s, x) {
        if i > 0 {
          assert s[i] == s[1..][i - 1];
        }
      }
    }
  }

  /** Deleting the first element of `b` keeps every subsequence of its tail a subsequence. */
  lemma SubsequenceSkip<T>(a: seq<T>, b: seq<T>)
    requires b != [] && Subsequence(a, b[1..])
    ensures Subsequence(a, b)
  {
  }

  /** Erasing `x` never introduces anything new. */
  lemma {:induction false} WithoutMembers<T>(s: seq<T>, x: T, y: T)
    requires y in Without(s, x)
    ensures y in s && y != x
  {
    if s[0] == x || y != s[0] {
      WithoutMembers(s[1..], x, y);
    }
  }

  /** The tail of a duplicate-free list is duplicate-free and does not hold its head. */
  lemma NoDuplicatesTail<T>(s: seq<T>)
    requires s != [] && NoDuplicates(s)
    ensures NoDuplicates(s[1..]) && s[0] !in s[1..]
  {
    forall i, j | 0 <= i < j < |s[1..]| ensures s[1..][i] != s[1..][j] {
      assert s[1..][i] == s[i + 1] && s[1..][j] == s[j + 1];
    }
    forall i | 0 <= i < |s[1..]| ensures s[1..][i] != s[0] {
      assert s[1..][i] == s[i + 1];
    }
  }

  /** Putting a new element in front of a duplicate-free list keeps it duplicate-free. */
  lemma NoDuplicatesCons<T>(a: T, w: seq<T>)
    requires a !in w && NoDuplicates(w)
    ensures NoDuplicates([a] + w)
  {
    var t := [a] + w;
    forall i, j | 0 <= i < j < |t| ensures t[i] != t[j] {
      assert t[j] == w[j - 1];
      if i > 0 {
        assert t[i] == w[i - 1];
      }
    }
  }

  /** Erasing `x` keeps a duplicate-free list duplicate-free and shortens it by at most one. */
  lemma {:induction false} WithoutDistinct<T>(s: seq<T>, x: T)
    requires NoDuplicates(s)
    ensures NoDuplicates(Without(s, x))
    ensures |Without(s, x)| == if x in s then |s| - 1 else |s|
  {
    if s != [] {
      var t := s[1..];
      NoDuplicatesTail(s);
      WithoutDistinct(t, x);
      var w := Without(t, x);
      assert x in s <==> s[0] == x || x in t;
      if s[0] != x {
        if s[0] in w {
          WithoutMembers(t, x, s[0]);
        }
        NoDuplicatesCons(s[0], w);
      }
    }
  }

  /**
   * The list after `addRecentFile(f)`: all copies of `f` erased, `f` pushed to the front,
   * and the back popped when the size went over `MaxRecent`.
   */
  function Added(s: seq<string>, f: string): (r: seq<string>)
    ensures r != [] && r[0] == f && f !in r[1..]
  {
    var t := [f] + Without(s, f);
    assert t[1..] == Without(s, f);
    if |t| > MaxRecent then t[..|t| - 1] else t
  }

  /** The files other than `f` keep their relative order: only deletions happened. */
  lemma AddedKeepsOrder(s: seq<string>, f: string)
    ensures Subsequence(Added(s, f)[1..], s)
  {
    WithoutKeeps(s, f);
    var w := Without(s, f);
    if |w| + 1 > MaxRecent {
      assert Added(s, f)[1..] == w[..|w| - 1];
      PrefixSubsequence(w, |w| - 1, s);
    } else {
      assert Added(s, f)[1..] == w;
    }
  }

  /** A prefix of a subsequence of `s` is again a subsequence of `s`. */
  lemma {:induction false} PrefixSubsequence<T>(a: seq<T>, n: nat, s: seq<T>)
    requires n <= |a| && Subsequence(a, s)
    ensures Subsequence(a[..n], s)
    decreases |s|
  {
    if n > 0 {
      assert a != [] && s != [];
      if a[0] == s[0] && Subsequence(a[1..], s[1..]) {
        assert a[1..][..n - 1] == a[..n][1..];
        PrefixSubsequence(a[1..], n - 1, s[1..]);
      } else {
        PrefixSubsequence(a, n, s[1..]);
      }
    }
  }

  /** Adding keeps the list duplicate-free and no longer than `MaxRecent`. */
  lemma AddedValid(s: seq<string>, f: string)
    requires NoDuplicates(s) && |s| <= MaxRecent
    ensures NoDuplicates(Added(s, f)) && |Added(s, f)| <= MaxRecent
  {
    WithoutDistinct(s, f);
    var w := Without(s, f);
    NoDuplicatesCons(f, w);
    var t := [f] + w;
    if |t| > MaxRecent {
      NoDuplicatesPrefix(t, |t| - 1);
    }
  }

  /** A prefix of a duplicate-free list is duplicate-free. */
  lemma NoDuplicatesPrefix<T>(s: seq<T>, n: nat)
    requires n <= |s| && NoDuplicates(s)
    ensures NoDuplicates(s[..n])
  {
    forall i, j | 0 <= i < j < n ensures s[..n][i] != s[..n][j] {
      assert s[..n][i] == s[i] && s[..n][j] == s[j];
    }
  }

  /** Re-adding a file already listed moves it to the front: same files, same size. */
  lemma {:induction false} ReAdded(s: seq<string>, f: string)
    requires NoDuplicates(s) && |s| <= MaxRecent && f in s
    ensures |Added(s, f)| == |s|
    ensures forall g :: g in Added(s, f) <==> g in s
  {
    WithoutDistinct(s, f);
    WithoutKeeps(s, f);
    var w := Without(s, f);
    assert Added(s, f) == [f] + w;
    forall g ensures g in Added(s, f) <==> g in s {
      if g in w {
        WithoutMembers(s, f, g);
      }
      if g in s && g != f {
        var i :| 0 <= i < |s| && s[i] == g;
        assert g in w;
      }
    }
  }

  /** Adding a new file to a list with room pushes it in front of all the others. */
  lemma NewWithRoom(s: seq<string>, f: string)
    requires f !in s && |s| < MaxRecent
    ensures Added(s, f) == [f] + s
  {
  }

  /** Adding a new file to a full list evicts exactly the oldest (back) file. */
  lemma NewWhenFull(s: seq<string>, f: string)
    requires f !in s && |s| == MaxRecent
    ensures Added(s, f) == [f] + s[..|s| - 1]
  {
    assert ([f] + s)[..|s|] == [f] + s[..|s| - 1];
  }

  /** Re-adding a listed file takes it out of its place and puts it at the front. */
  lemma MovedToFront(a: seq<string>, f: string, b: seq<string>)
    requires f !in a && f !in b && |a| + |b| < MaxRecent
    ensures Added(a + [f] + b, f) == [f] + a + b
  {
    WithoutSplit(a, f, b);
  }

  /** Erasing `f` from `a + [f] + b` leaves `a + b` when `f` occurs nowhere else. */
  lemma {:induction false} WithoutSplit<T>(a: seq<T>, f: T, b: seq<T>)
    requires f !in a && f !in b
    ensures Without(a + [f] + b, f) == a + b
  {
    if a == [] {
      assert (a + [f] + b)[1..] == b;
    } else {
      assert (a + [f] + b)[1..] == a[1..] + [f] + b;
      WithoutSplit(a[1..], f, b);
      assert a == [a[0]] + a[1..];
    }
  }

  /** The captured `recentFiles` list and the `addRecentFile` lambda that updates it. */
  class RecentList {
    var files: seq<string>

    ghost predicate Valid()
      reads this
    {
      NoDuplicates(files) && |files| <= MaxRecent
    }

    constructor ()
      ensures Valid() && files == []
    {
      files := [];
    }

    /** `addRecentFile(file)`: `remove`, `push_front`, then `pop_back` on overflow. */
    method AddRecentFile(file: string)
      requires Valid()
      modifies this
      ensures Valid()
      ensures files == Added(old(files), file)
    {
      AddedValid(files, file);
      files := Without(files, file);
      files := [file] + files;
      if |files| > MaxRecent {
        files := files[..|files| - 1];
      }
    }
  }

  /** The first four additions of the example: three new files, then `document1.txt` again. */
  lemma FirstAdditions()
    ensures Added([], "document1.txt") == ["document1.txt"]
    ensures Added(["document1.txt"], "image.png") == ["image.png", "document1.txt"]
    ensures Added(["image.png", "document1.txt"], "data.csv") == ["data.csv", "image.png", "document1.txt"]
    ensures Added(["data.csv", "image.png", "document1.txt"], "document1.txt") == ["document1.txt", "data.csv", "image.png"]
  {
    NewWithRoom([], "document1.txt");
    NewWithRoom(["document1.txt"], "image.png");
    NewWithRoom(["image.png", "document1.txt"], "data.csv");
    MovedToFront(["data.csv", "image.png"], "document1.txt", []);
    assert ["data.csv", "image.png", "document1.txt"] == ["data.csv", "image.png"] + ["document1.txt"] + [];
  }

  /** The last three additions of the example: the list fills up and `image.png` is evicted. */
  lemma LastAdditions()
    ensures Added(["document1.txt", "data.csv", "image.png"], "video.mp4") == ["video.mp4", "document1.txt", "data.csv", "image.png"]
    ensures Added(["video.mp4", "document1.txt", "data.csv", "image.png"], "audio.mp3") == ["audio.mp3", "video.mp4", "document1.txt", "data.csv", "image.png"]
    ensures Added(["audio.mp3", "video.mp4", "document1.txt", "data.csv", "image.png"], "document2.txt") == ["document2.txt", "audio.mp3", "video.mp4", "document1.txt", "data.csv"]
  {
    NewWithRoom(["document1.txt", "data.csv", "image.png"], "video.mp4");
    NewWithRoom(["video.mp4", "document1.txt", "data.csv", "image.png"], "audio.mp3");
    NewWhenFull(["audio.mp3", "video.mp4", "document1.txt", "data.csv", "image.png"], "document2.txt");
  }

  /**
   * ListExample.cpp `main`, recent-files part: seven additions, `document1.txt` twice.
   * `image.png` is the one evicted.
   */
  method Example() returns (recent: seq<string>)
    ensures recent == ["document2.txt", "audio.mp3", "video.mp4", "document1.txt", "data.csv"]
    ensures "image.png" !in recent
  {
    FirstAdditions();
    LastAdditions();
    var r := new RecentList();
    r.AddRecentFile("document1.txt");
    r.AddRecentFile("image.png");
    r.AddRecentFile("data.csv");
    r.AddRecentFile("document1.txt");
    r.AddRecentFile("video.mp4");
    r.AddRecentFile("audio.mp3");
    r.AddRecentFile("document2.txt");
    recent := r.files;
  }
}
