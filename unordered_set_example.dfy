/**
 * The `std::unordered_set` demos of 03_UnorderedContainers/UnorderedSetExample.cpp that
 * compute something: `insert` reporting whether the element was new, deduplication of
 * points by their `operator==`, and the duplicate-detection loop. A Dafny `set` stands for
 * the container; the hash function decides only bucket placement, which is not modelled.
 */
module UnorderedSetDemo {

  /** `insert(x)`: the set afterwards, and whether `x` was new. */
  function Insert<T>(s: set<T>, x: T): (r: (set<T>, bool))
    ensures r.1 <==> x !in s
    ensures x in r.0 && s <= r.0 && r.0 - {x} <= s
    ensures !r.1 ==> r.0 == s
    ensures r.1 ==> |r.0| == |s| + 1
  {
    if x in s then (s, false) else (s + {x}, true)
  }

  /**
   * `example1_BasicOperations`: inserting 3 into {5, 2, 8, 1, 9} succeeds and gives six
   * elements; inserting 5 changes nothing.
   */
  method InsertExample() returns (inserted: bool, size: nat, again: bool, sizeAgain: nat)
    ensures inserted && size == 6 && !again && sizeAgain == 6
  {
    var us: set<int> := {5, 2, 8, 1, 9};
    var r := Insert(us, 3);
    us, inserted := r.0, r.1;
    size := |us|;
    r := Insert(us, 5);
    us, again := r.0, r.1;
    sizeAgain := |us|;
  }

  /** The `Point` of `example4_CustomHashFunction`, equal when both coordinates are. */
  datatype Point = Point(x: int, y: int)

  /**
   * `example4_CustomHashFunction`: inserting (1, 2), (3, 4) and (1, 2) again leaves two
   * points, and (3, 4) is found.
   */
  method PointExample() returns (size: nat, found: bool)
    ensures size == 2 && found
  {
    var points: set<Point> := {};
    points := Insert(points, Point(1, 2)).0;
    points := Insert(points, Point(3, 4)).0;
    points := Insert(points, Point(1, 2)).0;
    size := |points|;
    found := Point(3, 4) in points;
  }

  // ---------------------------------------------------------------------------------------
  // Duplicate detection
  // ---------------------------------------------------------------------------------------

  /** The distinct values of `s`. */
  ghost function Distinct<T>(s: seq<T>): set<T>
  {
    set x | x in s
  }

  /** Every occurrence of a value after its first, in order of occurrence. */
  function Repeats<T(==)>(s: seq<T>): seq<T>
  {
    if s == [] then []
    else
      var front, last := s[..|s| - 1], s[|s| - 1];
      Repeats(front) + (if last in front then [last] else [])
  }

  /**
   * `example6_DuplicateDetection`'s loop: a value already seen is appended to `duplicates`,
   * any other is added to `seen`. Afterwards `seen` holds the distinct values and
   * `duplicates` every later occurrence, so that together they account for every element.
   */
  method DetectDuplicates<T(==)>(data: seq<T>) returns (seen: set<T>, duplicates: seq<T>)
    ensures seen == Distinct(data)
    ensures duplicates == Repeats(data)
    ensures |seen| + |duplicates| == |data|
  {
    seen, duplicates := {}, [];
    for i := 0 to |data|
      invariant seen == Distinct(data[..i]) && duplicates == Repeats(data[..i])
    {
      DetectStep(data, i);
      if data[i] in seen {
        duplicates := duplicates + [data[i]];
      } else {
        seen := seen + {data[i]};
      }
    }
    assert data[..|data|] == data;
    DistinctAndRepeats(data);
  }

  lemma DetectStep<T>(data: seq<T>, i: nat)
    requires i < |data|
    ensures Distinct(data[..i + 1]) == Distinct(data[..i]) + {data[i]}
    ensures data[i] in Distinct(data[..i]) ==> Repeats(data[..i + 1]) == Repeats(data[..i]) + [data[i]]
    ensures data[i] !in Distinct(data[..i]) ==> Repeats(data[..i + 1]) == Repeats(data[..i])
  {
    assert data[..i + 1][..i] == data[..i];
    DistinctStep(data[..i + 1]);
  }

  /** One more element is either a new distinct value or one more repeat. */
  lemma DistinctStep<T>(s: seq<T>)
    requires s != []
    ensures var front, last := s[..|s| - 1], s[|s| - 1];
      Distinct(s) == Distinct(front) + {last}
      && (last in Distinct(front) <==> last in front)
  {
    var front, last := s[..|s| - 1], s[|s| - 1];
    assert s == front + [last];
  }

  /**
   * The repeats of a value are all its occurrences but the first: a value occurring `c`
   * times is repeated `c - 1` times.
   */
  lemma {:induction false} RepeatsCount<T>(s: seq<T>, x: T)
    ensures multiset(Repeats(s))[x] == if x in s then multiset(s)[x] - 1 else 0
  {
    if s != [] {
      var front, last := s[..|s| - 1], s[|s| - 1];
      assert s == front + [last];
      RepeatsCount(front, x);
    }
  }

  /** `seen.size() + duplicates.size() == data.size()` for every input. */
  lemma {:induction false} DistinctAndRepeats<T>(s: seq<T>)
    ensures |Distinct(s)| + |Repeats(s)| == |s|
  {
    if s != [] {
      var front, last := s[..|s| - 1], s[|s| - 1];
      DistinctStep(s);
      DistinctAndRepeats(front);
    }
  }

  const Data: seq<int> := [1, 2, 3, 2, 4, 5, 3, 6, 1, 7]

  /** The definition, read for a sequence written as its front and last element. */
  lemma RepeatsSnoc<T>(front: seq<T>, last: T)
    ensures Repeats(front + [last]) == Repeats(front) + (if last in front then [last] else [])
  {
    assert (front + [last])[..|front|] == front;
  }

  /** The repeats of the demo data, three or four elements at a time. */
  lemma DataRepeats()
    ensures Repeats(Data) == [2, 3, 1]
  {
    RepeatsSnoc([], 1);
    assert [] + [1] == [1];
    RepeatsSnoc([1], 2);
    assert [1] + [2] == [1, 2];
    RepeatsSnoc([1, 2], 3);
    assert [1, 2] + [3] == [1, 2, 3];
    RepeatsUpToFive();
    RepeatsUpToEight();
    RepeatsUpToTen();
  }

  lemma RepeatsUpToFive()
    requires Repeats([1, 2, 3]) == []
    ensures Repeats([1, 2, 3, 2, 4]) == [2]
  {
    RepeatsSnoc([1, 2, 3], 2);
    assert [1, 2, 3] + [2] == [1, 2, 3, 2];
    RepeatsSnoc([1, 2, 3, 2], 4);
    assert [1, 2, 3, 2] + [4] == [1, 2, 3, 2, 4];
  }

  lemma RepeatsUpToEight()
    requires Repeats([1, 2, 3, 2, 4]) == [2]
    ensures Repeats([1, 2, 3, 2, 4, 5, 3, 6]) == [2, 3]
  {
    RepeatsSnoc([1, 2, 3, 2, 4], 5);
    assert [1, 2, 3, 2, 4] + [5] == [1, 2, 3, 2, 4, 5];
    RepeatsSnoc([1, 2, 3, 2, 4, 5], 3);
    assert [1, 2, 3, 2, 4, 5] + [3] == [1, 2, 3, 2, 4, 5, 3];
    RepeatsSnoc([1, 2, 3, 2, 4, 5, 3], 6);
    assert [1, 2, 3, 2, 4, 5, 3] + [6] == [1, 2, 3, 2, 4, 5, 3, 6];
  }

  lemma RepeatsUpToTen()
    requires Repeats([1, 2, 3, 2, 4, 5, 3, 6]) == [2, 3]
    ensures Repeats(Data) == [2, 3, 1]
  {
    RepeatsSnoc([1, 2, 3, 2, 4, 5, 3, 6], 1);
    assert [1, 2, 3, 2, 4, 5, 3, 6] + [1] == [1, 2, 3, 2, 4, 5, 3, 6, 1];
    RepeatsSnoc([1, 2, 3, 2, 4, 5, 3, 6, 1], 7);
    assert [1, 2, 3, 2, 4, 5, 3, 6, 1] + [7] == Data;
  }

  /**
   * `example6_DuplicateDetection`: 7 distinct values, and 2, 3 and 1 found again, in that
   * order.
   */
  method DuplicateExample() returns (unique: nat, duplicates: seq<int>)
    ensures unique == 7 && duplicates == [2, 3, 1]
  {
    var seen;
    seen, duplicates := DetectDuplicates(Data);
    DataRepeats();
    unique := |seen|;
  }
}
