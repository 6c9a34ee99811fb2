/**
 * The `std::unordered_map` demos of 03_UnorderedContainers/UnorderedMapExample.cpp that
 * compute something: `operator[]` and `at` on a score table, the word frequency counter
 * (the same character loop as the ordered map's, here reused), and the Fibonacci function
 * memoised in a cache that the recursive lambda captures by reference. Hashing and bucket
 * layout play no part in what these demos compute.
 */
module UnorderedMapDemo {
  import opened Wrappers
  import opened Words
  import opened MapOps
  import MapDemo

  /**
   * `example2_ElementAccess`: "Math" gives 90; reading the missing "English" inserts it with
   * 0 and grows the table to three entries; `at("Science")` gives 85 and `at("History")`
   * throws.
   */
  method ElementAccessExample() returns (math: int, english: int, size: nat, science: Option<int>, history: Option<int>)
    ensures math == 90 && english == 0 && size == 3
    ensures science == Some(85) && history == None
  {
    var scores := map["Math" := 90, "Science" := 85];
    var r := Subscript(scores, "Math", 0);
    math, scores := r.0, r.1;
    r := Subscript(scores, "English", 0);
    english, scores := r.0, r.1;
    size := |scores|;
    science := At(scores, "Science");
    history := At(scores, "History");
  }

  /**
   * `example5_FrequencyCounter`: the same text and the same loop as the ordered map's word
   * counter; "the" is counted 3 times, "fox" twice and each of the six other words once.
   */
  method FrequencyExample() returns (freq: map<string, int>)
    ensures freq.Keys == {"the", "quick", "brown", "fox", "jumps", "over", "lazy", "dog"}
    ensures freq["the"] == 3 && freq["fox"] == 2
    ensures freq["quick"] == 1 && freq["brown"] == 1 && freq["jumps"] == 1
    ensures freq["over"] == 1 && freq["lazy"] == 1 && freq["dog"] == 1
  {
    freq := MapDemo.CountWords(MapDemo.Text);
    MapDemo.TextTokens();
    MapDemo.ExampleKeys(freq);
    MapDemo.ExampleCounts(freq);
  }

  // ---------------------------------------------------------------------------------------
  // Memoised Fibonacci
  // ---------------------------------------------------------------------------------------

  /** The Fibonacci numbers, 0, 1, 1, 2, 3, 5, ... */
  function Fib(n: nat): nat
  {
    if n <= 1 then n else Fib(n - 1) + Fib(n - 2)
  }

  /** The keys `fib(n)` stores: 2 up to `n`. */
  ghost function Span(n: int): (r: set<int>)
    ensures forall k :: k in r <==> 2 <= k <= n
    decreases n
  {
    if n < 2 then {} else Span(n - 1) + {n}
  }

  /**
   * A correct cache: it holds exactly the arguments from 2 up to `top`, each with its
   * Fibonacci number.
   */
  ghost predicate Memo(cache: map<int, int>, top: int)
  {
    && top >= 1
    && (forall k :: k in cache ==> 2 <= k <= top && cache[k] == Fib(k))
    && (forall k :: 2 <= k <= top ==> k in cache)
  }

  /** Storing `Fib(n)` in a correct cache of the arguments up to `n - 1` extends it by one. */
  lemma Extend(cache: map<int, int>, n: int, v: int)
    requires Memo(cache, n - 1) && n >= 2 && v == Fib(n)
    ensures Memo(cache[n := v], n)
  {
  }

  /** The cache of `example6_SimpleCache`, which the `fib` lambda captures by reference. */
  class FibCache {
    var cache: map<int, int>
    /** The largest argument stored so far, or 1 while nothing is. */
    ghost var top: int

    ghost predicate Valid()
      reads this
    {
      Memo(cache, top)
    }

    constructor()
      ensures Valid() && cache == map[] && top == 1
    {
      cache, top := map[], 1;
    }

    /**
     * `fib(n)`: `n` itself for `n <= 1`, without touching the cache; a stored value when `n`
     * is cached; otherwise `fib(n - 1) + fib(n - 2)`, which is then stored. Either way the
     * result is the Fibonacci number; a cached argument leaves the cache as it was, and a
     * larger one leaves every argument from 2 up to `n` cached. `n <= 46` keeps the result
     * within 32-bit `int`.
     */
    method Compute(n: int) returns (r: int)
      requires Valid() && n <= 46
      modifies this
      ensures Valid()
      ensures n >= 0 ==> r == Fib(n)
      ensures n <= 1 ==> r == n
      ensures n <= old(top) ==> cache == old(cache) && top == old(top)
      ensures n > old(top) ==> top == n
      decreases n
    {
      if n <= 1 {
        return n;
      }
      if n in cache {
        return cache[n];
      }
      var a := Compute(n - 1);
      var b := Compute(n - 2);
      r := a + b;
      Extend(cache, n, r);
      cache, top := cache[n := r], n;
    }
  }

  /** `n - 1` arguments, from 2 to `n`. */
  lemma {:induction false} SpanSize(n: int)
    requires n >= 1
    ensures |Span(n)| == n - 1
    decreases n
  {
    if n >= 2 {
      SpanSize(n - 1);
      assert n !in Span(n - 1);
    }
  }

  /** A correct cache of the arguments 2 to `n` has `n - 1` entries. */
  lemma CacheSize(cache: map<int, int>, n: int)
    requires Memo(cache, n)
    ensures |cache| == n - 1
  {
    assert cache.Keys == Span(n);
    SpanSize(n);
  }

  lemma FibTen()
    ensures Fib(10) == 55
  {
    assert Fib(2) == 1 && Fib(3) == 2 && Fib(4) == 3 && Fib(5) == 5 && Fib(6) == 8;
    assert Fib(7) == 13 && Fib(8) == 21 && Fib(9) == 34;
  }

  /**
   * `example6_SimpleCache`: `fib(10)` is 55 and leaves arguments 2 to 10 cached, 9 entries;
   * the second `fib(10)` is 55 again, answered from the cache, which stays as it was.
   */
  method CacheExample() returns (first: int, size: nat, second: int, sizeAgain: nat)
    ensures first == 55 && size == 9
    ensures second == 55 && sizeAgain == 9
  {
    var memo := new FibCache();
    first := memo.Compute(10);
    FibTen();
    CacheSize(memo.cache, 10);
    size := |memo.cache|;
    second := memo.Compute(10);
    CacheSize(memo.cache, 10);
    sizeAgain := |memo.cache|;
  }
}
