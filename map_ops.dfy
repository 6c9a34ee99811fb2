/**
 * The parts of `std::map` and `std::unordered_map` that the demos rely on, over a Dafny
 * `map`: `operator[]` (inserts a value-initialised entry for a missing key), `insert`
 * (refuses an existing key), `at` (throws `std::out_of_range` for a missing key, here
 * `None`), and `m[k]++` as the word counters use it; plus the sum of the stored counts and
 * the tally of a list of words.
 */
module MapOps {
  import opened Wrappers

  /**
   * `m[k]` read as a value, `zero` being the value-initialised `V`: an existing entry is
   * returned as it is; a missing key is first inserted with `zero`, growing the map by one.
   */
  function Subscript<K, V>(m: map<K, V>, k: K, zero: V): (r: (V, map<K, V>))
    ensures r.1.Keys == m.Keys + {k} && r.1[k] == r.0
    ensures forall j :: j in m ==> r.1[j] == m[j]
    ensures k in m ==> r.0 == m[k]
    ensures k !in m ==> r.0 == zero && |r.1| == |m| + 1
  {
    if k in m then (m[k], m) else (zero, m[k := zero])
  }

  /**
   * `insert({k, v})`: reports success only for a new key; an existing key keeps its value
   * and the map is unchanged.
   */
  function Insert<K, V>(m: map<K, V>, k: K, v: V): (r: (map<K, V>, bool))
    ensures r.1 <==> k !in m
    ensures r.0.Keys == m.Keys + {k}
    ensures forall j :: j in m ==> r.0[j] == m[j]
    ensures !r.1 ==> r.0 == m
    ensures r.1 ==> r.0[k] == v && |r.0| == |m| + 1
  {
    if k in m then (m, false) else (m[k := v], true)
  }

  /** `at(k)`: the stored value, or `None` where `at` throws `std::out_of_range`. */
  function At<K, V>(m: map<K, V>, k: K): (r: Option<V>)
    ensures r.Some? <==> k in m
    ensures r.Some? ==> r.value == m[k]
  {
    if k in m then Some(m[k]) else None
  }

  /** `m[k]++`: `operator[]` first inserts a missing key with 0, which is then incremented. */
  function Bump<K>(m: map<K, int>, k: K): (r: map<K, int>)
    ensures r.Keys == m.Keys + {k}
    ensures r[k] == (if k in m then m[k] else 0) + 1
    ensures forall j :: j in m && j != k ==> r[j] == m[j]
  {
    if k in m then m[k := m[k] + 1] else m[k := 1]
  }

  /** The sum of all stored values. */
  ghost function Total<K>(m: map<K, int>): int
    decreases |m|
  {
    if |m| == 0 then 0
    else
      var k :| k in m;
      m[k] + Total(m - {k})
  }

  /** Any one entry can be taken out of the sum first. */
  lemma {:induction false} TotalWithout<K>(m: map<K, int>, k: K)
    requires k in m
    ensures Total(m) == m[k] + Total(m - {k})
    decreases |m|
  {
    assert |m| != 0 by {
      assert k in m.Keys;
    }
    var j :| j in m && Total(m) == m[j] + Total(m - {j});
    if j != k {
      var mj, mk := m - {j}, m - {k};
      RemoveOne(m, j);
      RemoveOne(m, k);
      TotalWithout(mj, k);
      TotalWithout(mk, j);
      RemoveBoth(m, j, k);
      calc {
        Total(m);
        m[j] + Total(mj);
        m[j] + m[k] + Total(mj - {k});
        m[k] + m[j] + Total(mk - {j});
        m[k] + Total(mk);
      }
    }
  }

  /** Taking out a key leaves the other entries, one fewer. */
  lemma RemoveOne<K>(m: map<K, int>, k: K)
    requires k in m
    ensures |m - {k}| == |m| - 1
    ensures forall j :: j in m && j != k ==> j in m - {k} && (m - {k})[j] == m[j]
  {
    assert (m - {k}).Keys == m.Keys - {k};
  }

  /** Taking out two keys in either order leaves the same map. */
  lemma RemoveBoth<K>(m: map<K, int>, j: K, k: K)
    ensures m - {j} - {k} == m - {k} - {j}
  {
  }

  /** `m[k]++` adds one to the sum. */
  lemma TotalBump<K>(m: map<K, int>, k: K)
    ensures Total(Bump(m, k)) == Total(m) + 1
  {
    var r := Bump(m, k);
    TotalWithout(r, k);
    if k in m {
      TotalWithout(m, k);
      assert r - {k} == m - {k};
    } else {
      assert r - {k} == m;
    }
  }

  /** When every value is at least 1 the sum is at least the number of entries. */
  lemma {:induction false} TotalAtLeastSize<K>(m: map<K, int>)
    requires forall k :: k in m ==> m[k] >= 1
    ensures Total(m) >= |m|
    decreases |m|
  {
    if |m| != 0 {
      var k :| k in m && Total(m) == m[k] + Total(m - {k});
      TotalAtLeastSize(m - {k});
    }
  }

  /** Values of at least 1 that add up to the number of entries are all exactly 1. */
  lemma TotalOnes<K>(m: map<K, int>)
    requires forall k :: k in m ==> m[k] >= 1
    requires Total(m) == |m|
    ensures forall k :: k in m ==> m[k] == 1
  {
    forall k | k in m ensures m[k] == 1 {
      TotalWithout(m, k);
      TotalAtLeastSize(m - {k});
    }
  }

  /** `m` holds, for every word of `ws` and no other key, how often it occurs in `ws`. */
  ghost predicate Tallies(m: map<string, int>, ws: seq<string>)
  {
    (forall w :: w in m <==> w in ws) && (forall w :: w in m ==> m[w] == multiset(ws)[w])
  }

  /** `m` tallies `ws`, and its counts add up to the number of words. */
  ghost predicate Counts(m: map<string, int>, ws: seq<string>)
  {
    Tallies(m, ws) && Total(m) == |ws|
  }

  lemma CountsStart()
    ensures Counts(map[], [])
  {
  }

  /** Counting one more word keeps the tally and its sum up to date. */
  lemma CountStep(m: map<string, int>, ws: seq<string>, w: string)
    requires Counts(m, ws)
    ensures Counts(Bump(m, w), ws + [w])
  {
    TotalBump(m, w);
    TallyBump(m, ws, w);
  }

  lemma TallyBump(m: map<string, int>, ws: seq<string>, w: string)
    requires Tallies(m, ws)
    ensures Tallies(Bump(m, w), ws + [w])
  {
    var r := Bump(m, w);
    var ms := multiset(ws + [w]);
    assert ms == multiset(ws) + multiset{w};
    forall v ensures v in r <==> v in ws + [w] {
      assert v in ws + [w] <==> v in ws || v == w;
    }
    forall v | v in r ensures r[v] == ms[v] {
      if v != w {
        assert r[v] == m[v];
      }
    }
  }

  /** In a tally every stored count is at least 1, and the empty list tallies to nothing. */
  lemma TallyPositive(m: map<string, int>, ws: seq<string>)
    requires Tallies(m, ws)
    ensures forall w :: w in m ==> m[w] >= 1
    ensures ws == [] <==> m == map[]
  {
    if ws != [] {
      assert ws[0] in m;
    }
  }
}
