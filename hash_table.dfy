/**
 * Open-addressing hash table with linear probing
 * (10_DataStructures/06_HashTable/HashTableImplementation.cpp).
 *
 * The table is an array of entries; a key is placed in the first free slot met when
 * probing from its hash, one slot at a time, wrapping around. Nothing is ever deleted.
 */
module HashTableImpl {

  /** One slot: `Entry { int key; bool occupied = false; }`; value-initialised to key 0. */
  datatype Entry = Entry(key: int, occupied: bool)

  const Free := Entry(0, false)

  /** 2^64: `static_cast<std::size_t>` of a negative int wraps modulo this. */
  const SizeTModulus: int := 0x1_0000_0000_0000_0000

  /** `hash(k) = static_cast<size_t>(k) % table.size()`; a zero-sized table would divide by zero. */
  function Hash(k: int, cap: nat): (h: nat)
    requires cap > 0
    ensures h < cap
    ensures 0 <= k < SizeTModulus ==> h == k % cap
  {
    (k % SizeTModulus) % cap
  }

  /** The slot after slot `i`: `(i + 1) % n` for a slot index `i < n`. */
  function Next(i: nat, n: nat): (j: nat)
    requires i < n
    ensures j < n && j == (i + 1) % n
  {
    if i + 1 < n then i + 1 else 0
  }

  /** The slot visited after `d` steps of linear probing from slot `h`; `d == n` is back at `h`. */
  function Probe(h: nat, d: nat, n: nat): (i: nat)
    requires h < n && d <= n
    ensures i < n
    ensures d < n ==> i == (h + d) % n
  {
    if h + d < n then NoWrap(h + d, n); h + d else WrapOnce(h + d, n); h + d - n
  }

  /** One more probing step moves to the next slot. */
  lemma ProbeAdvance(h: nat, d: nat, n: nat)
    requires h < n && d < n
    ensures Next(Probe(h, d, n), n) == Probe(h, d + 1, n)
  {
  }

  lemma NoWrap(x: nat, n: nat)
    requires x < n
    ensures x % n == x
  {
  }

  /** A value below `2n` and at least `n` leaves `x - n` modulo `n`. */
  lemma WrapOnce(x: nat, n: nat)
    requires n <= x < 2 * n
    ensures x % n == x - n
  {
    assert x == 1 * n + (x - n);
  }

  /** The number of probing steps from slot `h` to slot `i`. */
  function Dist(h: nat, i: nat, n: nat): (d: nat)
    requires h < n && i < n
    ensures d < n && Probe(h, d, n) == i
  {
    if h <= i then i - h else i + n - h
  }

  lemma DistOfProbe(h: nat, d: nat, n: nat)
    requires h < n && d < n
    ensures Dist(h, Probe(h, d, n), n) == d
  {
  }

  /** The first `d` slots probed from `h` are all occupied. */
  ghost predicate RunOccupied(s: seq<Entry>, h: nat, d: nat)
    requires h < |s| && d <= |s|
  {
    forall e :: 0 <= e < d ==> s[Probe(h, e, |s|)].occupied
  }

  /**
   * The probe-chain invariant: between the hash slot of every stored key and the slot
   * that holds it, every slot is occupied.
   */
  ghost predicate ChainsIntact(s: seq<Entry>)
    requires |s| > 0
  {
    forall i :: 0 <= i < |s| ==> ChainIntact(s, i)
  }

  /** The chain of the key in slot `i`, if any, is unbroken. */
  ghost predicate ChainIntact(s: seq<Entry>, i: nat)
    requires i < |s|
  {
    s[i].occupied ==> RunOccupied(s, Hash(s[i].key, |s|), Dist(Hash(s[i].key, |s|), i, |s|))
  }

  /** The number of occupied slots. */
  function Occupied(s: seq<Entry>): (c: nat)
    ensures c <= |s|
  {
    if s == [] then 0 else Occupied(s[..|s| - 1]) + (if s[|s| - 1].occupied then 1 else 0)
  }

  /** The keys held by occupied slots, with repetitions. */
  function StoredKeys(s: seq<Entry>): multiset<int>
  {
    if s == [] then multiset{}
    else StoredKeys(s[..|s| - 1]) + (if s[|s| - 1].occupied then multiset{s[|s| - 1].key} else multiset{})
  }

  lemma {:induction false} EmptyTable(s: seq<Entry>)
    requires forall i :: 0 <= i < |s| ==> !s[i].occupied
    ensures Occupied(s) == 0 && StoredKeys(s) == multiset{}
  {
    if s != [] {
      EmptyTable(s[..|s| - 1]);
    }
  }

  /** Filling one free slot adds one to the count and exactly its key to the stored keys. */
  lemma FillSlot(s: seq<Entry>, j: nat, k: int)
    requires j < |s| && !s[j].occupied
    ensures Occupied(s[j := Entry(k, true)]) == Occupied(s) + 1
    ensures StoredKeys(s[j := Entry(k, true)]) == StoredKeys(s) + multiset{k}
  {
    FillCount(s, j, k);
    FillKeys(s, j, k);
  }

  lemma {:induction false} FillCount(s: seq<Entry>, j: nat, k: int)
    requires j < |s| && !s[j].occupied
    ensures Occupied(s[j := Entry(k, true)]) == Occupied(s) + 1
  {
    var t := s[j := Entry(k, true)];
    var p := s[..|s| - 1];
    if j < |s| - 1 {
      UpdateBeforeLast(s, j, Entry(k, true));
      FillCount(p, j, k);
    } else {
      assert t[..|t| - 1] == p;
    }
  }

  lemma {:induction false} FillKeys(s: seq<Entry>, j: nat, k: int)
    requires j < |s| && !s[j].occupied
    ensures StoredKeys(s[j := Entry(k, true)]) == StoredKeys(s) + multiset{k}
  {
    var t := s[j := Entry(k, true)];
    var p := s[..|s| - 1];
    if j < |s| - 1 {
      UpdateBeforeLast(s, j, Entry(k, true));
      FillKeys(p, j, k);
      var last := if s[|s| - 1].occupied then multiset{s[|s| - 1].key} else multiset{};
      AddBeforeLast(StoredKeys(p), k, last);
    } else {
      assert t[..|t| - 1] == p;
    }
  }

  /** Updating a slot before the last one leaves the last alone. */
  lemma UpdateBeforeLast(s: seq<Entry>, j: nat, x: Entry)
    requires j < |s| - 1
    ensures var t := s[j := x]; t[..|t| - 1] == s[..|s| - 1][j := x] && t[|t| - 1] == s[|s| - 1]
  {
  }

  /** Adding `k` before or after the last slot's keys comes to the same. */
  lemma AddBeforeLast(a: multiset<int>, k: int, last: multiset<int>)
    ensures a + multiset{k} + last == a + last + multiset{k}
  {
  }

  /** A key is among the stored keys exactly when some occupied slot holds it. */
  lemma {:induction false} StoredKeysMember(s: seq<Entry>, k: int)
    ensures k in StoredKeys(s) <==> exists i :: 0 <= i < |s| && s[i].occupied && s[i].key == k
  {
    if s != [] {
      var p := s[..|s| - 1];
      StoredKeysMember(p, k);
      if k in StoredKeys(p) {
        var i :| 0 <= i < |p| && p[i].occupied && p[i].key == k;
        assert s[i] == p[i];
      }
      if exists i :: 0 <= i < |s| && s[i].occupied && s[i].key == k {
        var i :| 0 <= i < |s| && s[i].occupied && s[i].key == k;
        if i < |p| {
          assert p[i] == s[i];
        }
      }
    }
  }

  /** If every slot is occupied, the count is the table size. */
  lemma {:induction false} AllOccupied(s: seq<Entry>)
    requires forall i :: 0 <= i < |s| ==> s[i].occupied
    ensures Occupied(s) == |s|
  {
    if s != [] {
      AllOccupied(s[..|s| - 1]);
    }
  }

  /** A run of `|s|` occupied probes covers the whole table. */
  lemma FullRun(s: seq<Entry>, h: nat)
    requires |s| > 0 && h < |s| && RunOccupied(s, h, |s|)
    ensures Occupied(s) == |s|
  {
    forall i | 0 <= i < |s| ensures s[i].occupied {
      assert Probe(h, Dist(h, i, |s|), |s|) == i;
    }
    AllOccupied(s);
  }

  /**
   * Why an unsuccessful lookup is right: the probe from `hash(k)` passed `d` slots that hold
   * other keys and then either met a free slot or wrapped all the way round.
   */
  lemma ProbeStopped(s: seq<Entry>, k: int, d: nat, wrapped: bool)
    requires |s| > 0 && ChainsIntact(s) && d <= |s|
    requires forall e :: 0 <= e < d ==> s[Probe(Hash(k, |s|), e, |s|)].occupied && s[Probe(Hash(k, |s|), e, |s|)].key != k
    requires if wrapped then d == |s| else d < |s| && !s[Probe(Hash(k, |s|), d, |s|)].occupied
    ensures !exists i :: 0 <= i < |s| && s[i].occupied && s[i].key == k
  {
    var n, h := |s|, Hash(k, |s|);
    forall i | 0 <= i < n && s[i].occupied ensures s[i].key != k {
      assert ChainIntact(s, i);
      var e := Dist(h, i, n);
    }
  }

  /** Putting `k` in the free slot that ends an occupied run from `hash(k)` keeps every chain unbroken. */
  lemma FillKeepsChains(s: seq<Entry>, k: int, d: nat)
    requires |s| > 0 && ChainsIntact(s) && d < |s|
    requires RunOccupied(s, Hash(k, |s|), d) && !s[Probe(Hash(k, |s|), d, |s|)].occupied
    ensures ChainsIntact(s[Probe(Hash(k, |s|), d, |s|) := Entry(k, true)])
  {
    var n, h := |s|, Hash(k, |s|);
    var j := Probe(h, d, n);
    var t := s[j := Entry(k, true)];
    DistOfProbe(h, d, n);
    forall i | 0 <= i < n ensures ChainIntact(t, i) {
      if i != j {
        assert s[i] == t[i];
        assert ChainIntact(s, i);
      }
    }
  }

  class HashTable {
    var table: array<Entry>
    var count: nat

    /** `count` is the number of occupied slots, and every probe chain is unbroken. */
    ghost predicate Valid()
      reads this, table
    {
      count == Occupied(table[..]) &&
      (table.Length > 0 ==> ChainsIntact(table[..]))
    }

    /** The abstract value: the multiset of stored keys. */
    ghost function Keys(): multiset<int>
      reads this, table
    {
      StoredKeys(table[..])
    }

    /** `HashTable(cap)`: `cap` free slots. */
    constructor (cap: nat)
      ensures Valid() && fresh(table) && table.Length == cap
      ensures count == 0 && Keys() == multiset{}
    {
      table := new Entry[cap](_ => Free);
      count := 0;
      new;
      EmptyTable(table[..]);
    }

    /**
     * `insert(k)`: on a full table returns false and changes nothing; otherwise fills the
     * first free slot probed from `hash(k)` with `k` (duplicates included) and returns true.
     */
    method Insert(k: int) returns (ok: bool)
      requires Valid()
      modifies this, table
      ensures Valid() && table == old(table)
      ensures ok <==> old(count) < table.Length
      ensures !ok ==> count == old(count) && table[..] == old(table[..])
      ensures ok ==> count == old(count) + 1 && Keys() == old(Keys()) + multiset{k}
      ensures ok ==> exists j :: 0 <= j < table.Length && !old(table[j]).occupied &&
                                table[..] == old(table[..])[j := Entry(k, true)]
    {
      if count == table.Length {
        return false;
      }
      var n := table.Length;
      var h := Hash(k, n);
      var idx := h;
      ghost var s := table[..];
      ghost var d := 0;
      while table[idx].occupied
        invariant table == old(table) && table[..] == s && count == old(count)
        invariant 0 <= d < n && idx == Probe(h, d, n)
        invariant RunOccupied(s, h, d)
        decreases n - d
      {
        assert RunOccupied(s, h, d + 1);
        if d + 1 == n {
          FullRun(s, h);
          assert false;
        }
        idx := Next(idx, n);
        d := d + 1;
      }
      table[idx] := Entry(k, true);
      count := count + 1;
      ok := true;
      assert table[..] == s[idx := Entry(k, true)];
      FillSlot(s, idx, k);
      FillKeepsChains(s, k, d);
    }

    /**
     * `contains(k)`: probes from `hash(k)` while slots are occupied, stopping after one
     * full wrap. It is true exactly when `k` is stored.
     */
    method Contains(k: int) returns (found: bool)
      requires Valid() && table.Length > 0
      ensures found <==> k in Keys()
    {
      var n := table.Length;
      var idx := Hash(k, n);
      var start := idx;
      ghost var d := 0;
      ghost var wrapped := false;
      while table[idx].occupied
        invariant n == table.Length && start == Hash(k, n)
        invariant 0 <= d < n && idx == Probe(start, d, n) && !wrapped
        invariant forall e :: 0 <= e < d ==> table[Probe(start, e, n)].occupied && table[Probe(start, e, n)].key != k
        decreases n - d
      {
        if table[idx].key == k {
          assert table[..][idx] == table[idx];
          StoredKeysMember(table[..], k);
          return true;
        }
        ProbeAdvance(start, d, n);
        idx := Next(idx, n);
        d := d + 1;
        if idx == start {
          wrapped := true;
          break;
        }
      }
      StoredKeysMember(table[..], k);
      ProbeStopped(table[..], k, d, wrapped);
      return false;
    }
  }

  /** `main`: four keys that all hash to slot 5 of 11, then two lookups; and a duplicate insert. */
  method Example() returns (has16: bool, has99: bool, countAfterDuplicate: nat)
    ensures has16 && !has99 && countAfterDuplicate == 5
  {
    var ht := FourKeys();
    has16 := ht.Contains(16);
    has99 := ht.Contains(99);
    var ok := ht.Insert(16);
    countAfterDuplicate := ht.count;
  }

  /** The table of `main` after its four inserts, each of which succeeds. */
  method FourKeys() returns (ht: HashTable)
    ensures fresh(ht) && fresh(ht.table) && ht.Valid() && ht.table.Length == 11
    ensures ht.count == 4 && ht.Keys() == multiset{5, 16, 27, 38}
  {
    ht := new HashTable(11);
    var ok := ht.Insert(5);
    assert ht.count == 1 && ht.Keys() == multiset{5};
    ok := ht.Insert(16);
    assert ht.count == 2 && ht.Keys() == multiset{5, 16};
    ok := ht.Insert(27);
    assert ht.count == 3 && ht.Keys() == multiset{5, 16, 27};
    ok := ht.Insert(38);
  }
}
