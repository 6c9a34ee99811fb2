/**
 * The `std::multiset` algorithms of 02_AssociativeContainers/MultisetExample.cpp. A
 * multiset is modelled by its storage: a sequence kept in ascending order, a new element
 * going after the elements equal to it. On it run the tokenizer loop that inserts every
 * word, the loop that visits each distinct element once by advancing over `count` equal
 * elements, and the most-frequent selection that keeps the first of equally frequent words.
 */
module MultisetDemo {
  import opened Words
  import MapDemo

  // ---------------------------------------------------------------------------------------
  // Sorted storage and insert
  // ---------------------------------------------------------------------------------------

  /** Ascending, equal elements allowed. */
  ghost predicate Sorted(s: seq<string>)
  {
    forall i, j :: 0 <= i < j < |s| ==> !Less(s[j], s[i])
  }

  /** `insert(w)`: `w` goes in front of the first element greater than it. */
  function InsertSorted(s: seq<string>, w: string): (r: seq<string>)
    ensures multiset(r) == multiset(s) + multiset{w}
  {
    if s == [] then [w]
    else if Less(w, s[0]) then [w] + s
    else
      assert s == [s[0]] + s[1..];
      [s[0]] + InsertSorted(s[1..], w)
  }

  lemma SortedTail(s: seq<string>)
    requires s != [] && Sorted(s)
    ensures Sorted(s[1..]) && forall k :: 0 <= k < |s[1..]| ==> !Less(s[1..][k], s[0])
  {
    forall i, j | 0 <= i < j < |s[1..]| ensures !Less(s[1..][j], s[1..][i]) {
      assert s[1..][i] == s[i + 1] && s[1..][j] == s[j + 1];
    }
  }

  /** Inserting keeps the storage sorted. */
  lemma {:induction false} InsertKeepsSorted(s: seq<string>, w: string)
    requires Sorted(s)
    ensures Sorted(InsertSorted(s, w))
  {
    if s != [] && Less(w, s[0]) {
      var r := [w] + s;
      forall i, j | 0 <= i < j < |r| ensures !Less(r[j], r[i]) {
        assert r[j] == s[j - 1];
        if i == 0 {
          if Less(s[j - 1], w) {
            LessTransitive(s[j - 1], w, s[0]);
            if j == 1 {
              LessIrreflexive(s[0]);
            }
          }
        } else {
          assert r[i] == s[i - 1];
        }
      }
    } else if s != [] {
      var t := s[1..];
      SortedTail(s);
      InsertKeepsSorted(t, w);
      var u := InsertSorted(t, w);
      var r := [s[0]] + u;
      forall i, j | 0 <= i < j < |r| ensures !Less(r[j], r[i]) {
        assert r[j] == u[j - 1];
        if i == 0 {
          assert u[j - 1] in multiset(u);
          if u[j - 1] != w {
            assert u[j - 1] in multiset(t);
          }
        } else {
          assert r[i] == u[i - 1];
        }
      }
    }
  }

  /**
   * The tokenizer loop of `example6_FrequencyCounter`: every word is inserted as it is
   * completed, so the multiset ends up holding exactly the tokens of the text, sorted.
   */
  method CollectWords(text: string) returns (words: seq<string>)
    ensures Sorted(words) && multiset(words) == multiset(Tokens(text))
  {
    words := [];
    var word := "";
    ghost var done: seq<string> := [];
    ScanStart(text);
    for i := 0 to |text|
      invariant Scanning(text, i, word, done)
      invariant Sorted(words) && multiset(words) == multiset(done)
    {
      if text[i] == ' ' {
        ScanBlank(text, i, word, done);
        if word != [] {
          InsertKeepsSorted(words, word);
          words := InsertSorted(words, word);
        }
        done := done + Pending(word);
        word := "";
      } else {
        ScanOther(text, i, word, done);
        word := word + [text[i]];
      }
    }
    ScanEnd(text, word, done);
    if word != [] {
      InsertKeepsSorted(words, word);
      words := InsertSorted(words, word);
    }
  }

  // ---------------------------------------------------------------------------------------
  // Visiting each distinct element once
  // ---------------------------------------------------------------------------------------

  /** Equal elements sit next to each other. */
  ghost predicate Grouped<T>(s: seq<T>)
  {
    forall i, j, k :: Between(s, i, j, k)
  }

  /** Whatever lies between two equal elements equals them. */
  ghost predicate Between<T>(s: seq<T>, i: int, j: int, k: int)
  {
    0 <= i < j < k < |s| && s[i] == s[k] ==> s[j] == s[i]
  }

  /** Sorted storage is grouped. */
  lemma SortedGrouped(s: seq<string>)
    requires Sorted(s)
    ensures Grouped(s)
  {
    forall i, j, k ensures Between(s, i, j, k) {
      if 0 <= i < j < k < |s| && s[i] == s[k] && s[j] != s[i] {
        LessTotal(s[j], s[i]);
      }
    }
  }

  /** Where the run of `x` starting at `j` ends. */
  ghost function RunEnd<T>(s: seq<T>, x: T, j: nat): (e: nat)
    requires j <= |s|
    ensures j <= e <= |s|
    ensures forall k :: j <= k < e ==> s[k] == x
    ensures e < |s| ==> s[e] != x
    decreases |s| - j
  {
    if j < |s| && s[j] == x then RunEnd(s, x, j + 1) else j
  }

  /** A sequence of copies of `x` holds `x` as often as it is long. */
  lemma {:induction false} CopiesCount<T>(t: seq<T>, x: T)
    requires forall k :: 0 <= k < |t| ==> t[k] == x
    ensures multiset(t)[x] == |t|
  {
    if t != [] {
      var u := t[..|t| - 1];
      assert t == u + [x];
      CopiesCount(u, x);
    }
  }

  /** An element occurs in three consecutive pieces as often as in their concatenation. */
  lemma CountPieces<T>(s: seq<T>, i: nat, e: nat, x: T)
    requires i <= e <= |s|
    ensures multiset(s)[x] == multiset(s[..i])[x] + multiset(s[i..e])[x] + multiset(s[e..])[x]
  {
    assert s == s[..i] + s[i..e] + s[e..];
  }

  /** Element `i`, if there is one, does not occur before `i`. */
  ghost predicate Unseen<T>(s: seq<T>, i: nat)
  {
    i < |s| ==> forall k :: 0 <= k < i ==> s[k] != s[i]
  }

  /**
   * `std::advance(it, count)`: at the first occurrence of an element of grouped storage,
   * `count` steps cover exactly its run.
   */
  lemma RunCount<T>(s: seq<T>, i: nat)
    requires Grouped(s) && i < |s| && Unseen(s, i)
    ensures i < RunEnd(s, s[i], i)
    ensures multiset(s)[s[i]] == RunEnd(s, s[i], i) - i
  {
    var x := s[i];
    var e := RunEnd(s, x, i);
    CountPieces(s, i, e, x);
    CopiesCount(s[i..e], x);
    NotBefore(s, i);
    AfterRun(s, i);
  }

  /** Once its run ends, the element does not come back. */
  lemma AfterRun<T>(s: seq<T>, i: nat)
    requires Grouped(s) && i < |s|
    ensures multiset(s[RunEnd(s, s[i], i)..])[s[i]] == 0
  {
    var x, e := s[i], RunEnd(s, s[i], i);
    forall m | 0 <= m < |s| - e ensures s[e..][m] != x {
      if m > 0 {
        assert Between(s, i, e, e + m);
      }
    }
  }

  lemma NotBefore<T>(s: seq<T>, i: nat)
    requires i < |s| && Unseen(s, i)
    ensures multiset(s[..i])[s[i]] == 0
  {
    assert s[i] !in s[..i];
  }

  /** The element after the run is met for the first time. */
  lemma RunNext<T>(s: seq<T>, i: nat)
    requires Grouped(s) && i < |s| && Unseen(s, i)
    ensures Unseen(s, RunEnd(s, s[i], i))
  {
    var e := RunEnd(s, s[i], i);
    if e < |s| {
      forall k | 0 <= k < i ensures s[k] != s[e] {
        assert Between(s, k, i, e);
      }
    }
  }

  function Copies<T>(x: T, n: nat): (r: seq<T>)
    ensures |r| == n && forall k :: 0 <= k < n ==> r[k] == x
  {
    if n == 0 then [] else Copies(x, n - 1) + [x]
  }

  /** The storage a list of (element, count) groups describes. */
  function Expand<T>(gs: seq<(T, nat)>): seq<T>
  {
    if gs == [] then [] else Expand(gs[..|gs| - 1]) + Copies(gs[|gs| - 1].0, gs[|gs| - 1].1)
  }

  /** The sum of the counts. */
  function Sum<T>(gs: seq<(T, nat)>): nat
  {
    if gs == [] then 0 else Sum(gs[..|gs| - 1]) + gs[|gs| - 1].1
  }

  lemma {:induction false} ExpandLength<T>(gs: seq<(T, nat)>)
    ensures |Expand(gs)| == Sum(gs)
  {
    if gs != [] {
      ExpandLength(gs[..|gs| - 1]);
    }
  }

  /**
   * The state of the group walk after the first `i` elements: the groups found so far make
   * up that prefix, each with its multiplicity in the whole storage, no element twice, each
   * beginning at its position in `starts`; element `i` has not been seen.
   */
  ghost predicate Walked<T>(s: seq<T>, i: nat, groups: seq<(T, nat)>, starts: seq<nat>)
  {
    && i <= |s| && Expand(groups) == s[..i]
    && Unseen(s, i)
    && (forall a :: 0 <= a < |groups| ==> groups[a].1 == multiset(s)[groups[a].0] >= 1)
    && (forall a, b :: 0 <= a < b < |groups| ==> groups[a].0 != groups[b].0)
    && |starts| == |groups|
    && (forall a :: 0 <= a < |groups| ==> starts[a] < i && s[starts[a]] == groups[a].0)
    && (forall a, b :: 0 <= a < b < |groups| ==> starts[a] < starts[b])
  }

  /** Counting the element at `i` and advancing past its run. */
  lemma WalkStep<T>(s: seq<T>, i: nat, groups: seq<(T, nat)>, starts: seq<nat>, c: nat)
    requires Grouped(s) && Walked(s, i, groups, starts) && i < |s| && c == multiset(s)[s[i]]
    ensures i < i + c <= |s|
    ensures Walked(s, i + c, groups + [(s[i], c)], starts + [i])
  {
    RunCount(s, i);
    RunNext(s, i);
    Advance(s, groups, i, c);
    NewGroup(s, i, groups, starts, c);
  }

  /** The new group is counted, new, and begins after the others. */
  lemma NewGroup<T>(s: seq<T>, i: nat, groups: seq<(T, nat)>, starts: seq<nat>, c: nat)
    requires Walked(s, i, groups, starts) && i < |s| && c == multiset(s)[s[i]] >= 1
    ensures var g, st := groups + [(s[i], c)], starts + [i];
      && (forall a :: 0 <= a < |g| ==> g[a].1 == multiset(s)[g[a].0] >= 1)
      && (forall a, b :: 0 <= a < b < |g| ==> g[a].0 != g[b].0)
      && |st| == |g|
      && (forall a :: 0 <= a < |g| ==> st[a] <= i && s[st[a]] == g[a].0)
      && (forall a, b :: 0 <= a < b < |g| ==> st[a] < st[b])
  {
  }

  /** Appending the group found at `i` extends the covered prefix by its run. */
  lemma Advance<T>(s: seq<T>, groups: seq<(T, nat)>, i: nat, count: nat)
    requires i < |s| && Expand(groups) == s[..i]
    requires count == RunEnd(s, s[i], i) - i
    ensures i + count <= |s|
    ensures Expand(groups + [(s[i], count)]) == s[..i + count]
  {
    var g := groups + [(s[i], count)];
    assert g[..|g| - 1] == groups;
    assert s[..i + count] == s[..i] + Copies(s[i], count);
  }

  /**
   * The `while (it != end)` loop that prints each element with `count(current)` and then
   * advances over them. The groups, in order, make up the storage exactly; each element is
   * visited once, with its multiplicity; the counts add up to the size. `starts` are the
   * positions where each group begins.
   */
  method Frequencies<T(==)>(s: seq<T>) returns (groups: seq<(T, nat)>, ghost starts: seq<nat>)
    requires Grouped(s)
    ensures Expand(groups) == s && Sum(groups) == |s|
    ensures Walked(s, |s|, groups, starts)
  {
    groups, starts := [], [];
    var i := 0;
    while i < |s|
      invariant Walked(s, i, groups, starts)
      decreases |s| - i
    {
      var current := s[i];
      var count := multiset(s)[current];
      WalkStep(s, i, groups, starts, count);
      groups, starts, i := groups + [(current, count)], starts + [i], i + count;
    }
    assert s[..|s|] == s;
    ExpandLength(groups);
  }

  /** At the end of the storage, the groups found make up all of it. */
  lemma WalkDone<T>(s: seq<T>, groups: seq<(T, nat)>, starts: seq<nat>)
    requires Walked(s, |s|, groups, starts)
    ensures forall a :: 0 <= a < |groups| ==> groups[a].1 == multiset(s)[groups[a].0] >= 1
    ensures forall a, b :: 0 <= a < b < |groups| ==> groups[a].0 != groups[b].0
    ensures |starts| == |groups|
    ensures forall a :: 0 <= a < |groups| ==> starts[a] < |s| && s[starts[a]] == groups[a].0
    ensures forall a, b :: 0 <= a < b < |groups| ==> starts[a] < starts[b]
  {
  }

  /** For sorted storage the groups come in strictly ascending order. */
  lemma GroupsAscending(s: seq<string>, groups: seq<(string, nat)>, starts: seq<nat>)
    requires Sorted(s) && |starts| == |groups|
    requires forall a, b :: 0 <= a < b < |groups| ==> groups[a].0 != groups[b].0
    requires forall a :: 0 <= a < |groups| ==> starts[a] < |s| && s[starts[a]] == groups[a].0
    requires forall a, b :: 0 <= a < b < |groups| ==> starts[a] < starts[b]
    ensures forall a, b :: 0 <= a < b < |groups| ==> Less(groups[a].0, groups[b].0)
  {
    forall a, b | 0 <= a < b < |groups| ensures Less(groups[a].0, groups[b].0) {
      assert !Less(s[starts[b]], s[starts[a]]);
      LessTotal(groups[a].0, groups[b].0);
    }
  }

  // ---------------------------------------------------------------------------------------
  // Most frequent word
  // ---------------------------------------------------------------------------------------

  /**
   * The state of the most-frequent walk after the first `i` elements: `best`, found at
   * `at`, occurs `max` times and no element seen so far occurs more often; in sorted storage
   * no element seen so far that occurs as often comes before `best`.
   */
  ghost predicate Picked(words: seq<string>, i: nat, best: string, max: nat, at: nat)
  {
    && i <= |words| && Unseen(words, i)
    && (i == 0 ==> best == "" && max == 0)
    && (i > 0 ==> at < i && words[at] == best && multiset(words)[best] == max)
    && (forall k :: 0 <= k < i ==> multiset(words)[words[k]] <= max)
    && (Sorted(words) ==>
          forall k :: 0 <= k < i && multiset(words)[words[k]] == max ==> !Less(words[k], best))
  }

  /** A strictly larger count takes over. */
  lemma PickUp(words: seq<string>, i: nat, best: string, max: nat, at: nat, c: nat)
    requires Grouped(words) && Picked(words, i, best, max, at) && i < |words|
    requires c == multiset(words)[words[i]] > max
    ensures i < i + c <= |words|
    ensures Picked(words, i + c, words[i], c, i)
  {
    RunCount(words, i);
    RunNext(words, i);
    LessIrreflexive(words[i]);
  }

  /** An equal or smaller count does not. */
  lemma PickKeep(words: seq<string>, i: nat, best: string, max: nat, at: nat, c: nat)
    requires Grouped(words) && Picked(words, i, best, max, at) && i < |words|
    requires c == multiset(words)[words[i]] <= max
    ensures i < i + c <= |words|
    ensures Picked(words, i + c, best, max, at)
  {
    RunCount(words, i);
    RunNext(words, i);
    if Sorted(words) {
      assert !Less(words[i], words[at]);
    }
  }

  /** After the last group. */
  lemma PickDone(words: seq<string>, best: string, max: nat, at: nat)
    requires Picked(words, |words|, best, max, at)
    ensures words == [] ==> best == "" && max == 0
    ensures words != [] ==> best in words && multiset(words)[best] == max
    ensures forall k :: 0 <= k < |words| ==> multiset(words)[words[k]] <= max
    ensures Sorted(words) ==>
      forall k :: 0 <= k < |words| && multiset(words)[words[k]] == max ==> !Less(words[k], best)
  {
  }

  /**
   * The second walk over the groups: a group replaces the current best only with a strictly
   * larger count (starting from 0 and the empty string). The result is a most frequent
   * element, and for sorted storage the alphabetically first of them.
   */
  method MostFrequentWord(words: seq<string>) returns (mostFrequent: string, maxCount: nat)
    requires Grouped(words)
    ensures words == [] ==> mostFrequent == "" && maxCount == 0
    ensures words != [] ==> mostFrequent in words && multiset(words)[mostFrequent] == maxCount
    ensures forall k :: 0 <= k < |words| ==> multiset(words)[words[k]] <= maxCount
    ensures Sorted(words) ==>
      forall k :: 0 <= k < |words| && multiset(words)[words[k]] == maxCount ==> !Less(words[k], mostFrequent)
  {
    mostFrequent, maxCount := "", 0;
    ghost var at := 0;
    var i := 0;
    while i < |words|
      invariant Picked(words, i, mostFrequent, maxCount, at)
      decreases |words| - i
    {
      var current := words[i];
      var count := multiset(words)[current];
      if count > maxCount {
        PickUp(words, i, mostFrequent, maxCount, at, count);
        maxCount, mostFrequent, at := count, current, i;
      } else {
        PickKeep(words, i, mostFrequent, maxCount, at, count);
      }
      i := i + count;
    }
    PickDone(words, mostFrequent, maxCount, at);
  }

  // ---------------------------------------------------------------------------------------
  // The examples
  // ---------------------------------------------------------------------------------------

  /** The text of `example6_FrequencyCounter`: the map example's text and one more "jumps". */
  const Text: string := MapDemo.Text + " jumps"

  /** Its twelve words: those of the map example and one more "jumps". */
  const TextWordList: seq<string> := MapDemo.TextWordList + ["jumps"]

  lemma TextTokens()
    ensures Tokens(Text) == TextWordList
  {
    TextJoined();
    TextAllWords();
    TokensOfUnwords(TextWordList);
  }

  lemma TextJoined()
    ensures Unwords(TextWordList) == Text
  {
    UnwordsAppend(MapDemo.TextWordList, ["jumps"]);
    MapDemo.TextJoined();
  }

  lemma TextAllWords()
    ensures forall i :: 0 <= i < |TextWordList| ==> IsWord(TextWordList[i])
  {
    MapDemo.TextWords();
    forall i | 0 <= i < |TextWordList| ensures IsWord(TextWordList[i]) {
      if i < 11 {
        assert TextWordList[i] == MapDemo.TextWordList[i];
      }
    }
  }

  lemma TextPieces()
    ensures multiset(TextWordList)
         == multiset(MapDemo.TextFront) + multiset(MapDemo.TextBack) + multiset{"jumps"}
  {
    assert TextWordList == MapDemo.TextFront + MapDemo.TextBack + ["jumps"];
  }

  lemma CountThe() ensures multiset(TextWordList)["the"] == 3 { TextPieces(); }
  lemma CountFox() ensures multiset(TextWordList)["fox"] == 2 { TextPieces(); }
  lemma CountJumps() ensures multiset(TextWordList)["jumps"] == 2 { TextPieces(); }
  lemma CountQuick() ensures multiset(TextWordList)["quick"] == 1 { TextPieces(); }
  lemma CountBrown() ensures multiset(TextWordList)["brown"] == 1 { TextPieces(); }
  lemma CountOver() ensures multiset(TextWordList)["over"] == 1 { TextPieces(); }
  lemma CountLazy() ensures multiset(TextWordList)["lazy"] == 1 { TextPieces(); }
  lemma CountDog() ensures multiset(TextWordList)["dog"] == 1 { TextPieces(); }

  /** Every word other than "the" occurs at most twice. */
  lemma TextCounts(w: string)
    requires w in multiset(TextWordList)
    ensures w == "the" || multiset(TextWordList)[w] <= 2
  {
    assert w in TextWordList;
    if w !in MapDemo.TextWordList {
      CountJumps();
    } else {
      EarlierWords(w);
    }
  }

  lemma EarlierWords(w: string)
    requires w in MapDemo.TextWordList
    ensures w == "the" || multiset(TextWordList)[w] <= 2
  {
    assert w in set v | v in MapDemo.TextWordList;
    MapDemo.TextKeys();
    CountFox(); CountJumps(); CountQuick(); CountBrown(); CountOver(); CountLazy(); CountDog();
  }

  /**
   * MultisetExample.cpp `example6_FrequencyCounter`: twelve words are stored, the groups
   * come in alphabetical order and their counts add up to 12, and "the" (3 times) is the
   * most frequent word.
   */
  method WordFrequencyExample() returns (size: nat, groups: seq<(string, nat)>, mostFrequent: string, maxCount: nat)
    ensures size == 12 && Sum(groups) == 12
    ensures forall a, b :: 0 <= a < b < |groups| ==> Less(groups[a].0, groups[b].0)
    ensures mostFrequent == "the" && maxCount == 3
  {
    var words := CollectWords(Text);
    TextTokens();
    assert |words| == |multiset(words)| == |TextWordList|;
    size := |words|;
    SortedGrouped(words);
    ghost var starts;
    groups, starts := Frequencies(words);
    WalkDone(words, groups, starts);
    GroupsAscending(words, groups, starts);
    mostFrequent, maxCount := MostFrequentWord(words);
    TheMostFrequent(words, mostFrequent, maxCount);
  }

  lemma TheMostFrequent(words: seq<string>, w: string, c: nat)
    requires multiset(words) == multiset(TextWordList)
    requires w in words && multiset(words)[w] == c
    requires forall k :: 0 <= k < |words| ==> multiset(words)[words[k]] <= c
    ensures w == "the" && c == 3
  {
    CountThe();
    assert "the" in multiset(words);
    var k :| 0 <= k < |words| && words[k] == "the";
    assert 3 <= c;
    assert w in multiset(TextWordList);
    TextCounts(w);
  }

  /** The storage of `{'a', 'b', 'a', 'c', 'b', 'a', 'd', 'b'}`: the same letters, ascending. */
  const Letters: seq<char> := ['a', 'a', 'a', 'b', 'b', 'b', 'c', 'd']

  lemma LettersStorage()
    ensures multiset(Letters) == multiset(['a', 'b', 'a', 'c', 'b', 'a', 'd', 'b'])
  {
    assert multiset(['a', 'b', 'a', 'c', 'b', 'a', 'd', 'b']) == multiset{'a', 'b', 'a', 'c', 'b', 'a', 'd', 'b'};
    assert multiset(Letters) == multiset{'a', 'a', 'a', 'b', 'b', 'b', 'c', 'd'};
    LettersRegrouped();
  }

  /** The demo letters, listed in initializer order and ascending. */
  lemma LettersRegrouped()
    ensures multiset{'a', 'b', 'a', 'c', 'b', 'a', 'd', 'b'} == multiset{'a', 'a', 'a', 'b', 'b', 'b', 'c', 'd'}
  {
  }

  lemma LettersAscending()
    ensures Ascending(Letters)
  {
  }

  /** Each character is at most the next one. */
  ghost predicate Ascending(s: seq<char>)
  {
    forall k :: 0 <= k < |s| - 1 ==> s[k] <= s[k + 1]
  }

  lemma {:induction false} AscendingApart(s: seq<char>, i: nat, j: nat)
    requires Ascending(s) && i <= j < |s|
    ensures s[i] <= s[j]
    decreases j - i
  {
    if i < j {
      AscendingApart(s, i + 1, j);
    }
  }

  /** Ascending characters are grouped. */
  lemma AscendingGrouped(s: seq<char>)
    requires Ascending(s)
    ensures Grouped(s)
  {
    forall i, j, k | 0 <= i < j < k < |s| ensures Between(s, i, j, k) {
      AscendingApart(s, i, j);
      AscendingApart(s, j, k);
    }
  }

  lemma LetterCounts()
    ensures multiset(Letters)['a'] == 3 && multiset(Letters)['b'] == 3
    ensures multiset(Letters)['c'] == 1 && multiset(Letters)['d'] == 1
  {
    assert multiset(Letters) == multiset{'a', 'a', 'a', 'b', 'b', 'b', 'c', 'd'};
  }

  /**
   * MultisetExample.cpp `example3_CountingOperations`: walking the letters by groups
   * visits 'a' 3 times, 'b' 3 times, 'c' once and 'd' once.
   */
  method LetterFrequencies() returns (groups: seq<(char, nat)>)
    ensures Expand(groups) == Letters && Sum(groups) == 8
    ensures forall a :: 0 <= a < |groups| ==> groups[a] in [('a', 3), ('b', 3), ('c', 1), ('d', 1)]
  {
    LettersAscending();
    AscendingGrouped(Letters);
    ghost var starts;
    groups, starts := Frequencies(Letters);
    WalkDone(Letters, groups, starts);
    LetterGroups(groups, starts);
  }

  lemma LetterGroups(groups: seq<(char, nat)>, starts: seq<nat>)
    requires |starts| == |groups|
    requires forall a :: 0 <= a < |groups| ==> starts[a] < |Letters| && Letters[starts[a]] == groups[a].0
    requires forall a :: 0 <= a < |groups| ==> groups[a].1 == multiset(Letters)[groups[a].0]
    ensures forall a :: 0 <= a < |groups| ==> groups[a] in [('a', 3), ('b', 3), ('c', 1), ('d', 1)]
  {
    LetterCounts();
    forall a | 0 <= a < |groups| ensures groups[a] in [('a', 3), ('b', 3), ('c', 1), ('d', 1)] {
      assert groups[a].0 in Letters;
    }
  }
}
