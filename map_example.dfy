/**
 * The `std::map` algorithms of 02_AssociativeContainers/MapExample.cpp: the word frequency
 * counter (a character loop that flushes each blank-delimited word into `wordCount[word]++`)
 * and the most-frequent selection over it, plus the `operator[]`, `at` and `insert` behaviour
 * the element-access and insert demos show.
 */
module MapDemo {
  import opened Wrappers
  import opened Words
  import opened MapOps

  // ---------------------------------------------------------------------------------------
  // Word frequency counter
  // ---------------------------------------------------------------------------------------

  /**
   * The counting loop: every blank ends the current word, which is then counted; the last
   * word is counted after the loop. The result counts every token and nothing else, and the
   * counts add up to the number of tokens.
   */
  method CountWords(text: string) returns (wordCount: map<string, int>)
    ensures Counts(wordCount, Tokens(text))
  {
    wordCount := map[];
    var word := "";
    ghost var done: seq<string> := [];
    ScanStart(text);
    CountsStart();
    for i := 0 to |text|
      invariant Scanning(text, i, word, done) && Counts(wordCount, done)
    {
      if text[i] == ' ' {
        ScanBlank(text, i, word, done);
        if word != [] {
          CountStep(wordCount, done, word);
          wordCount := Bump(wordCount, word);
        }
        done := done + Pending(word);
        word := "";
      } else {
        ScanOther(text, i, word, done);
        word := word + [text[i]];
      }
    }
    ScanEnd(text, word, done);
    if word != [] {
      CountStep(wordCount, done, word);
      wordCount := Bump(wordCount, word);
    }
  }

  /**
   * What `std::max_element` with `a.second < b.second` finds when it walks the map in
   * ascending key order: a key with the largest count, and among those the smallest key.
   */
  ghost predicate IsMostFrequent(m: map<string, int>, k: string)
  {
    k in m && forall j :: j in m ==> m[j] <= m[k] && (m[j] == m[k] && j != k ==> Less(k, j))
  }

  /** Only one key is the most frequent. */
  lemma MostFrequentUnique(m: map<string, int>, a: string, b: string)
    requires IsMostFrequent(m, a) && IsMostFrequent(m, b)
    ensures a == b
  {
    if a != b {
      assert Less(a, b) && Less(b, a);
      LessAsymmetric(a, b);
    }
  }

  /**
   * The most-frequent selection: `None` for an empty map (where `max_element` returns
   * `end()` and nothing is printed), otherwise the most frequent key. The keys are visited in
   * any order, a tie going to the smaller key, which is where the ascending walk stops first.
   */
  method MostFrequent(m: map<string, int>) returns (best: Option<string>)
    ensures best.None? <==> m == map[]
    ensures best.Some? ==> IsMostFrequent(m, best.value)
  {
    best := None;
    var rest := m.Keys;
    while rest != {}
      invariant rest <= m.Keys
      invariant best.None? <==> rest == m.Keys
      invariant best.Some? ==> Leads(m, rest, best.value)
      decreases |rest|
    {
      var k :| k in rest;
      if best.None? {
        best := Some(k);
      } else if m[best.value] < m[k] || (m[k] == m[best.value] && Less(k, best.value)) {
        Overtakes(m, rest, best.value, k);
        best := Some(k);
      } else {
        StaysAhead(m, rest, best.value, k);
      }
      rest := rest - {k};
    }
  }

  /** `b` is most frequent among the keys already visited, those not in `rest`. */
  ghost predicate Leads(m: map<string, int>, rest: set<string>, b: string)
  {
    b in m && b !in rest
    && forall j :: j in m && j !in rest ==> m[j] <= m[b] && (m[j] == m[b] && j != b ==> Less(b, j))
  }

  lemma Overtakes(m: map<string, int>, rest: set<string>, b: string, k: string)
    requires Leads(m, rest, b) && k in rest && k in m
    requires m[b] < m[k] || (m[k] == m[b] && Less(k, b))
    ensures Leads(m, rest - {k}, k)
  {
    forall j | j in m && j !in rest - {k} && m[j] == m[k] && j != k ensures Less(k, j) {
      if j != b {
        LessTransitive(k, b, j);
      }
    }
  }

  lemma StaysAhead(m: map<string, int>, rest: set<string>, b: string, k: string)
    requires Leads(m, rest, b) && k in rest && k in m
    requires !(m[b] < m[k] || (m[k] == m[b] && Less(k, b)))
    ensures Leads(m, rest - {k}, b)
  {
    if m[k] == m[b] {
      LessTotal(k, b);
    }
  }

  // ---------------------------------------------------------------------------------------
  // The example text
  // ---------------------------------------------------------------------------------------

  /** The text of the word frequency example, written in two pieces. */
  const Text: string := "the quick brown fox jumps " + "over the lazy dog the fox"

  const TextFront: seq<string> := ["the", "quick", "brown", "fox", "jumps"]
  const TextBack: seq<string> := ["over", "the", "lazy", "dog", "the", "fox"]

  lemma FrontJoined()
    ensures Unwords(TextFront) == "the quick brown fox jumps"
  {
  }

  lemma BackJoined()
    ensures Unwords(TextBack) == "over the lazy dog the fox"
  {
  }

  lemma TextWords()
    ensures forall i :: 0 <= i < |TextFront + TextBack| ==> IsWord((TextFront + TextBack)[i])
  {
    assert TextFront + TextBack
        == ["the", "quick", "brown", "fox", "jumps", "over", "the", "lazy", "dog", "the", "fox"];
  }

  /** The example text is the eleven words, in order. */
  lemma TextTokens()
    ensures Tokens(Text) == TextWordList
  {
    TextJoined();
    TextWords();
    TokensOfUnwords(TextFront + TextBack);
  }

  /** The example text is the eleven words joined by blanks. */
  lemma TextJoined()
    ensures Unwords(TextWordList) == Text
  {
    UnwordsAppend(TextFront, TextBack);
    FrontJoined();
    BackJoined();
    assert "the quick brown fox jumps " == "the quick brown fox jumps" + " ";
  }

  /** The eleven words of the example. */
  const TextWordList: seq<string> := TextFront + TextBack

  /** The eight different words. */
  lemma TextKeys()
    ensures (set w | w in TextWordList) == {"the", "quick", "brown", "fox", "jumps", "over", "lazy", "dog"}
  {
    assert TextWordList == ["the", "quick", "brown", "fox", "jumps", "over", "the", "lazy", "dog", "the", "fox"];
  }

  lemma TextRepeats()
    ensures multiset(TextWordList)["the"] == 3 && multiset(TextWordList)["fox"] == 2
  {
    assert multiset(TextWordList) == multiset(TextFront) + multiset(TextBack);
    FrontRepeats();
    BackRepeats();
  }

  lemma FrontRepeats()
    ensures multiset(TextFront)["the"] == 1 && multiset(TextFront)["fox"] == 1
  {
    assert multiset(TextFront) == multiset{"the", "quick", "brown", "fox", "jumps"};
  }

  lemma BackRepeats()
    ensures multiset(TextBack)["the"] == 2 && multiset(TextBack)["fox"] == 1
  {
    assert multiset(TextBack) == multiset{"over", "the", "lazy", "dog", "the", "fox"};
  }

  /**
   * MapExample.cpp `example7_WordFrequencyCounter`: "the" is counted 3 times, "fox" twice,
   * each of the six other words once, and "the" is reported as the most frequent.
   */
  method WordFrequencyExample() returns (wordCount: map<string, int>, best: Option<string>)
    ensures wordCount.Keys == {"the", "quick", "brown", "fox", "jumps", "over", "lazy", "dog"}
    ensures wordCount["the"] == 3 && wordCount["fox"] == 2
    ensures wordCount["quick"] == 1 && wordCount["brown"] == 1 && wordCount["jumps"] == 1
    ensures wordCount["over"] == 1 && wordCount["lazy"] == 1 && wordCount["dog"] == 1
    ensures best == Some("the")
  {
    wordCount := CountWords(Text);
    TextTokens();
    ExampleKeys(wordCount);
    ExampleCounts(wordCount);
    best := MostFrequent(wordCount);
    TheMostFrequent(wordCount);
    MostFrequentUnique(wordCount, best.value, "the");
  }

  lemma ExampleKeys(m: map<string, int>)
    requires Tallies(m, TextWordList)
    ensures m.Keys == {"the", "quick", "brown", "fox", "jumps", "over", "lazy", "dog"}
  {
    assert m.Keys == set w | w in TextWordList;
    TextKeys();
  }

  /**
   * Eleven words, "the" three times and "fox" twice: the six other keys share the six
   * remaining counts, at least one each, so each has exactly one.
   */
  lemma ExampleCounts(m: map<string, int>)
    requires Counts(m, TextWordList)
    requires m.Keys == {"the", "quick", "brown", "fox", "jumps", "over", "lazy", "dog"}
    ensures m["the"] == 3 && m["fox"] == 2
    ensures m["quick"] == 1 && m["brown"] == 1 && m["jumps"] == 1
    ensures m["over"] == 1 && m["lazy"] == 1 && m["dog"] == 1
  {
    TextRepeats();
    TallyPositive(m, TextWordList);
    EightWords();
    assert |m| == |m.Keys|;
    OthersOnce(m, "the", "fox");
  }

  lemma EightWords()
    ensures |{"the", "quick", "brown", "fox", "jumps", "over", "lazy", "dog"}| == 8
  {
  }

  /** If two keys take all but one count per remaining key, every other key has count 1. */
  lemma OthersOnce<K>(m: map<K, int>, a: K, b: K)
    requires a in m && b in m && a != b
    requires forall k :: k in m ==> m[k] >= 1
    requires Total(m) == m[a] + m[b] + |m| - 2
    ensures forall k :: k in m && k != a && k != b ==> m[k] == 1
  {
    var r := m - {a};
    var rest := r - {b};
    TotalWithout(m, a);
    TotalWithout(r, b);
    assert r.Keys == m.Keys - {a} && rest.Keys == r.Keys - {b};
    TotalOnes(rest);
    forall k | k in m && k != a && k != b ensures m[k] == 1 {
      assert k in rest;
    }
  }

  lemma TheMostFrequent(m: map<string, int>)
    requires m.Keys == {"the", "quick", "brown", "fox", "jumps", "over", "lazy", "dog"}
    requires m["the"] == 3 && m["fox"] == 2
    requires m["quick"] == 1 && m["brown"] == 1 && m["jumps"] == 1
    requires m["over"] == 1 && m["lazy"] == 1 && m["dog"] == 1
    ensures IsMostFrequent(m, "the")
  {
    forall j | j in m ensures m[j] <= 3 && (m[j] == 3 ==> j == "the") {
      assert j in {"the", "quick", "brown", "fox", "jumps", "over", "lazy", "dog"};
    }
  }

  // ---------------------------------------------------------------------------------------
  // Element access and insert
  // ---------------------------------------------------------------------------------------

  /**
   * MapExample.cpp `example2_ElementAccess`: reading "Math" gives 90; reading the missing
   * "History" inserts it with 0 and grows the map to four entries; `at("Science")` gives 85
   * and `at("Geography")` throws.
   */
  method ElementAccessExample() returns (math: int, history: int, size: nat, science: Option<int>, geography: Option<int>)
    ensures math == 90 && history == 0 && size == 4
    ensures science == Some(85) && geography == None
  {
    var scores := map["Math" := 90, "Science" := 85, "English" := 92];
    var r := Subscript(scores, "Math", 0);
    math, scores := r.0, r.1;
    r := Subscript(scores, "History", 0);
    history, scores := r.0, r.1;
    size := |scores|;
    science := At(scores, "Science");
    geography := At(scores, "Geography");
  }

  /**
   * MapExample.cpp `example3_InsertAndErase`, insert part: `{1, "one"}` goes in, the
   * duplicate key of `{1, "ONE"}` is refused, and key 1 still maps to "one".
   */
  method InsertExample() returns (first: bool, second: bool, atOne: string)
    ensures first && !second && atOne == "one"
  {
    var m: map<int, string> := map[];
    var r := Insert(m, 1, "one");
    m, first := r.0, r.1;
    r := Insert(m, 1, "ONE");
    m, second := r.0, r.1;
    var s := Subscript(m, 1, "");
    atOne := s.0;
  }
}
