/**
 * The space tokenizer that MapExample.cpp, MultisetExample.cpp and UnorderedMapExample.cpp
 * each write out as a character loop (a `word` buffer flushed at every blank and once more
 * at the end), described here once as a reference function, and the lexicographic order of
 * `std::string` that orders the keys of `std::map` and `std::multiset`.
 */
module Words {

  /** A token: at least one character and no blank. */
  predicate IsWord(w: string)
  {
    w != [] && ' ' !in w
  }

  /** The length of the leading run of non-blank characters. */
  function RunLength(s: string): (n: nat)
    ensures n <= |s|
    ensures ' ' !in s[..n]
    ensures n < |s| ==> s[n] == ' '
  {
    if s == [] || s[0] == ' ' then 0
    else
      var n := 1 + RunLength(s[1..]);
      assert s[..n] == [s[0]] + s[1..][..n - 1];
      n
  }

  /** The maximal runs of non-blank characters of `s`, left to right. */
  function Tokens(s: string): (ws: seq<string>)
    ensures forall i :: 0 <= i < |ws| ==> IsWord(ws[i])
    decreases |s|
  {
    if s == [] then []
    else if s[0] == ' ' then Tokens(s[1..])
    else
      var n := RunLength(s);
      [s[..n]] + Tokens(s[n..])
  }

  /** What the final `if (!word.empty())` flushes. */
  function Pending(word: string): (ws: seq<string>)
    ensures |ws| <= 1 && (ws == [] <==> word == [])
  {
    if word == [] then [] else [word]
  }

  /** A blank-free prefix followed by a blank, or by nothing, is one whole run. */
  lemma {:induction false} RunOf(w: string, r: string)
    requires ' ' !in w && (r == [] || r[0] == ' ')
    ensures RunLength(w + r) == |w|
  {
    if w != [] {
      assert (w + r)[1..] == w[1..] + r;
      RunOf(w[1..], r);
    }
  }

  /**
   * The blank after a partial word ends it: what is left to tokenize is that word, if any,
   * and then the tokens after the blank.
   */
  lemma FlushAtBlank(w: string, r: string)
    requires ' ' !in w && r != [] && r[0] == ' '
    ensures Tokens(w + r) == Pending(w) + Tokens(r[1..])
  {
    if w == [] {
      assert w + r == r;
    } else {
      RunOf(w, r);
      assert (w + r)[..|w|] == w && (w + r)[|w|..] == r;
    }
  }

  /** At the end of the text the partial word, if any, is the last token. */
  lemma FlushAtEnd(w: string)
    requires ' ' !in w
    ensures Tokens(w) == Pending(w)
  {
    if w != [] {
      RunOf(w, []);
      assert w + [] == w;
      assert w[..|w|] == w && w[|w|..] == [];
    }
  }

  /** A non-blank character extends the partial word. */
  lemma ExtendWord(w: string, r: string)
    requires r != [] && r[0] != ' ' && ' ' !in w
    ensures (w + [r[0]]) + r[1..] == w + r && ' ' !in w + [r[0]]
  {
    assert [r[0]] + r[1..] == r;
  }

  /**
   * The state of the three counting loops after `i` characters: `done` are the words
   * flushed so far and `word` is the partial word; together with what is left of the text
   * they make up all of its tokens.
   */
  ghost predicate Scanning(text: string, i: nat, word: string, done: seq<string>)
  {
    i <= |text| && ' ' !in word && done + Tokens(word + text[i..]) == Tokens(text)
  }

  lemma ScanStart(text: string)
    ensures Scanning(text, 0, "", [])
  {
    assert "" + text[0..] == text;
  }

  /** A blank completes the partial word, if there is one. */
  lemma ScanBlank(text: string, i: nat, word: string, done: seq<string>)
    requires Scanning(text, i, word, done) && i < |text| && text[i] == ' '
    ensures Scanning(text, i + 1, "", done + Pending(word))
  {
    FlushAtBlank(word, text[i..]);
    assert text[i..][1..] == text[i + 1..];
    assert "" + text[i + 1..] == text[i + 1..];
  }

  /** Any other character is appended to the partial word. */
  lemma ScanOther(text: string, i: nat, word: string, done: seq<string>)
    requires Scanning(text, i, word, done) && i < |text| && text[i] != ' '
    ensures Scanning(text, i + 1, word + [text[i]], done)
  {
    ExtendWord(word, text[i..]);
    assert text[i..][1..] == text[i + 1..];
  }

  /** After the last character the partial word, if any, is the last token. */
  lemma ScanEnd(text: string, word: string, done: seq<string>)
    requires Scanning(text, |text|, word, done)
    ensures done + Pending(word) == Tokens(text)
  {
    assert word + text[|text|..] == word;
    FlushAtEnd(word);
  }

  /** The words joined by single blanks. */
  function Unwords(ws: seq<string>): string
  {
    if ws == [] then ""
    else if |ws| == 1 then ws[0]
    else ws[0] + " " + Unwords(ws[1..])
  }

  /** Tokenizing undoes joining: the tokenizer recovers every list of words. */
  lemma {:induction false} TokensOfUnwords(ws: seq<string>)
    requires forall i :: 0 <= i < |ws| ==> IsWord(ws[i])
    ensures Tokens(Unwords(ws)) == ws
  {
    if |ws| == 1 {
      FlushAtEnd(ws[0]);
    } else if |ws| > 1 {
      var rest := " " + Unwords(ws[1..]);
      assert ws[0] + " " + Unwords(ws[1..]) == ws[0] + rest;
      FlushAtBlank(ws[0], rest);
      assert rest[1..] == Unwords(ws[1..]);
      TokensOfUnwords(ws[1..]);
      assert ws == [ws[0]] + ws[1..];
    }
  }

  /** Joining two non-empty lists puts one blank between their joins. */
  lemma {:induction false} UnwordsAppend(a: seq<string>, b: seq<string>)
    requires a != [] && b != []
    ensures Unwords(a + b) == Unwords(a) + " " + Unwords(b)
  {
    if |a| == 1 {
      assert (a + b)[1..] == b;
    } else {
      assert (a + b)[1..] == a[1..] + b;
      UnwordsAppend(a[1..], b);
    }
  }

  /** Blanks in front change nothing. */
  lemma LeadingBlanks(s: string)
    ensures Tokens(" " + s) == Tokens(s)
  {
    assert (" " + s)[1..] == s;
  }

  // ---------------------------------------------------------------------------------------
  // Lexicographic order of std::string
  // ---------------------------------------------------------------------------------------

  /** `a < b` for strings: a proper prefix, or smaller at the first difference. */
  predicate Less(a: string, b: string)
    decreases |a|
  {
    b != [] && (a == [] || a[0] < b[0] || (a[0] == b[0] && Less(a[1..], b[1..])))
  }

  lemma {:induction false} LessIrreflexive(a: string)
    ensures !Less(a, a)
  {
    if a != [] {
      LessIrreflexive(a[1..]);
    }
  }

  lemma {:induction false} LessTransitive(a: string, b: string, c: string)
    requires Less(a, b) && Less(b, c)
    ensures Less(a, c)
  {
    if a != [] && a[0] == b[0] && b[0] == c[0] {
      LessTransitive(a[1..], b[1..], c[1..]);
    }
  }

  /** Any two different strings are ordered one way or the other. */
  lemma {:induction false} LessTotal(a: string, b: string)
    requires a != b
    ensures Less(a, b) || Less(b, a)
  {
    if a != [] && b != [] && a[0] == b[0] {
      assert a == [a[0]] + a[1..] && b == [b[0]] + b[1..];
      LessTotal(a[1..], b[1..]);
    }
  }

  /** Never both ways. */
  lemma LessAsymmetric(a: string, b: string)
    requires Less(a, b)
    ensures !Less(b, a)
  {
    if Less(b, a) {
      LessTransitive(a, b, a);
      LessIrreflexive(a);
    }
  }
}
