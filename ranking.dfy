/**
 * Candidate ranking: score_word and the stable descending sort of the
 * eligible index hits. A score is compared the way Python compares the
 * tuple score_word returns: component by component.
 */
module Ranking {
  import opened Text

  /** score_word's tuple: (letters not yet typed, letter-frequency sum, minus the length). */
  datatype Score = Score(unused: int, variety: int, brevity: int)

  /** a < b as tuples. */
  predicate Below(a: Score, b: Score) {
    a.unused < b.unused
    || (a.unused == b.unused && a.variety < b.variety)
    || (a.unused == b.unused && a.variety == b.variety && a.brevity < b.brevity)
  }

  /**
   * LETTER_FREQ, the Counter of the string "ETAOINSHRDLCUMWFGYPBVKJXQZ":
   * each of the 26 capital letters occurs in that string once.
   */
  const LetterCounts: map<char, nat> := map[
    'E' := 1, 'T' := 1, 'A' := 1, 'O' := 1, 'I' := 1, 'N' := 1, 'S' := 1, 'H' := 1, 'R' := 1,
    'D' := 1, 'L' := 1, 'C' := 1, 'U' := 1, 'M' := 1, 'W' := 1, 'F' := 1, 'G' := 1, 'Y' := 1,
    'P' := 1, 'B' := 1, 'V' := 1, 'K' := 1, 'J' := 1, 'X' := 1, 'Q' := 1, 'Z' := 1]

  /** LETTER_FREQ.get(c, 0). */
  function LetterFreq(c: char): nat {
    if c in LetterCounts then LetterCounts[c] else 0
  }

  /** Sum of LETTER_FREQ over the distinct characters of w (each counted at its first occurrence). */
  function FreqSum(w: string): nat {
    if w == [] then 0
    else
      var prefix, last := w[..|w| - 1], w[|w| - 1];
      FreqSum(prefix) + (if last in prefix then 0 else LetterFreq(last))
  }

  /** score_word of the current version. */
  function ScoreWord(word: string, used: set<char>): Score {
    Score(|Chars(word) - used|, FreqSum(word), -|word|)
  }

  /**
   * score_word of the older version, the pair (letters not yet typed,
   * distinct letters); the third component is the constant 0, which
   * leaves the order of the pairs unchanged.
   */
  function LegacyScoreWord(word: string, used: set<char>): (s: Score)
    ensures s.brevity == 0
    ensures s.unused <= s.variety
  {
    CardinalityDiff(Chars(word), used);
    Score(|Chars(word) - used|, |Chars(word)|, 0)
  }

  lemma CardinalityDiff(a: set<char>, b: set<char>)
    ensures |a - b| <= |a|
  {
    assert a - b <= a;
  }

  function Scorer(typed: set<char>): string -> Score {
    w => ScoreWord(w, typed)
  }

  function LegacyScorer(typed: set<char>): string -> Score {
    w => LegacyScoreWord(w, typed)
  }

  /** Each of the 26 capital letters occurs exactly once in the frequency string, nothing else does. */
  lemma LetterFreqIsOne(c: char)
    ensures LetterFreq(c) == if IsUpperLetter(c) then 1 else 0
  {
  }

  /**
   * Since every capital letter has frequency 1, the second component of
   * the score of a word of capital letters is its number of distinct letters.
   */
  lemma {:induction false} FreqSumCountsDistinctLetters(w: string)
    requires forall i :: 0 <= i < |w| ==> IsUpperLetter(w[i])
    ensures FreqSum(w) == |Chars(w)|
  {
    if w != [] {
      var prefix, last := w[..|w| - 1], w[|w| - 1];
      FreqSumCountsDistinctLetters(prefix);
      assert Chars(w) == Chars(prefix) + {last};
      LetterFreqIsOne(last);
    }
  }

  lemma ScoreWordOfDictionaryWord(word: string, used: set<char>)
    requires IsUpperWord(word)
    ensures ScoreWord(word, used) == Score(|Chars(word) - used|, |Chars(word)|, -|word|)
  {
    FreqSumCountsDistinctLetters(word);
  }

  // Stable descending sort (list.sort(key=..., reverse=True)).

  predicate Descending(s: seq<string>, key: string -> Score) {
    forall i, j :: 0 <= i < j < |s| ==> !Below(key(s[i]), key(s[j]))
  }

  /** The sub-list of the entries whose score is k, in order. */
  function WithScore(s: seq<string>, key: string -> Score, k: Score): seq<string> {
    if s == [] then []
    else WithScore(s[..|s| - 1], key, k) + (if key(s[|s| - 1]) == k then [s[|s| - 1]] else [])
  }

  /** Places x after every entry scoring at least as high. */
  function Insert(x: string, s: seq<string>, key: string -> Score): seq<string> {
    if s == [] then [x]
    else if Below(key(s[0]), key(x)) then [x] + s
    else [s[0]] + Insert(x, s[1..], key)
  }

  function SortByScore(ws: seq<string>, key: string -> Score): seq<string> {
    if ws == [] then [] else Insert(ws[|ws| - 1], SortByScore(ws[..|ws| - 1], key), key)
  }

  lemma {:induction false} WithScoreCons(x: string, s: seq<string>, key: string -> Score, k: Score)
    ensures WithScore([x] + s, key, k) == (if key(x) == k then [x] else []) + WithScore(s, key, k)
    decreases |s|
  {
    if s != [] {
      var s' := s[..|s| - 1];
      assert ([x] + s)[..|[x] + s| - 1] == [x] + s';
      WithScoreCons(x, s', key, k);
    } else {
      assert [x] + s == [x];
      assert [x][..0] == [];
    }
  }

  lemma {:induction false} WithScoreNone(s: seq<string>, key: string -> Score, k: Score)
    requires forall i :: 0 <= i < |s| ==> key(s[i]) != k
    ensures WithScore(s, key, k) == []
  {
    if s != [] { WithScoreNone(s[..|s| - 1], key, k); }
  }

  lemma {:induction false} InsertPermutes(x: string, s: seq<string>, key: string -> Score)
    ensures multiset(Insert(x, s, key)) == multiset(s) + multiset{x}
  {
    if s != [] && !Below(key(s[0]), key(x)) {
      InsertPermutes(x, s[1..], key);
      assert [s[0]] + s[1..] == s;
    }
  }

  /** A head scoring at least as high as every entry keeps a descending list descending. */
  lemma DescendingCons(h: string, t: seq<string>, key: string -> Score)
    requires Descending(t, key)
    requires forall y :: y in t ==> !Below(key(h), key(y))
    ensures Descending([h] + t, key)
  {
    var r := [h] + t;
    forall i, j | 0 <= i < j < |r| ensures !Below(key(r[i]), key(r[j])) {
      assert r[j] == t[j - 1];
      if i > 0 {
        assert r[i] == t[i - 1];
      }
    }
  }

  lemma {:induction false} InsertDescending(x: string, s: seq<string>, key: string -> Score)
    requires Descending(s, key)
    ensures Descending(Insert(x, s, key), key)
  {
    if s != [] && !Below(key(s[0]), key(x)) {
      var tail := s[1..];
      var rest := Insert(x, tail, key);
      assert Descending(tail, key) by {
        forall i, j | 0 <= i < j < |tail| ensures !Below(key(tail[i]), key(tail[j])) {
          assert tail[i] == s[i + 1] && tail[j] == s[j + 1];
        }
      }
      InsertDescending(x, tail, key);
      InsertPermutes(x, tail, key);
      forall y | y in rest ensures !Below(key(s[0]), key(y)) {
        assert y in multiset(rest);
        if y != x {
          assert y in multiset(tail);
          var j :| 0 <= j < |tail| && tail[j] == y;
          assert tail[j] == s[j + 1];
        }
      }
      DescendingCons(s[0], rest, key);
    }
  }

  /** Inserting x in front: it scores above every entry, so no entry shares its score. */
  lemma InsertStableFront(x: string, s: seq<string>, key: string -> Score, k: Score)
    requires Descending(s, key) && s != [] && Below(key(s[0]), key(x))
    ensures WithScore([x] + s, key, k) == WithScore(s, key, k) + (if key(x) == k then [x] else [])
  {
    WithScoreCons(x, s, key, k);
    if key(x) == k {
      forall i | 0 <= i < |s| ensures key(s[i]) != k {
        if i > 0 {
          assert !Below(key(s[0]), key(s[i]));
        }
      }
      WithScoreNone(s, key, k);
    }
  }

  lemma {:induction false} InsertStable(x: string, s: seq<string>, key: string -> Score, k: Score)
    requires Descending(s, key)
    ensures WithScore(Insert(x, s, key), key, k) == WithScore(s, key, k) + (if key(x) == k then [x] else [])
  {
    if s == [] {
      assert [x][..0] == [];
    } else if Below(key(s[0]), key(x)) {
      InsertStableFront(x, s, key, k);
    } else {
      var rest := s[1..];
      assert Descending(rest, key) by {
        forall i, j | 0 <= i < j < |rest| ensures !Below(key(rest[i]), key(rest[j])) {
          assert rest[i] == s[i + 1] && rest[j] == s[j + 1];
        }
      }
      InsertStable(x, rest, key, k);
      WithScoreCons(s[0], Insert(x, rest, key), key, k);
      WithScoreCons(s[0], rest, key, k);
      assert [s[0]] + rest == s;
    }
  }

  /**
   * The sort is a permutation, orders by score descending, and is stable:
   * the entries of equal score keep their input order.
   */
  lemma {:induction false} SortByScoreSpec(ws: seq<string>, key: string -> Score)
    ensures multiset(SortByScore(ws, key)) == multiset(ws)
    ensures Descending(SortByScore(ws, key), key)
    ensures forall k :: WithScore(SortByScore(ws, key), key, k) == WithScore(ws, key, k)
  {
    if ws != [] {
      var prefix, last := ws[..|ws| - 1], ws[|ws| - 1];
      SortByScoreSpec(prefix, key);
      assert ws == prefix + [last];
      forall k ensures WithScore(SortByScore(ws, key), key, k) == WithScore(ws, key, k) {
        InsertStable(last, SortByScore(prefix, key), key, k);
      }
      InsertPermutes(last, SortByScore(prefix, key), key);
      InsertDescending(last, SortByScore(prefix, key), key);
    }
  }

  /** [w for w in words if len(w) >= min_length and w not in used_words]. */
  function Eligible(words: seq<string>, minLength: int, used: set<string>): seq<string> {
    if words == [] then []
    else
      var w := words[|words| - 1];
      Eligible(words[..|words| - 1], minLength, used) + (if |w| >= minLength && w !in used then [w] else [])
  }

  lemma {:induction false} EligibleMembers(words: seq<string>, minLength: int, used: set<string>)
    ensures forall w :: w in Eligible(words, minLength, used) <==> w in words && |w| >= minLength && w !in used
  {
    if words != [] {
      EligibleMembers(words[..|words| - 1], minLength, used);
      assert words == words[..|words| - 1] + [words[|words| - 1]];
    }
  }

  /** The entries of score k are the entries of s that score k. */
  lemma {:induction false} WithScoreMembers(s: seq<string>, key: string -> Score, k: Score)
    ensures forall w :: w in WithScore(s, key, k) <==> w in s && key(w) == k
  {
    if s != [] {
      WithScoreMembers(s[..|s| - 1], key, k);
      assert s == s[..|s| - 1] + [s[|s| - 1]];
    }
  }

  /** Picking the entries of one score out of an alphabetical list keeps it alphabetical. */
  lemma {:induction false} WithScoreAlphabetical(s: seq<string>, key: string -> Score, k: Score)
    requires Alphabetical(s)
    ensures Alphabetical(WithScore(s, key, k))
  {
    if s != [] {
      var prefix, last := s[..|s| - 1], s[|s| - 1];
      WithScoreAlphabetical(prefix, key, k);
      WithScoreMembers(prefix, key, k);
      forall x | x in prefix ensures x == last || StrLess(x, last) {
        var i :| 0 <= i < |prefix| && prefix[i] == x;
        assert s[i] == x;
      }
      AlphabeticalAppend(WithScore(prefix, key, k), if key(last) == k then [last] else []);
    }
  }

  /** x is an entry of t before an entry y. */
  predicate InOrder(t: seq<string>, x: string, y: string) {
    exists i, j :: 0 <= i < j < |t| && t[i] == x && t[j] == y
  }

  /** Two entries of s with score k, in this order, are two entries of WithScore(s, key, k) in the same order. */
  lemma {:induction false} WithScorePair(s: seq<string>, key: string -> Score, i: int, j: int)
    requires 0 <= i < j < |s| && key(s[i]) == key(s[j])
    ensures InOrder(WithScore(s, key, key(s[i])), s[i], s[j])
  {
    var k := key(s[i]);
    var prefix := s[..|s| - 1];
    var t := WithScore(s, key, k);
    if j == |s| - 1 {
      WithScoreMembers(prefix, key, k);
      assert s[i] == prefix[i];
      var i' :| 0 <= i' < |WithScore(prefix, key, k)| && WithScore(prefix, key, k)[i'] == s[i];
      assert t[i'] == s[i] && t[|t| - 1] == s[j];
      assert InOrder(t, s[i], s[j]);
    } else {
      assert prefix[i] == s[i] && prefix[j] == s[j];
      WithScorePair(prefix, key, i, j);
      var tp := WithScore(prefix, key, k);
      assert InOrder(tp, s[i], s[j]);
      var i', j' :| 0 <= i' < j' < |tp| && tp[i'] == s[i] && tp[j'] == s[j];
      assert t == tp + (if key(s[|s| - 1]) == k then [s[|s| - 1]] else []);
      assert 0 <= i' < j' < |t| && t[i'] == s[i] && t[j'] == s[j];
    }
  }

  /** Filtering an alphabetical list of hits keeps it alphabetical. */
  lemma {:induction false} EligibleAlphabetical(words: seq<string>, minLength: int, used: set<string>)
    requires Alphabetical(words)
    ensures Alphabetical(Eligible(words, minLength, used))
  {
    if words != [] {
      var prefix, last := words[..|words| - 1], words[|words| - 1];
      EligibleAlphabetical(prefix, minLength, used);
      EligibleMembers(prefix, minLength, used);
      forall x | x in prefix ensures x == last || StrLess(x, last) {
        var i :| 0 <= i < |prefix| && prefix[i] == x;
        assert words[i] == x;
      }
      AlphabeticalAppend(Eligible(prefix, minLength, used), if |last| >= minLength && last !in used then [last] else []);
    }
  }

  /**
   * Over alphabetical hits, matches of equal score are ranked alphabetically,
   * so the suggestion is the alphabetically first of the best-scoring matches.
   */
  lemma TiesAlphabetical(words: seq<string>, minLength: int, used: set<string>, typed: set<char>)
    requires Alphabetical(words)
    ensures var r := RankMatches(words, minLength, used, typed);
      && (forall i, j :: 0 <= i < j < |r| && ScoreWord(r[i], typed) == ScoreWord(r[j], typed) ==>
            r[i] == r[j] || StrLess(r[i], r[j]))
      && (forall w :: w in r && ScoreWord(w, typed) == ScoreWord(BestWord(r), typed) ==>
            BestWord(r) == w || StrLess(BestWord(r), w))
  {
    var key := Scorer(typed);
    var e := Eligible(words, minLength, used);
    var r := RankMatches(words, minLength, used, typed);
    EligibleAlphabetical(words, minLength, used);
    SortByScoreSpec(e, key);
    forall i, j | 0 <= i < j < |r| && ScoreWord(r[i], typed) == ScoreWord(r[j], typed)
      ensures r[i] == r[j] || StrLess(r[i], r[j])
    {
      var k := key(r[i]);
      WithScorePair(r, key, i, j);
      WithScoreAlphabetical(e, key, k);
      var t := WithScore(r, key, k);
      var i', j' :| 0 <= i' < j' < |t| && t[i'] == r[i] && t[j'] == r[j];
    }
    forall w | w in r && ScoreWord(w, typed) == ScoreWord(BestWord(r), typed)
      ensures BestWord(r) == w || StrLess(BestWord(r), w)
    {
      var j :| 0 <= j < |r| && r[j] == w;
    }
  }

  /** The head of a descending list scores at least as high as every entry. */
  lemma HeadDominates(r: seq<string>, key: string -> Score)
    requires Descending(r, key)
    ensures forall w :: w in r ==> !Below(key(BestWord(r)), key(w))
  {
    forall w | w in r ensures !Below(key(BestWord(r)), key(w)) {
      var j :| 0 <= j < |r| && r[j] == w;
      if j > 0 {
        assert !Below(key(r[0]), key(r[j]));
      }
    }
  }

  /** The ranked matches of the current version. */
  function RankMatches(words: seq<string>, minLength: int, used: set<string>, typed: set<char>): seq<string> {
    SortByScore(Eligible(words, minLength, used), Scorer(typed))
  }

  /** The suggestion: the head of the ranking, or "" when nothing matches. */
  function BestWord(matches: seq<string>): string {
    if matches == [] then "" else matches[0]
  }

  /**
   * The ranking holds exactly the hits that are long enough and not yet
   * used, each as often as in the hits, ordered by score descending with
   * ties in hit order, so that the suggestion scores at least as high as
   * every match.
   */
  lemma RankMatchesSpec(words: seq<string>, minLength: int, used: set<string>, typed: set<char>)
    ensures var r := RankMatches(words, minLength, used, typed);
      && (forall w :: w in r <==> w in words && |w| >= minLength && w !in used)
      && multiset(r) == multiset(Eligible(words, minLength, used))
      && (forall i, j :: 0 <= i < j < |r| ==> !Below(ScoreWord(r[i], typed), ScoreWord(r[j], typed)))
      && (forall k :: WithScore(r, Scorer(typed), k) == WithScore(Eligible(words, minLength, used), Scorer(typed), k))
      && (forall w :: w in r ==> !Below(ScoreWord(BestWord(r), typed), ScoreWord(w, typed)))
  {
    var e := Eligible(words, minLength, used);
    var r := RankMatches(words, minLength, used, typed);
    EligibleMembers(words, minLength, used);
    SortByScoreSpec(e, Scorer(typed));
    assert forall w :: w in r <==> w in multiset(r);
    HeadDominates(r, Scorer(typed));
  }
}
