/**
 * The older single-region version: a plain word list searched linearly
 * for the recognised text, a two-component score, and a typed-letter
 * history that is cleared once it holds 26 letters.
 */
module Legacy {
  import opened Text
  import opened Wrappers
  import opened Dictionary
  import opened Ranking
  import opened Geometry
  import Fusion

  /** The words that contain root, are long enough and are not yet used, in list order. */
  function SubstringMatches(words: seq<string>, root: string, minLength: int, used: set<string>): seq<string> {
    if words == [] then []
    else
      var w := words[|words| - 1];
      SubstringMatches(words[..|words| - 1], root, minLength, used)
        + (if Contains(w, root) && |w| >= minLength && w !in used then [w] else [])
  }

  lemma {:induction false} SubstringMatchesMembers(words: seq<string>, root: string, minLength: int, used: set<string>)
    ensures forall w :: w in SubstringMatches(words, root, minLength, used) <==>
              w in words && Contains(w, root) && |w| >= minLength && w !in used
  {
    if words != [] {
      SubstringMatchesMembers(words[..|words| - 1], root, minLength, used);
      assert words == words[..|words| - 1] + [words[|words| - 1]];
    }
  }

  /** The sorted matches of capture_and_match. */
  function LegacyMatches(words: seq<string>, root: string, minLength: int, used: set<string>, typed: set<char>): seq<string> {
    SortByScore(SubstringMatches(words, root, minLength, used), LegacyScorer(typed))
  }

  /**
   * Every match contains the text, is long enough and is unused, and every
   * such list word is a match; matches are ordered by the older score
   * descending, ties in list order; the suggestion scores at least as high
   * as every match.
   */
  lemma LegacyMatchesSpec(words: seq<string>, root: string, minLength: int, used: set<string>, typed: set<char>)
    ensures var r := LegacyMatches(words, root, minLength, used, typed);
      && (forall w :: w in r <==> w in words && Contains(w, root) && |w| >= minLength && w !in used)
      && multiset(r) == multiset(SubstringMatches(words, root, minLength, used))
      && (forall i, j :: 0 <= i < j < |r| ==> !Below(LegacyScoreWord(r[i], typed), LegacyScoreWord(r[j], typed)))
      && (forall k :: WithScore(r, LegacyScorer(typed), k) ==
                      WithScore(SubstringMatches(words, root, minLength, used), LegacyScorer(typed), k))
      && (forall w :: w in r ==> !Below(LegacyScoreWord(BestWord(r), typed), LegacyScoreWord(w, typed)))
  {
    var m := SubstringMatches(words, root, minLength, used);
    var r := LegacyMatches(words, root, minLength, used, typed);
    SubstringMatchesMembers(words, root, minLength, used);
    SortByScoreSpec(m, LegacyScorer(typed));
    assert forall w :: w in r <==> w in multiset(r);
    HeadDominates(r, LegacyScorer(typed));
  }

  /** typed_history after type_text: the letters of the upper-cased text are added, and 26 or more clear it. */
  function Typed(history: set<char>, text: string): set<char> {
    var h := history + Chars(Upper(text));
    if |h| >= 26 then {} else h
  }

  /**
   * The history never reaches 26 entries; when it is not cleared it keeps
   * the earlier entries and gains every letter of the upper-cased text.
   */
  lemma TypedBelow26(history: set<char>, text: string)
    ensures |Typed(history, text)| < 26
    ensures Typed(history, text) == {} || (history <= Typed(history, text) && Chars(Upper(text)) <= Typed(history, text))
    ensures |history + Chars(Upper(text))| < 26 ==> Typed(history, text) == history + Chars(Upper(text))
  {
  }

  class State {
    var wordList: seq<string>
    var typedHistory: set<char>
    var usedWords: set<string>
    var bestCurrentWord: string

    ghost predicate Valid()
      reads this
    {
      |typedHistory| < 26
    }

    constructor ()
      ensures Valid()
      ensures wordList == [] && typedHistory == {} && usedWords == {} && bestCurrentWord == ""
    {
      wordList := [];
      typedHistory := {};
      usedWords := {};
      bestCurrentWord := "";
    }

    /** load_dictionary: a cancelled dialog (None) changes nothing; otherwise every non-blank line, in order. */
    method LoadDictionary(lines: Option<seq<string>>)
      requires Valid()
      modifies this`wordList
      ensures Valid()
      ensures lines.None? ==> wordList == old(wordList)
      ensures lines.Some? ==> wordList == LegacyWordList(lines.value)
    {
      if lines.Some? {
        wordList := LegacyWordList(lines.value);
      }
    }

    /** type_text without the keystrokes (an empty text is recorded as a used word too). */
    method TypeText(text: string)
      requires Valid()
      modifies this`typedHistory, this`usedWords
      ensures Valid()
      ensures typedHistory == Typed(old(typedHistory), text)
      ensures usedWords == old(usedWords) + {Upper(text)}
    {
      typedHistory := typedHistory + Chars(Upper(text));
      usedWords := usedWords + {Upper(text)};
      if |typedHistory| >= 26 {
        typedHistory := {};
      }
    }

    /**
     * capture_and_match for a region with corners (x1, y1), (x2, y2): rect
     * is the box handed to the screenshot, ocr what the recogniser returned
     * on it (Failed: an exception, reported and otherwise ignored). Empty
     * text returns early and keeps the suggestion; otherwise the suggestion
     * becomes the best match, or "" when there is none.
     */
    method CaptureAndMatch(x1: int, y1: int, x2: int, y2: int, ocr: Fusion.Outcome, minLength: int)
      returns (rect: Rect, root: string, matches: seq<string>)
      requires Valid()
      modifies this`bestCurrentWord
      ensures Valid()
      ensures rect == Normalize(x1, y1, x2, y2)
      ensures ocr.Failed? ==> root == "" && matches == [] && bestCurrentWord == old(bestCurrentWord)
      ensures ocr.Read? ==> root == Upper(Strip(ocr.raw))
      ensures ocr.Read? && root == "" ==> matches == [] && bestCurrentWord == old(bestCurrentWord)
      ensures ocr.Read? && root != "" ==>
                matches == LegacyMatches(wordList, root, minLength, usedWords, typedHistory)
                && bestCurrentWord == BestWord(matches)
    {
      rect := Normalize(x1, y1, x2, y2);
      match ocr
      case Failed =>
        return rect, "", [];
      case Read(raw) =>
        root := Upper(Strip(raw));
        if root == "" {
          return rect, root, [];
        }
        matches := LegacyMatches(wordList, root, minLength, usedWords, typedHistory);
        bestCurrentWord := if matches != [] then matches[0] else "";
    }

    /** clear_used_words. */
    method ClearUsedWords()
      requires Valid()
      modifies this`usedWords
      ensures Valid()
      ensures usedWords == {}
    {
      usedWords := {};
    }

    /** The clear alphabet button. */
    method ClearAlphabet()
      requires Valid()
      modifies this`typedHistory
      ensures Valid() && typedHistory == {}
    {
      typedHistory := {};
    }
  }
}
