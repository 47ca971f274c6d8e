/**
 * Normalisation of a dictionary file into the word list (load_dictionary):
 * the current version keeps the stripped lines that are alphabetic,
 * upper-cases them, removes duplicates and sorts; the older version keeps
 * every non-blank line, stripped and upper-cased, in file order.
 */
module Dictionary {
  import opened Text

  predicate StrictlySorted(s: seq<string>) {
    forall i, j :: 0 <= i < j < |s| ==> StrLess(s[i], s[j])
  }

  /** The stripped, alphabetic lines, upper-cased, in file order (duplicates kept). */
  function AlphaWords(lines: seq<string>): seq<string> {
    if lines == [] then [] else AlphaWords(lines[..|lines| - 1]) + AlphaEntry(lines[|lines| - 1])
  }

  /** What one line adds: its stripped text upper-cased, if that text is alphabetic. */
  function AlphaEntry(line: string): seq<string> {
    var w := Strip(line);
    if IsAlpha(w) then [Upper(w)] else []
  }

  /** Inserts x into a strictly sorted list unless it is already there. */
  function InsertUnique(x: string, s: seq<string>): seq<string> {
    if s == [] then [x]
    else if x == s[0] then s
    else if StrLess(x, s[0]) then [x] + s
    else [s[0]] + InsertUnique(x, s[1..])
  }

  /** sorted(set(ws)). */
  function SortedUnique(ws: seq<string>): seq<string> {
    if ws == [] then [] else InsertUnique(ws[|ws| - 1], SortedUnique(ws[..|ws| - 1]))
  }

  /** The word list of the current version: sorted(set(w.upper() for w in stripped lines if w.isalpha())). */
  function NormalizeWordList(lines: seq<string>): seq<string> {
    SortedUnique(AlphaWords(lines))
  }

  lemma {:induction false} InsertUniqueSpec(x: string, s: seq<string>)
    requires StrictlySorted(s)
    ensures StrictlySorted(InsertUnique(x, s))
    ensures forall y :: y in InsertUnique(x, s) <==> y == x || y in s
  {
    if s != [] && x != s[0] {
      if StrLess(x, s[0]) {
        forall j | 0 <= j < |s| ensures StrLess(x, s[j]) {
          if j > 0 { StrLessTransitive(x, s[0], s[j]); }
        }
      } else {
        StrLessTotal(x, s[0]);
        InsertUniqueSpec(x, s[1..]);
        var r := InsertUnique(x, s);
        forall i, j | 0 <= i < j < |r| ensures StrLess(r[i], r[j]) {
          if i == 0 {
            assert r[j] in InsertUnique(x, s[1..]);
          } else {
            assert r[i] == InsertUnique(x, s[1..])[i - 1];
          }
        }
      }
    }
  }

  lemma {:induction false} SortedUniqueSpec(ws: seq<string>)
    ensures StrictlySorted(SortedUnique(ws))
    ensures forall y :: y in SortedUnique(ws) <==> y in ws
  {
    if ws != [] {
      SortedUniqueSpec(ws[..|ws| - 1]);
      InsertUniqueSpec(ws[|ws| - 1], SortedUnique(ws[..|ws| - 1]));
      assert ws == ws[..|ws| - 1] + [ws[|ws| - 1]];
    }
  }

  lemma AlphaEntrySpec(line: string)
    ensures forall y :: y in AlphaEntry(line) <==> IsAlpha(Strip(line)) && y == Upper(Strip(line))
    ensures forall y :: y in AlphaEntry(line) ==> IsUpperWord(y)
  {
    if IsAlpha(Strip(line)) {
      UpperAlpha(Strip(line));
    }
  }

  lemma {:induction false} AlphaWordsSpec(lines: seq<string>)
    ensures forall y :: y in AlphaWords(lines) ==> IsUpperWord(y)
    ensures forall y :: y in AlphaWords(lines) <==> exists l :: l in lines && IsAlpha(Strip(l)) && y == Upper(Strip(l))
  {
    if lines != [] {
      var prefix, last := lines[..|lines| - 1], lines[|lines| - 1];
      AlphaWordsSpec(prefix);
      assert lines == prefix + [last];
      assert AlphaWords(lines) == AlphaWords(prefix) + AlphaEntry(last);
      AlphaEntrySpec(last);
      forall y | y in AlphaWords(lines)
        ensures exists l :: l in lines && IsAlpha(Strip(l)) && y == Upper(Strip(l))
      {
        if y !in AlphaWords(prefix) {
          assert last in lines;
        } else {
          var l :| l in prefix && IsAlpha(Strip(l)) && y == Upper(Strip(l));
          assert l in lines;
        }
      }
      forall y, l | l in lines && IsAlpha(Strip(l)) && y == Upper(Strip(l))
        ensures y in AlphaWords(lines)
      {
        if l != last {
          assert l in prefix;
        }
      }
    }
  }

  /**
   * The dictionary list is exactly the sorted, duplicate-free set of the
   * upper-cased lines whose stripped text is alphabetic.
   */
  lemma NormalizedDictionary(lines: seq<string>)
    ensures StrictlySorted(NormalizeWordList(lines))
    ensures forall y :: y in NormalizeWordList(lines) ==> IsUpperWord(y)
    ensures forall y :: y in NormalizeWordList(lines) <==>
              exists l :: l in lines && IsAlpha(Strip(l)) && y == Upper(Strip(l))
  {
    AlphaWordsSpec(lines);
    SortedUniqueSpec(AlphaWords(lines));
  }

  /** A strictly sorted list holds each word once. */
  lemma {:induction false} StrictlySortedDistinct(s: seq<string>, i: int, j: int)
    requires StrictlySorted(s) && 0 <= i < |s| && 0 <= j < |s| && i != j
    ensures s[i] != s[j]
  {
    if i < j { StrLessIrreflexive(s[i]); } else { StrLessIrreflexive(s[j]); }
  }

  /** The word list of the older version: every non-blank line, stripped and upper-cased, in file order. */
  function LegacyWordList(lines: seq<string>): seq<string> {
    if lines == [] then [] else LegacyWordList(lines[..|lines| - 1]) + LineEntry(lines[|lines| - 1])
  }

  /** What one line adds to the older list: its stripped, upper-cased text, unless it is blank. */
  function LineEntry(line: string): seq<string> {
    var w := Strip(line);
    if w != [] then [Upper(w)] else []
  }

  /** The number of non-blank lines. */
  function NonBlank(lines: seq<string>): nat {
    if lines == [] then 0
    else NonBlank(lines[..|lines| - 1]) + (if Strip(lines[|lines| - 1]) != [] then 1 else 0)
  }

  /** The older list keeps file order: it is built line block by line block. */
  lemma {:induction false} LegacyWordListAppend(a: seq<string>, b: seq<string>)
    ensures LegacyWordList(a + b) == LegacyWordList(a) + LegacyWordList(b)
    decreases |b|
  {
    if b == [] {
      assert a + b == a;
    } else {
      var b' := b[..|b| - 1];
      assert (a + b)[..|a + b| - 1] == a + b';
      assert (a + b)[|a + b| - 1] == b[|b| - 1];
      LegacyWordListAppend(a, b');
    }
  }

  /** One entry per non-blank line: duplicates and non-letters are kept. */
  lemma {:induction false} LegacyWordListLength(lines: seq<string>)
    ensures |LegacyWordList(lines)| == NonBlank(lines)
  {
    if lines != [] { LegacyWordListLength(lines[..|lines| - 1]); }
  }

  /** Every entry is a non-blank line, stripped and upper-cased, and every non-blank line has its entry. */
  lemma {:induction false} LegacyWordListMembers(lines: seq<string>)
    ensures forall y :: y in LegacyWordList(lines) <==> exists l :: l in lines && Strip(l) != [] && y == Upper(Strip(l))
  {
    if lines != [] {
      var prefix, last := lines[..|lines| - 1], lines[|lines| - 1];
      LegacyWordListMembers(prefix);
      assert lines == prefix + [last];
      forall y | y in LegacyWordList(lines)
        ensures exists l :: l in lines && Strip(l) != [] && y == Upper(Strip(l))
      {
        if y in LegacyWordList(prefix) {
          var l :| l in prefix && Strip(l) != [] && y == Upper(Strip(l));
          assert l in lines;
        } else {
          assert last in lines;
        }
      }
      forall y, l | l in lines && Strip(l) != [] && y == Upper(Strip(l))
        ensures y in LegacyWordList(lines)
      {
        if l != last {
          assert l in prefix;
        }
      }
    }
  }
}
