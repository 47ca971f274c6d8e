/**
 * The string operations the engine relies on: case folding, the letter
 * test, whitespace stripping, the code-point order of strings and the
 * substring test. Python's versions are Unicode-aware; these cover the
 * ASCII range (and the ASCII and Latin-1 characters Python counts as
 * whitespace), which is what the game's prompts and word lists hold.
 */
module Text {

  /** An upper-case ASCII letter, the range the recogniser's output is filtered to. */
  predicate IsUpperLetter(c: char) {
    'A' <= c <= 'Z'
  }

  predicate IsLetter(c: char) {
    'A' <= c <= 'Z' || 'a' <= c <= 'z'
  }

  /** str.isalpha: non-empty and letters only. */
  predicate IsAlpha(s: string) {
    |s| > 0 && forall i :: 0 <= i < |s| ==> IsLetter(s[i])
  }

  /** A word as the dictionary stores it: non-empty, upper-case letters only. */
  predicate IsUpperWord(s: string) {
    |s| > 0 && forall i :: 0 <= i < |s| ==> IsUpperLetter(s[i])
  }

  function UpperChar(c: char): (r: char)
    ensures IsLetter(c) ==> IsUpperLetter(r)
    ensures !('a' <= c <= 'z') ==> r == c
  {
    if 'a' <= c <= 'z' then (c as int - 32) as char else c
  }

  /** str.upper. */
  function Upper(s: string): (r: string)
    ensures |r| == |s|
    ensures forall i :: 0 <= i < |s| ==> r[i] == UpperChar(s[i])
  {
    seq(|s|, i requires 0 <= i < |s| => UpperChar(s[i]))
  }

  lemma UpperAlpha(s: string)
    requires IsAlpha(s)
    ensures IsUpperWord(Upper(s))
  {
  }

  lemma UpperOfUpperWord(s: string)
    requires IsUpperWord(s)
    ensures IsAlpha(s) && Upper(s) == s
  {
  }

  /** The characters str.strip removes (those of the ASCII range and the two Latin-1 ones). */
  predicate IsSpace(c: char) {
    c == ' ' || '\t' <= c <= '\r' || '\U{1c}' <= c <= '\U{1f}' || c == '\U{85}' || c == '\U{a0}'
  }

  function StripLeft(s: string): (r: string)
    ensures |r| <= |s|
    ensures r == s[|s| - |r|..]
    ensures r == [] || !IsSpace(r[0])
    ensures forall i :: 0 <= i < |s| - |r| ==> IsSpace(s[i])
  {
    if s != [] && IsSpace(s[0]) then StripLeft(s[1..]) else s
  }

  function StripRight(s: string): (r: string)
    ensures |r| <= |s|
    ensures r == s[..|r|]
    ensures r == [] || !IsSpace(r[|r| - 1])
    ensures forall i :: |r| <= i < |s| ==> IsSpace(s[i])
  {
    if s != [] && IsSpace(s[|s| - 1]) then StripRight(s[..|s| - 1]) else s
  }

  /** r sits at position k of s, and everything before and after it is whitespace. */
  predicate TrimmedAt(s: string, r: string, k: int) {
    && OccursAt(s, r, k)
    && (forall i :: 0 <= i < k ==> IsSpace(s[i]))
    && (forall i :: k + |r| <= i < |s| ==> IsSpace(s[i]))
  }

  /** Cutting leading whitespace off s, then trailing whitespace off the rest, leaves r trimmed in s. */
  lemma TrimmedOfParts(s: string, l: string, r: string)
    requires |l| <= |s| && l == s[|s| - |l|..]
    requires forall i :: 0 <= i < |s| - |l| ==> IsSpace(s[i])
    requires |r| <= |l| && r == l[..|r|]
    requires forall i :: |r| <= i < |l| ==> IsSpace(l[i])
    ensures TrimmedAt(s, r, |s| - |l|)
  {
    var k := |s| - |l|;
    assert s[k..k + |r|] == r;
    forall i | k + |r| <= i < |s| ensures IsSpace(s[i]) {
      assert s[i] == l[i - k];
    }
  }

  lemma StripSides(s: string)
    ensures TrimmedAt(s, StripRight(StripLeft(s)), |s| - |StripLeft(s)|)
  {
    TrimmedOfParts(s, StripLeft(s), StripRight(StripLeft(s)));
  }

  /**
   * str.strip: drops leading and trailing whitespace. The result is the
   * piece of s left when exactly its surrounding whitespace is removed.
   */
  function Strip(s: string): (r: string)
    ensures r == [] || (!IsSpace(r[0]) && !IsSpace(r[|r| - 1]))
    ensures exists k :: TrimmedAt(s, r, k)
  {
    StripSides(s);
    StripRight(StripLeft(s))
  }

  /** The set of characters of a string (Python's set(word)). */
  function Chars(s: string): (r: set<char>)
    ensures forall c :: c in r <==> c in s
  {
    set c | c in s
  }

  /** Python's string order: code point by code point, a proper prefix first. */
  predicate StrLess(a: string, b: string) {
    if a == [] then b != []
    else if b == [] then false
    else if a[0] != b[0] then a[0] < b[0]
    else StrLess(a[1..], b[1..])
  }

  lemma StrLessIrreflexive(a: string)
    ensures !StrLess(a, a)
  {
    if a != [] { StrLessIrreflexive(a[1..]); }
  }

  lemma StrLessAsymmetric(a: string, b: string)
    requires StrLess(a, b)
    ensures !StrLess(b, a)
  {
    if a != [] && b != [] && a[0] == b[0] { StrLessAsymmetric(a[1..], b[1..]); }
  }

  lemma StrLessTransitive(a: string, b: string, c: string)
    requires StrLess(a, b) && StrLess(b, c)
    ensures StrLess(a, c)
  {
    if a != [] && b != [] && c != [] && a[0] == b[0] && b[0] == c[0] {
      StrLessTransitive(a[1..], b[1..], c[1..]);
    }
  }

  lemma StrLessTotal(a: string, b: string)
    requires a != b
    ensures StrLess(a, b) || StrLess(b, a)
  {
    if a != [] && b != [] && a[0] == b[0] {
      assert a == [a[0]] + a[1..] && b == [b[0]] + b[1..];
      StrLessTotal(a[1..], b[1..]);
    }
  }

  /** In alphabetical (code-point) order, equal neighbours allowed: what sorted() leaves. */
  predicate Alphabetical(s: seq<string>) {
    forall i, j :: 0 <= i < j < |s| ==> s[i] == s[j] || StrLess(s[i], s[j])
  }

  /** Two alphabetical lists, every entry of a at or before every entry of b, stay alphabetical joined. */
  lemma AlphabeticalAppend(a: seq<string>, b: seq<string>)
    requires Alphabetical(a) && Alphabetical(b)
    requires forall x, y :: x in a && y in b ==> x == y || StrLess(x, y)
    ensures Alphabetical(a + b)
  {
    var s := a + b;
    forall i, j | 0 <= i < j < |s| ensures s[i] == s[j] || StrLess(s[i], s[j]) {
      if j < |a| {
        assert s[i] == a[i] && s[j] == a[j];
      } else if i >= |a| {
        assert s[i] == b[i - |a|] && s[j] == b[j - |a|];
      } else {
        assert s[i] in a && s[j] in b;
      }
    }
  }

  /** p occurs in w at position i. */
  predicate OccursAt(w: string, p: string, i: int) {
    0 <= i && i + |p| <= |w| && w[i..i + |p|] == p
  }

  /** Python's `p in w` for strings. */
  predicate Contains(w: string, p: string)
    decreases |w|
  {
    |p| <= |w| && (w[..|p|] == p || (w != [] && Contains(w[1..], p)))
  }

  lemma {:induction false} ContainsMeansOccurs(w: string, p: string)
    ensures Contains(w, p) <==> exists i :: OccursAt(w, p, i)
    decreases |w|
  {
    if |p| <= |w| {
      if w[..|p|] == p {
        assert OccursAt(w, p, 0);
      } else if w != [] {
        ContainsMeansOccurs(w[1..], p);
        if Contains(w[1..], p) {
          var i :| OccursAt(w[1..], p, i);
          assert w[1..][i..i + |p|] == w[i + 1..i + 1 + |p|];
          assert OccursAt(w, p, i + 1);
        }
        if i :| OccursAt(w, p, i) {
          assert i != 0;
          assert w[1..][i - 1..i - 1 + |p|] == w[i..i + |p|];
          assert OccursAt(w[1..], p, i - 1);
        }
      }
    }
  }
}
