/**
 * What the n-gram index holds. The index maps every contiguous substring
 * of length 2 (and, separately, of length 3) of every alphabetic word to
 * the list of words containing it; a word is appended once per
 * occurrence of the gram, in the order the words are given. `Postings`
 * is that list, defined word by word; the lemmas below are what a
 * lookup can rely on.
 */
module Ngrams {
  import opened Text

  /** A gram table; a missing key reads as the empty list (a defaultdict read with .get). */
  type Table = map<string, seq<string>>

  function Get(m: Table, g: string): (r: seq<string>)
    ensures g !in m ==> r == []
  {
    if g in m then m[g] else []
  }

  /** The number of start positions of n-grams in u (range(len(u) - n + 1), guarded by len(u) >= n). */
  function Positions(u: string, n: nat): (k: nat)
    ensures k == 0 || k - 1 + n <= |u|
  {
    if |u| >= n then |u| - n + 1 else 0
  }

  /** How often g is the n-gram at one of the first k start positions of u. */
  function OccPrefix(u: string, g: string, n: nat, k: nat): nat
    requires k == 0 || k - 1 + n <= |u|
  {
    if k == 0 then 0
    else OccPrefix(u, g, n, k - 1) + (if u[k - 1..k - 1 + n] == g then 1 else 0)
  }

  /** How often g occurs as an n-gram of u. */
  function Occurrences(u: string, g: string, n: nat): nat {
    OccPrefix(u, g, n, Positions(u, n))
  }

  /** [u] * k. */
  function Repeat(u: string, k: nat): (r: seq<string>)
    ensures |r| == k
    ensures forall i :: 0 <= i < k ==> r[i] == u
  {
    if k == 0 then [] else Repeat(u, k - 1) + [u]
  }

  /** What one input word contributes to the list of g: its upper-cased form, once per occurrence, if alphabetic. */
  function Entry(w: string, n: nat, g: string): seq<string> {
    var u := Upper(w);
    if IsAlpha(u) then Repeat(u, Occurrences(u, g, n)) else []
  }

  /** The list the index keeps under the n-gram g after it is built from ws. */
  function Postings(ws: seq<string>, n: nat, g: string): seq<string> {
    if ws == [] then [] else Postings(ws[..|ws| - 1], n, g) + Entry(ws[|ws| - 1], n, g)
  }

  /** Number of input words whose upper-cased form is the alphabetic word v. */
  function Copies(ws: seq<string>, v: string): nat {
    if ws == [] then 0
    else Copies(ws[..|ws| - 1], v) + (if Upper(ws[|ws| - 1]) == v && IsAlpha(v) then 1 else 0)
  }

  /** The word at a start position is counted among the occurrences of that gram. */
  lemma {:induction false} OccPrefixCounts(u: string, g: string, n: nat, k: nat, i: nat)
    requires k == 0 || k - 1 + n <= |u|
    requires i < k && u[i..i + n] == g
    ensures OccPrefix(u, g, n, k) > 0
  {
    if i < k - 1 {
      OccPrefixCounts(u, g, n, k - 1, i);
    }
  }

  /** An occurrence counted by OccPrefix really is an occurrence. */
  lemma {:induction false} OccPrefixSound(u: string, g: string, n: nat, k: nat)
    requires k == 0 || k - 1 + n <= |u|
    requires OccPrefix(u, g, n, k) > 0
    ensures exists i :: 0 <= i < k && OccursAt(u, g, i) && |g| == n
  {
    if u[k - 1..k - 1 + n] == g {
      assert OccursAt(u, g, k - 1);
    } else {
      OccPrefixSound(u, g, n, k - 1);
    }
  }

  /** Lists follow input order: building from a ++ b lists a's entries before b's. */
  lemma {:induction false} PostingsAppend(a: seq<string>, b: seq<string>, n: nat, g: string)
    ensures Postings(a + b, n, g) == Postings(a, n, g) + Postings(b, n, g)
    decreases |b|
  {
    if b == [] {
      assert a + b == a;
    } else {
      var b' := b[..|b| - 1];
      assert (a + b)[..|a + b| - 1] == a + b';
      PostingsAppend(a, b', n, g);
    }
  }

  /** Completeness: every n-gram of every alphabetic input word lists that word. */
  lemma {:induction false} PostingsComplete(ws: seq<string>, w: string, n: nat, i: nat)
    requires w in ws && IsAlpha(Upper(w))
    requires i + n <= |w|
    ensures Upper(w) in Postings(ws, n, Upper(w)[i..i + n])
    decreases |ws|
  {
    var u := Upper(w);
    var last := ws[|ws| - 1];
    if last == w {
      OccPrefixCounts(u, u[i..i + n], n, Positions(u, n), i);
      assert Entry(last, n, u[i..i + n])[0] == u;
    } else {
      assert w in ws[..|ws| - 1];
      PostingsComplete(ws[..|ws| - 1], w, n, i);
    }
  }

  /** Soundness: a listed word is the upper-cased form of an alphabetic input word and contains the gram. */
  lemma {:induction false} PostingsSound(ws: seq<string>, n: nat, g: string, v: string)
    requires v in Postings(ws, n, g)
    ensures exists w :: w in ws && IsAlpha(Upper(w)) && v == Upper(w)
    ensures |g| == n && Contains(v, g)
    decreases |ws|
  {
    var last := ws[|ws| - 1];
    if v in Entry(last, n, g) {
      var u := Upper(last);
      OccPrefixSound(u, g, n, Positions(u, n));
      ContainsMeansOccurs(u, g);
    } else {
      PostingsSound(ws[..|ws| - 1], n, g, v);
      var w :| w in ws[..|ws| - 1] && IsAlpha(Upper(w)) && v == Upper(w);
      assert w in ws;
    }
  }

  /** Multiplicity: v is listed once per occurrence of g in v, for every input word that yields v. */
  lemma {:induction false} PostingsCount(ws: seq<string>, n: nat, g: string, v: string)
    ensures multiset(Postings(ws, n, g))[v] == Copies(ws, v) * Occurrences(v, g, n)
    decreases |ws|
  {
    if ws != [] {
      var prefix, last := ws[..|ws| - 1], ws[|ws| - 1];
      PostingsCount(prefix, n, g, v);
      EntryCount(last, n, g, v);
      assert multiset(Postings(ws, n, g)) == multiset(Postings(prefix, n, g)) + multiset(Entry(last, n, g));
      var c, o := Copies(prefix, v), Occurrences(v, g, n);
      assert multiset(Postings(prefix, n, g))[v] == c * o;
      if Upper(last) == v && IsAlpha(v) {
        assert Copies(ws, v) == c + 1;
        MulSucc(c, o);
        assert multiset(Postings(ws, n, g))[v] == c * o + o;
      } else {
        assert Copies(ws, v) == c;
        assert multiset(Postings(ws, n, g))[v] == c * o;
      }
    }
  }

  lemma MulSucc(c: nat, o: nat)
    ensures (c + 1) * o == c * o + o
  {
  }

  lemma EntryCount(w: string, n: nat, g: string, v: string)
    ensures multiset(Entry(w, n, g))[v] == if Upper(w) == v && IsAlpha(v) then Occurrences(v, g, n) else 0
  {
    var u := Upper(w);
    if IsAlpha(u) {
      RepeatCount(u, Occurrences(u, g, n), v);
    }
  }

  lemma {:induction false} RepeatCount(u: string, k: nat, v: string)
    ensures multiset(Repeat(u, k))[v] == if u == v then k else 0
  {
    if k > 0 {
      RepeatCount(u, k - 1, v);
      assert multiset(Repeat(u, k)) == multiset(Repeat(u, k - 1)) + multiset{u};
    }
  }
  /**
   * m is the n-gram table of ws: every gram reads as its list, and no key
   * holds an empty list (a key is only created by an append).
   */
  ghost predicate Indexes(m: Table, ws: seq<string>, n: nat) {
    && (forall g :: Get(m, g) == Postings(ws, n, g))
    && (forall g :: g in m ==> m[g] != [])
  }

  lemma PostingsStep(ws: seq<string>, k: nat, n: nat, g: string)
    requires k < |ws|
    ensures Postings(ws[..k + 1], n, g) == Postings(ws[..k], n, g) + Entry(ws[k], n, g)
  {
    assert ws[..k + 1][..k] == ws[..k];
  }

  /**
   * The inner loop of the index build for one word u and one gram length n:
   * for i in range(len(u) - n + 1), append u to the list of u[i:i+n]. Every
   * gram's list grows by u once per occurrence of the gram in u.
   */
  method AddGrams(m: Table, u: string, n: nat) returns (r: Table)
    requires forall g :: g in m ==> m[g] != []
    ensures forall g :: Get(r, g) == Get(m, g) + Repeat(u, Occurrences(u, g, n))
    ensures forall g :: g in r ==> r[g] != []
  {
    r := m;
    for i := 0 to Positions(u, n)
      invariant forall g :: Get(r, g) == Get(m, g) + Repeat(u, OccPrefix(u, g, n, i))
      invariant forall g :: g in r ==> r[g] != []
    {
      var gram := u[i..i + n];
      ghost var r0 := r;
      r := r[gram := Get(r, gram) + [u]];
      forall g ensures Get(r, g) == Get(m, g) + Repeat(u, OccPrefix(u, g, n, i + 1)) {
        if g == gram {
          assert Repeat(u, OccPrefix(u, g, n, i) + 1) == Repeat(u, OccPrefix(u, g, n, i)) + [u];
        } else {
          assert Get(r, g) == Get(r0, g);
        }
      }
    }
  }
}
