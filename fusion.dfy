/**
 * Multi-configuration recognition fusion (ocr_token and
 * try_alternative_ocr_configs). The recogniser itself is not modelled:
 * each configuration's run on the image is given as an Outcome, the raw
 * text it returned or the exception it raised. Every outcome is reduced
 * to a candidate string, scored, and the best-scoring candidate of the
 * earliest configuration wins.
 *
 * ocr_token's per-letter bonuses are 2, 1 and 0.5; all of its scores are
 * doubled here (base 20 per letter, bonuses 4/2/1, penalties 6 and 4,
 * starting best -2), which keeps every comparison the same in integers.
 */
module Fusion {
  import opened Wrappers
  import opened Text

  /** One configuration's run: the raw text, or an exception (skipped). */
  datatype Outcome = Read(raw: string) | Failed

  /** The configuration set in use: ocr_token's (character correction on or off, length cap) or the alternate one. */
  datatype Rule = Primary(correction: bool, maxLen: nat) | Alternate

  /** OCR_MAP.get(ch, ch). */
  function OcrMap(c: char): (r: char)
    ensures IsUpperLetter(c) ==> r == c
  {
    match c
    case '0' => 'O'
    case '1' => 'I'
    case '5' => 'S'
    case '6' => 'G'
    case '8' => 'B'
    case '|' => 'I'
    case 'l' => 'I'
    case '!' => 'I'
    case _ => c
  }

  /**
   * [OCR_MAP.get(ch, ch) for ch in raw if 'A' <= ch <= 'Z']. The map is
   * applied after the filter, so it changes nothing: the result holds
   * exactly the capitals of raw.
   */
  function Letters(raw: string): (r: string)
    ensures forall i :: 0 <= i < |r| ==> IsUpperLetter(r[i])
    ensures forall c :: IsUpperLetter(c) ==> multiset(r)[c] == multiset(raw)[c]
  {
    if raw == [] then []
    else
      var prefix, last := raw[..|raw| - 1], raw[|raw| - 1];
      assert raw == prefix + [last];
      Letters(prefix) + (if IsUpperLetter(last) then [OcrMap(last)] else [])
  }

  /** Appending a character appends it to the letters if it is a capital. */
  lemma LettersSnoc(s: string, c: char)
    ensures Letters(s + [c]) == Letters(s) + (if IsUpperLetter(c) then [c] else [])
  {
    assert (s + [c])[..|s|] == s;
  }

  /** The kept letters follow raw's order: the letters of a + b are a's, then b's. */
  lemma {:induction false} LettersAppend(a: string, b: string)
    ensures Letters(a + b) == Letters(a) + Letters(b)
    decreases |b|
  {
    if b == [] {
      assert a + b == a;
    } else {
      var b', last := b[..|b| - 1], b[|b| - 1];
      assert b == b' + [last];
      assert a + b == (a + b') + [last];
      LettersSnoc(a + b', last);
      LettersSnoc(b', last);
      LettersAppend(a, b');
    }
  }

  /** One character contributes itself if it is a capital, and nothing otherwise. */
  lemma LettersOfChar(c: char)
    ensures Letters([c]) == if IsUpperLetter(c) then [c] else []
  {
    assert [c][..0] == [];
  }

  /** A text of capitals is kept whole. */
  lemma {:induction false} LettersOfCapitals(s: string)
    requires forall i :: 0 <= i < |s| ==> IsUpperLetter(s[i])
    ensures Letters(s) == s
  {
    if s != [] {
      var prefix, last := s[..|s| - 1], s[|s| - 1];
      assert s == prefix + [last];
      LettersAppend(prefix, [last]);
      LettersOfChar(last);
      LettersOfCapitals(prefix);
    }
  }

  predicate HasCapital(s: string) {
    exists i :: 0 <= i < |s| && IsUpperLetter(s[i])
  }

  /** No letters are kept exactly when raw holds no capital. */
  lemma {:induction false} LettersEmpty(raw: string)
    ensures Letters(raw) == [] <==> !HasCapital(raw)
  {
    if raw != [] {
      var prefix := raw[..|raw| - 1];
      LettersEmpty(prefix);
      assert forall i :: 0 <= i < |prefix| ==> prefix[i] == raw[i];
    }
  }

  /** The correction of one letter of a candidate with the given number of letters. */
  function CorrectChar(c: char, count: nat): char {
    if c == 'L' then (if count == 1 then 'I' else c)
    else if c == 'U' then 'O'
    else c
  }

  /**
   * The result of postprocess_letters: the letters unchanged when
   * correction is off; otherwise every U becomes O, an L becomes I only
   * when it is the only letter, and every other letter is kept.
   */
  function Corrected(letters: string, enabled: bool): (r: string)
    ensures |r| == |letters|
    ensures !enabled ==> r == letters
    ensures enabled ==> forall i :: 0 <= i < |r| ==> r[i] != 'U'
    ensures enabled ==> forall i :: 0 <= i < |r| && letters[i] == 'U' ==> r[i] == 'O'
    ensures enabled ==> forall i :: 0 <= i < |r| && letters[i] == 'L' ==> r[i] == (if |letters| == 1 then 'I' else 'L')
    ensures enabled ==> forall i :: 0 <= i < |r| && letters[i] != 'L' && letters[i] != 'U' ==> r[i] == letters[i]
  {
    if !enabled then letters
    else seq(|letters|, i requires 0 <= i < |letters| => CorrectChar(letters[i], |letters|))
  }

  /** postprocess_letters: the letter-by-letter loop. */
  method PostprocessLetters(letters: string, enabled: bool) returns (processed: string)
    ensures processed == Corrected(letters, enabled)
  {
    if !enabled {
      return letters;
    }
    processed := [];
    for i := 0 to |letters|
      invariant processed == Corrected(letters, enabled)[..i]
    {
      var c := letters[i];
      if c == 'L' {
        if |letters| == 1 {
          c := 'I';
        }
      } else if c == 'U' {
        c := 'O';
      }
      processed := processed + [c];
    }
  }

  /** "".join(letters)[:n]. */
  function Take(s: string, n: nat): (r: string)
    ensures |r| == if |s| <= n then |s| else n
    ensures r == s[..|r|]
  {
    if |s| <= n then s else s[..n]
  }

  function MaxLen(rule: Rule): nat {
    if rule.Primary? then rule.maxLen else 3
  }

  /**
   * The candidate a configuration contributes: none when it raised or
   * produced no capital letter; otherwise its capitals, corrected under
   * ocr_token's rule, cut to the length cap.
   */
  function Candidate(rule: Rule, o: Outcome): (r: Option<string>)
    ensures r.Some? ==> |r.value| <= MaxLen(rule)
    ensures r.Some? ==> forall i :: 0 <= i < |r.value| ==> IsUpperLetter(r.value[i])
    ensures r.Some? && rule.Primary? && rule.correction ==> 'U' !in r.value
    ensures r.Some? && MaxLen(rule) > 0 ==> r.value != []
    ensures r.None? <==> o.Failed? || !HasCapital(Upper(o.raw))
  {
    match o
    case Failed => None
    case Read(raw) =>
      var u := Upper(raw);
      LettersEmpty(u);
      var letters := Letters(u);
      if letters == [] then None else Some(Cut(rule, letters))
  }

  /** A configuration's letters corrected under ocr_token's rule (not under the alternate one) and cut to the cap. */
  function Cut(rule: Rule, letters: string): (r: string)
    requires forall i :: 0 <= i < |letters| ==> IsUpperLetter(letters[i])
    ensures |r| <= MaxLen(rule)
    ensures forall i :: 0 <= i < |r| ==> IsUpperLetter(r[i])
    ensures rule.Primary? && rule.correction ==> 'U' !in r
    ensures letters != [] && MaxLen(rule) > 0 ==> r != []
  {
    var fixed := if rule.Primary? then Corrected(letters, rule.correction) else letters;
    assert forall i :: 0 <= i < |fixed| ==> IsUpperLetter(fixed[i]);
    var r := Take(fixed, MaxLen(rule));
    assert forall i :: 0 <= i < |r| ==> r[i] == fixed[i];
    r
  }

  /** The per-letter bonus: three frequency tiers. */
  function Tier(rule: Rule, c: char): (b: int)
    ensures 0 <= b
  {
    var top := if rule.Primary? then 4 else 3;
    if c in "ETAOIN" then top
    else if c in "SHRDLU" then 2
    else if c in "CMFWY" then 1
    else 0
  }

  function Base(rule: Rule): int {
    if rule.Primary? then 20 else 10
  }

  function BonusSum(rule: Rule, s: string): int {
    if s == [] then 0 else BonusSum(rule, s[..|s| - 1]) + Tier(rule, s[|s| - 1])
  }

  /** ocr_token's penalties: a lone L, and any U; the alternate rule has none. */
  function Penalty(rule: Rule, s: string): int {
    if rule.Alternate? then 0
    else (if 'L' in s && |s| == 1 then 6 else 0) + (if 'U' in s then 4 else 0)
  }

  function Score(rule: Rule, s: string): int {
    Base(rule) * |s| + BonusSum(rule, s) - Penalty(rule, s)
  }

  /** The initial best_score. */
  function Floor(rule: Rule): int {
    if rule.Primary? then -2 else -1
  }

  lemma {:induction false} BonusSumNonNegative(rule: Rule, s: string)
    ensures BonusSum(rule, s) >= 0
  {
    if s != [] { BonusSumNonNegative(rule, s[..|s| - 1]); }
  }

  /** Every candidate beats the initial best score. */
  lemma ScoreAboveFloor(rule: Rule, s: string)
    ensures Score(rule, s) >= 0 > Floor(rule)
  {
    BonusSumNonNegative(rule, s);
  }

  /** The candidate of each configuration, in the order they are tried. */
  function Candidates(rule: Rule, os: seq<Outcome>): seq<Option<string>> {
    seq(|os|, i requires 0 <= i < |os| => Candidate(rule, os[i]))
  }

  /** The running (best_score, best_result) pair. */
  datatype Best = Best(score: int, result: string)

  /** The pair after the candidates cs have been considered in order. */
  function Scan(rule: Rule, cs: seq<Option<string>>): Best {
    if cs == [] then Best(Floor(rule), "") else Consider(rule, Scan(rule, cs[..|cs| - 1]), cs[|cs| - 1])
  }

  /** One loop iteration: a candidate replaces the best only with a strictly higher score. */
  function Consider(rule: Rule, b: Best, c: Option<string>): Best {
    match c
    case None => b
    case Some(t) => if Score(rule, t) > b.score then Best(Score(rule, t), t) else b
  }

  lemma ScanStep(rule: Rule, cs: seq<Option<string>>, i: nat)
    requires i < |cs|
    ensures Scan(rule, cs[..i + 1]) == Consider(rule, Scan(rule, cs[..i]), cs[i])
  {
    assert cs[..i + 1][..i] == cs[..i];
  }

  /** The fused token. */
  function Fused(rule: Rule, os: seq<Outcome>): string {
    Scan(rule, Candidates(rule, os)).result
  }

  predicate HasCandidate(cs: seq<Option<string>>) {
    exists j :: 0 <= j < |cs| && cs[j].Some?
  }

  /** Candidate i scores at least as high as every candidate and strictly higher than every earlier one. */
  predicate FirstBest(rule: Rule, cs: seq<Option<string>>, i: int, token: string) {
    && 0 <= i < |cs|
    && cs[i] == Some(token)
    && (forall j :: 0 <= j < |cs| && cs[j].Some? ==> Score(rule, cs[j].value) <= Score(rule, token))
    && (forall j :: 0 <= j < i && cs[j].Some? ==> Score(rule, cs[j].value) < Score(rule, token))
  }

  /** A candidate after the prefix that does not beat its best leaves the best where it was. */
  lemma FirstBestKept(rule: Rule, cs: seq<Option<string>>, i: int, token: string)
    requires cs != [] && FirstBest(rule, cs[..|cs| - 1], i, token)
    requires cs[|cs| - 1].Some? ==> Score(rule, cs[|cs| - 1].value) <= Score(rule, token)
    ensures FirstBest(rule, cs, i, token)
  {
    var prefix := cs[..|cs| - 1];
    assert forall j :: 0 <= j < |prefix| ==> prefix[j] == cs[j];
  }

  /** The last candidate is the first best when it beats every earlier one. */
  lemma FirstBestLast(rule: Rule, cs: seq<Option<string>>, c: string)
    requires cs != [] && cs[|cs| - 1] == Some(c)
    requires forall j :: 0 <= j < |cs| - 1 && cs[j].Some? ==> Score(rule, cs[j].value) < Score(rule, c)
    ensures FirstBest(rule, cs, |cs| - 1, c)
  {
  }

  lemma {:induction false} ScanFindsFirstBest(rule: Rule, cs: seq<Option<string>>)
    ensures !HasCandidate(cs) ==> Scan(rule, cs) == Best(Floor(rule), "")
    ensures HasCandidate(cs) ==>
      Scan(rule, cs).score == Score(rule, Scan(rule, cs).result)
      && exists i :: FirstBest(rule, cs, i, Scan(rule, cs).result)
  {
    if cs != [] {
      var prefix, last := cs[..|cs| - 1], cs[|cs| - 1];
      ScanFindsFirstBest(rule, prefix);
      var b := Scan(rule, prefix);
      assert forall j :: 0 <= j < |prefix| ==> prefix[j] == cs[j];
      if HasCandidate(prefix) {
        var i :| FirstBest(rule, prefix, i, b.result);
        if last.Some? && Score(rule, last.value) > b.score {
          FirstBestLast(rule, cs, last.value);
        } else {
          FirstBestKept(rule, cs, i, b.result);
        }
      } else if last.Some? {
        ScoreAboveFloor(rule, last.value);
        FirstBestLast(rule, cs, last.value);
      }
    }
  }

  /**
   * The fusion rule: "" when no configuration yields a capital letter;
   * otherwise the candidate with the highest score, the earliest
   * configuration winning ties.
   */
  lemma FusedIsFirstBest(rule: Rule, os: seq<Outcome>)
    ensures !HasCandidate(Candidates(rule, os)) ==> Fused(rule, os) == ""
    ensures HasCandidate(Candidates(rule, os)) ==> exists i :: FirstBest(rule, Candidates(rule, os), i, Fused(rule, os))
  {
    var cs := Candidates(rule, os);
    ScanFindsFirstBest(rule, cs);
    assert Fused(rule, os) == Scan(rule, cs).result;
  }

  /** The fused token is a candidate, so it obeys the candidates' length cap and alphabet. */
  lemma FusedShape(rule: Rule, os: seq<Outcome>)
    ensures |Fused(rule, os)| <= MaxLen(rule)
    ensures forall i :: 0 <= i < |Fused(rule, os)| ==> IsUpperLetter(Fused(rule, os)[i])
    ensures rule.Primary? && rule.correction ==> 'U' !in Fused(rule, os)
    ensures Fused(rule, os) == "" <==> !HasCandidate(Candidates(rule, os)) || MaxLen(rule) == 0
  {
    FusedIsFirstBest(rule, os);
    if HasCandidate(Candidates(rule, os)) {
      var i :| FirstBest(rule, Candidates(rule, os), i, Fused(rule, os));
      assert Candidate(rule, os[i]) == Some(Fused(rule, os));
    }
  }

  /**
   * Under correction no candidate holds a U, so ocr_token's U penalty only
   * ever applies with correction switched off.
   */
  lemma UPenaltyOnlyWithoutCorrection(maxLen: nat, o: Outcome)
    requires Candidate(Primary(true, maxLen), o).Some?
    ensures Penalty(Primary(true, maxLen), Candidate(Primary(true, maxLen), o).value) ==
            if Candidate(Primary(true, maxLen), o).value == "L" then 6 else 0
  {
  }

  /** One pass of the loop body: the configuration's candidate and its score. */
  method Evaluate(rule: Rule, o: Outcome) returns (candidate: Option<string>, score: int)
    ensures candidate == Candidate(rule, o)
    ensures candidate.Some? ==> score == Score(rule, candidate.value)
  {
    score := 0;
    match o
    case Failed =>
      candidate := None;
    case Read(raw) =>
      var letters := Letters(Upper(raw));
      if letters == [] {
        return None, 0;
      }
      if rule.Primary? {
        letters := PostprocessLetters(letters, rule.correction);
      }
      var result := Take(letters, MaxLen(rule));
      score := |result| * Base(rule);
      for k := 0 to |result|
        invariant score == Base(rule) * |result| + BonusSum(rule, result[..k])
      {
        assert result[..k + 1][..k] == result[..k];
        score := score + Tier(rule, result[k]);
      }
      assert result[..|result|] == result;
      if rule.Primary? {
        if 'L' in result && |result| == 1 {
          score := score - 6;
        }
        if 'U' in result {
          score := score - 4;
        }
      }
      candidate := Some(result);
  }

  /** The loop shared by both configuration sets: try each in order, keep a strictly better score. */
  method Fuse(rule: Rule, outcomes: seq<Outcome>) returns (token: string)
    ensures token == Fused(rule, outcomes)
  {
    var bestResult := "";
    var bestScore := Floor(rule);
    ghost var cs := Candidates(rule, outcomes);
    for i := 0 to |outcomes|
      invariant Scan(rule, cs[..i]) == Best(bestScore, bestResult)
    {
      ScanStep(rule, cs, i);
      var candidate, score := Evaluate(rule, outcomes[i]);
      if candidate.Some? && score > bestScore {
        bestScore := score;
        bestResult := candidate.value;
      }
    }
    assert cs[..|outcomes|] == cs;
    token := bestResult;
  }

  /** ocr_token: the primary configurations, with character correction as set, cut to max_len letters. */
  method OcrToken(outcomes: seq<Outcome>, maxLen: nat, correction: bool) returns (token: string)
    ensures token == Fused(Primary(correction, maxLen), outcomes)
    ensures |token| <= maxLen
    ensures forall i :: 0 <= i < |token| ==> IsUpperLetter(token[i])
    ensures correction ==> 'U' !in token
    ensures token == "" <==> !HasCandidate(Candidates(Primary(correction, maxLen), outcomes)) || maxLen == 0
  {
    token := Fuse(Primary(correction, maxLen), outcomes);
    FusedShape(Primary(correction, maxLen), outcomes);
  }

  /** try_alternative_ocr_configs: the alternate configurations, no correction, no penalties, at most 3 letters. */
  method TryAlternativeOcrConfigs(outcomes: seq<Outcome>) returns (alt: string)
    ensures alt == Fused(Alternate, outcomes)
    ensures |alt| <= 3
    ensures forall i :: 0 <= i < |alt| ==> IsUpperLetter(alt[i])
    ensures alt == "" <==> !HasCandidate(Candidates(Alternate, outcomes))
  {
    alt := Fuse(Alternate, outcomes);
    FusedShape(Alternate, outcomes);
  }
}
