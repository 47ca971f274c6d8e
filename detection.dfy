/**
 * detect_token_from_regions: each monitored region (slot) is read through
 * a one-entry cache keyed by the digest of its image, and the slot tokens
 * are reduced to one prompt. The screenshot, the image digest and the
 * recogniser are not modelled: each slot's pass is given as a Shot, the
 * digest of its image and the outcomes of the primary configurations on
 * it.
 */
module Detection {
  import opened Wrappers
  import opened Text
  import opened Geometry
  import opened Fusion

  /** An image digest; only equality of digests is used. */
  type Digest = seq<bv8>

  /** One slot's image on this pass: its digest and what each primary configuration reads from it. */
  datatype Shot = Shot(digest: Digest, outcomes: seq<Outcome>)

  /** One slot's cache entry: last_hashes[i] and last_tokens[i]. */
  datatype Slot = Slot(hash: Option<Digest>, token: string)

  /** A slot's token on this pass, its cache entry afterwards, and whether the recogniser ran. */
  datatype SlotResult = SlotResult(token: string, cache: Slot, ocr: bool)

  /** A prompt token as ocr_token with max_len 3 produces it: at most three capital letters. */
  predicate IsToken(t: string) {
    |t| <= 3 && forall i :: 0 <= i < |t| ==> IsUpperLetter(t[i])
  }

  /**
   * One iteration of the slot loop: no image gives ""; an image whose
   * digest equals the cached one gives the cached token without
   * recognition; any other image is recognised and becomes the cache entry.
   */
  function SlotStep(r: Region, shot: Shot, cache: Slot, correction: bool): SlotResult {
    if RegionToRect(r).None? then SlotResult("", cache, false)
    else if cache.hash == Some(shot.digest) then SlotResult(cache.token, cache, false)
    else
      var t := Fused(Primary(correction, 3), shot.outcomes);
      SlotResult(t, Slot(Some(shot.digest), t), true)
  }

  /**
   * Change detection: an unchanged image is not recognised a second time.
   * Right after a pass, the same image hits the cache and yields the same
   * token, whatever the correction setting is by then.
   */
  lemma SecondPassHitsCache(r: Region, shot: Shot, cache: Slot, correction: bool, correction': bool)
    ensures var first := SlotStep(r, shot, cache, correction);
            SlotStep(r, shot, first.cache, correction') == SlotResult(first.token, first.cache, false)
  {
  }

  /** A changed image is recognised, and its digest and token replace the cache entry. */
  lemma ChangedImageIsRecognised(r: Region, shot: Shot, cache: Slot, correction: bool)
    requires RegionToRect(r).Some? && cache.hash != Some(shot.digest)
    ensures var s := SlotStep(r, shot, cache, correction);
            s.ocr && s.cache.hash == Some(shot.digest) && s.cache.token == s.token
            && s.token == Fused(Primary(correction, 3), shot.outcomes)
  {
  }

  /** The cache entry agrees with what recognising the image of its digest gives. */
  predicate Coherent(cache: Slot, see: Digest -> seq<Outcome>, correction: bool) {
    cache.hash.Some? ==> cache.token == Fused(Primary(correction, 3), see(cache.hash.value))
  }

  /**
   * The cache is transparent: while each digest determines what the
   * recogniser reads (see) and the correction setting is unchanged, a
   * cached slot yields exactly the token a fresh recognition would, and
   * the cache stays coherent.
   */
  lemma CacheIsTransparent(r: Region, shot: Shot, cache: Slot, correction: bool, see: Digest -> seq<Outcome>)
    requires Coherent(cache, see, correction)
    requires shot.outcomes == see(shot.digest)
    ensures RegionToRect(r).Some? ==> SlotStep(r, shot, cache, correction).token == Fused(Primary(correction, 3), shot.outcomes)
    ensures Coherent(SlotStep(r, shot, cache, correction).cache, see, correction)
  {
  }

  /** Slot tokens and cached tokens are prompt tokens. */
  lemma SlotStepTokens(r: Region, shot: Shot, cache: Slot, correction: bool)
    requires IsToken(cache.token)
    ensures IsToken(SlotStep(r, shot, cache, correction).token)
    ensures IsToken(SlotStep(r, shot, cache, correction).cache.token)
  {
    FusedShape(Primary(correction, 3), shot.outcomes);
  }

  // Choosing the prompt among the slot tokens.

  /** (-len(a), a) < (-len(b), b): longer first, then alphabetical. */
  predicate RankBefore(a: string, b: string) {
    |a| > |b| || (|a| == |b| && StrLess(a, b))
  }

  lemma RankBeforeTransitive(a: string, b: string, c: string)
    requires RankBefore(a, b) && RankBefore(b, c)
    ensures RankBefore(a, c)
  {
    if |a| == |b| == |c| {
      StrLessTransitive(a, b, c);
    }
  }

  lemma RankBeforeTotal(a: string, b: string)
    requires a != b
    ensures RankBefore(a, b) || RankBefore(b, a)
  {
    if |a| == |b| {
      StrLessTotal(a, b);
    }
  }

  /** The non-empty tokens, in slot order. */
  function NonEmpty(ts: seq<string>): seq<string> {
    if ts == [] then []
    else NonEmpty(ts[..|ts| - 1]) + (if ts[|ts| - 1] != "" then [ts[|ts| - 1]] else [])
  }

  /** Places x after every entry that ranks no later. */
  function InsertRanked(x: string, s: seq<string>): seq<string> {
    if s == [] then [x]
    else if RankBefore(x, s[0]) then [x] + s
    else [s[0]] + InsertRanked(x, s[1..])
  }

  /** sorted(..., key=lambda t: (-len(t), t)). */
  function SortRanked(ws: seq<string>): seq<string> {
    if ws == [] then [] else InsertRanked(ws[|ws| - 1], SortRanked(ws[..|ws| - 1]))
  }

  /** The first token of two or three letters. */
  function FirstPrompt(ranked: seq<string>): Option<string> {
    if ranked == [] then None
    else if |ranked[0]| == 3 || |ranked[0]| == 2 then Some(ranked[0])
    else FirstPrompt(ranked[1..])
  }

  /** The prompt chosen among the slot tokens. */
  function ChooseToken(ts: seq<string>): string {
    var ranked := SortRanked(NonEmpty(ts));
    match FirstPrompt(ranked)
    case Some(t) => t
    case None => if ranked == [] then "" else ranked[0]
  }

  /** The head of a list ranks no later than any other entry. */
  predicate Leads(s: seq<string>) {
    forall i :: 0 < i < |s| ==> s[i] == s[0] || RankBefore(s[0], s[i])
  }

  lemma {:induction false} NonEmptyMembers(ts: seq<string>)
    ensures forall t :: t in NonEmpty(ts) <==> t in ts && t != ""
  {
    if ts != [] {
      NonEmptyMembers(ts[..|ts| - 1]);
      assert ts == ts[..|ts| - 1] + [ts[|ts| - 1]];
    }
  }

  lemma {:induction false} InsertRankedMembers(x: string, s: seq<string>)
    ensures forall t :: t in InsertRanked(x, s) <==> t == x || t in s
  {
    if s != [] && !RankBefore(x, s[0]) {
      InsertRankedMembers(x, s[1..]);
      assert s == [s[0]] + s[1..];
    }
  }

  lemma InsertRankedLeads(x: string, s: seq<string>)
    requires Leads(s)
    ensures Leads(InsertRanked(x, s))
  {
    if s == [] {
    } else if RankBefore(x, s[0]) {
      var r := [x] + s;
      forall i | 0 < i < |r| ensures r[i] == r[0] || RankBefore(r[0], r[i]) {
        if i > 1 && r[i] != s[0] {
          RankBeforeTransitive(x, s[0], r[i]);
        }
      }
    } else {
      InsertRankedMembers(x, s[1..]);
      var r := InsertRanked(x, s);
      forall i | 0 < i < |r| ensures r[i] == r[0] || RankBefore(r[0], r[i]) {
        assert r[i] in InsertRanked(x, s[1..]);
        if r[i] == x {
          if x != s[0] { RankBeforeTotal(x, s[0]); }
        } else {
          var j :| 0 <= j < |s[1..]| && s[1..][j] == r[i];
          assert s[j + 1] == r[i];
        }
      }
    }
  }

  lemma {:induction false} SortRankedSpec(ws: seq<string>)
    ensures Leads(SortRanked(ws))
    ensures forall t :: t in SortRanked(ws) <==> t in ws
  {
    if ws != [] {
      var prefix, last := ws[..|ws| - 1], ws[|ws| - 1];
      SortRankedSpec(prefix);
      InsertRankedLeads(last, SortRanked(prefix));
      InsertRankedMembers(last, SortRanked(prefix));
      assert ws == prefix + [last];
    }
  }

  lemma {:induction false} FirstPromptNone(ranked: seq<string>)
    requires forall i :: 0 <= i < |ranked| ==> |ranked[i]| < 2
    ensures FirstPrompt(ranked) == None
  {
    if ranked != [] {
      FirstPromptNone(ranked[1..]);
    }
  }

  /**
   * With tokens of at most three letters: "" exactly when every slot is
   * empty; otherwise the longest non-empty slot token, the alphabetically
   * first among those of that length.
   */
  lemma ChooseTokenIsLongest(ts: seq<string>)
    requires forall i :: 0 <= i < |ts| ==> |ts[i]| <= 3
    ensures ChooseToken(ts) == "" <==> forall i :: 0 <= i < |ts| ==> ts[i] == ""
    ensures ChooseToken(ts) != "" ==> ChooseToken(ts) in ts
    ensures forall t :: t in ts && t != "" ==> t == ChooseToken(ts) || RankBefore(ChooseToken(ts), t)
  {
    var ranked := SortRanked(NonEmpty(ts));
    NonEmptyMembers(ts);
    SortRankedSpec(NonEmpty(ts));
    if ranked == [] {
      forall i | 0 <= i < |ts| ensures ts[i] == "" {
        assert ts[i] !in ranked;
      }
    } else {
      var head := ranked[0];
      assert head in ts && head != "";
      forall t | t in ts && t != "" ensures t == head || RankBefore(head, t) {
        assert t in ranked;
      }
      if |head| < 2 {
        forall i | 0 <= i < |ranked| ensures |ranked[i]| < 2 {
          assert ranked[i] in ts;
        }
        FirstPromptNone(ranked);
      }
      assert ChooseToken(ts) == head;
    }
  }

  // The pass over all slots.

  /** The token of a pass and the cache entries after it. */
  datatype Detected = Detected(token: string, caches: seq<Slot>)

  function SlotResults(regions: seq<Region>, shots: seq<Shot>, caches: seq<Slot>, correction: bool): (rs: seq<SlotResult>)
    requires |regions| == |shots| == |caches|
    ensures |rs| == |regions|
  {
    seq(|regions|, i requires 0 <= i < |regions| => SlotStep(regions[i], shots[i], caches[i], correction))
  }

  function Tokens(rs: seq<SlotResult>): (ts: seq<string>)
    ensures |ts| == |rs|
  {
    seq(|rs|, i requires 0 <= i < |rs| => rs[i].token)
  }

  function Caches(rs: seq<SlotResult>): (cs: seq<Slot>)
    ensures |cs| == |rs|
  {
    seq(|rs|, i requires 0 <= i < |rs| => rs[i].cache)
  }

  /** detect_token_from_regions: nothing at all while region A has an unset coordinate. */
  function Detect(regions: seq<Region>, shots: seq<Shot>, caches: seq<Slot>, correction: bool): Detected
    requires |regions| == |shots| == |caches| > 0
  {
    if !IsSet(regions[0]) then Detected("", caches)
    else
      var rs := SlotResults(regions, shots, caches, correction);
      Detected(ChooseToken(Tokens(rs)), Caches(rs))
  }

  /**
   * A pass returns "" and leaves the caches alone when region A is not set;
   * otherwise it returns "" exactly when every slot token is empty, and
   * else the longest slot token (alphabetically first among equals). Cached
   * tokens stay prompt tokens.
   */
  lemma DetectSpec(regions: seq<Region>, shots: seq<Shot>, caches: seq<Slot>, correction: bool)
    requires |regions| == |shots| == |caches| > 0
    requires forall i :: 0 <= i < |caches| ==> IsToken(caches[i].token)
    ensures !IsSet(regions[0]) ==> Detect(regions, shots, caches, correction) == Detected("", caches)
    ensures var d := Detect(regions, shots, caches, correction);
            && IsToken(d.token)
            && |d.caches| == |caches|
            && (forall i :: 0 <= i < |caches| ==> IsToken(d.caches[i].token))
    ensures IsSet(regions[0]) ==>
            var ts := Tokens(SlotResults(regions, shots, caches, correction));
            var t := Detect(regions, shots, caches, correction).token;
            && (t == "" <==> forall i :: 0 <= i < |ts| ==> ts[i] == "")
            && (t != "" ==> t in ts)
            && (forall u :: u in ts && u != "" ==> u == t || RankBefore(t, u))
  {
    var rs := SlotResults(regions, shots, caches, correction);
    forall i | 0 <= i < |regions| ensures IsToken(rs[i].token) && IsToken(rs[i].cache.token) {
      SlotStepTokens(regions[i], shots[i], caches[i], correction);
    }
    if IsSet(regions[0]) {
      var ts := Tokens(rs);
      ChooseTokenIsLongest(ts);
      if ChooseToken(ts) != "" {
        var j :| 0 <= j < |ts| && ts[j] == ChooseToken(ts);
      }
    }
  }
}
