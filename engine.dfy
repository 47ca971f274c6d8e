/**
 * The session state of the two-region version and the operations that
 * change it: loading and indexing the dictionary, typing a word, the
 * detection pass with its per-slot cache, the stuck-prompt correction and
 * the ranking of the index hits, and the small toggles and clears of the
 * dashboard. The module-level globals of the program are the fields of
 * one object.
 */
module Engine {
  import opened Wrappers
  import opened Text
  import opened Ngrams
  import opened Dictionary
  import opened Ranking
  import opened Geometry
  import Fusion
  import opened Detection
  import opened Correction

  /** ngram_index.get(len(token), {}).get(token, []): only grams of two or three letters are indexed. */
  function Lookup(bigrams: Table, trigrams: Table, token: string): seq<string> {
    if |token| == 2 then Get(bigrams, token)
    else if |token| == 3 then Get(trigrams, token)
    else []
  }

  /** A word listed under a gram of a dictionary of upper-case words is a dictionary word containing the gram. */
  lemma DictionaryPostingSound(ws: seq<string>, n: nat, token: string, v: string)
    requires forall w :: w in ws ==> IsUpperWord(w)
    requires v in Postings(ws, n, token)
    ensures v in ws && Contains(v, token)
  {
    PostingsSound(ws, n, token, v);
    var w :| w in ws && IsAlpha(Upper(w)) && v == Upper(w);
    UpperOfUpperWord(w);
  }

  /** A dictionary word containing an n-letter gram is listed under it. */
  lemma DictionaryPostingComplete(ws: seq<string>, n: nat, token: string, v: string)
    requires forall w :: w in ws ==> IsUpperWord(w)
    requires |token| == n && v in ws && Contains(v, token)
    ensures v in Postings(ws, n, token)
  {
    ContainsMeansOccurs(v, token);
    var i :| OccursAt(v, token, i);
    UpperOfUpperWord(v);
    assert Upper(v)[i..i + n] == token;
    PostingsComplete(ws, v, n, i);
  }

  /** Over a dictionary of upper-case words, the list of an n-letter gram holds exactly the words containing it. */
  lemma PostingsOfDictionary(ws: seq<string>, n: nat, token: string)
    requires forall w :: w in ws ==> IsUpperWord(w)
    requires |token| == n
    ensures forall v :: v in Postings(ws, n, token) <==> v in ws && Contains(v, token)
  {
    forall v ensures v in Postings(ws, n, token) <==> v in ws && Contains(v, token) {
      if v in Postings(ws, n, token) {
        DictionaryPostingSound(ws, n, token, v);
      }
      if v in ws && Contains(v, token) {
        DictionaryPostingComplete(ws, n, token, v);
      }
    }
  }

  /**
   * With the tables indexing a dictionary of upper-case words, the index
   * hits of a token are exactly the dictionary words containing it, and
   * only for a token of two or three letters.
   */
  lemma LookupFindsContainingWords(ws: seq<string>, bigrams: Table, trigrams: Table, token: string)
    requires Indexes(bigrams, ws, 2) && Indexes(trigrams, ws, 3)
    requires forall w :: w in ws ==> IsUpperWord(w)
    ensures forall v :: v in Lookup(bigrams, trigrams, token) <==>
              v in ws && (|token| == 2 || |token| == 3) && Contains(v, token)
  {
    if |token| == 2 {
      assert Lookup(bigrams, trigrams, token) == Postings(ws, 2, token);
      PostingsOfDictionary(ws, 2, token);
    } else if |token| == 3 {
      assert Lookup(bigrams, trigrams, token) == Postings(ws, 3, token);
      PostingsOfDictionary(ws, 3, token);
    }
  }

  /**
   * The ranking of capture_and_match_once: the hits of the token that are
   * long enough and not yet used, sorted stably by score_word descending;
   * the suggestion is the head, or "" when there is none.
   */
  lemma MatchesSpec(ws: seq<string>, bigrams: Table, trigrams: Table, token: string,
                    minLength: int, used: set<string>, typed: set<char>)
    requires Indexes(bigrams, ws, 2) && Indexes(trigrams, ws, 3)
    requires forall w :: w in ws ==> IsUpperWord(w)
    ensures var r := RankMatches(Lookup(bigrams, trigrams, token), minLength, used, typed);
      && (forall w :: w in r <==>
            w in ws && (|token| == 2 || |token| == 3) && Contains(w, token) && |w| >= minLength && w !in used)
      && (forall i, j :: 0 <= i < j < |r| ==> !Below(ScoreWord(r[i], typed), ScoreWord(r[j], typed)))
      && (BestWord(r) == "" <==> r == [])
      && (forall w :: w in r ==> !Below(ScoreWord(BestWord(r), typed), ScoreWord(w, typed)))
  {
    LookupFindsContainingWords(ws, bigrams, trigrams, token);
    RankMatchesSpec(Lookup(bigrams, trigrams, token), minLength, used, typed);
    var r := RankMatches(Lookup(bigrams, trigrams, token), minLength, used, typed);
    if r != [] {
      assert r[0] in r;
    }
  }

  /** Over the sorted dictionary, every gram's list is in alphabetical order (a word repeated once per occurrence). */
  lemma {:induction false} PostingsAlphabetical(ws: seq<string>, n: nat, g: string)
    requires StrictlySorted(ws)
    requires forall w :: w in ws ==> IsUpperWord(w)
    ensures Alphabetical(Postings(ws, n, g))
    decreases |ws|
  {
    if ws != [] {
      var prefix, last := ws[..|ws| - 1], ws[|ws| - 1];
      assert StrictlySorted(prefix) by {
        forall i, j | 0 <= i < j < |prefix| ensures StrLess(prefix[i], prefix[j]) {
          assert prefix[i] == ws[i] && prefix[j] == ws[j];
        }
      }
      PostingsAlphabetical(prefix, n, g);
      UpperOfUpperWord(last);
      forall x, y | x in Postings(prefix, n, g) && y in Entry(last, n, g) ensures x == y || StrLess(x, y) {
        DictionaryPostingSound(prefix, n, g, x);
        var i :| 0 <= i < |prefix| && prefix[i] == x;
        assert ws[i] == x;
      }
      AlphabeticalAppend(Postings(prefix, n, g), Entry(last, n, g));
    }
  }

  /**
   * Equal scores keep the index order, which is alphabetical because the
   * dictionary is sorted: matches of equal score are ranked alphabetically,
   * and the suggestion is the alphabetically first best-scoring match.
   */
  lemma MatchTiesAlphabetical(ws: seq<string>, bigrams: Table, trigrams: Table, token: string,
                              minLength: int, used: set<string>, typed: set<char>)
    requires Indexes(bigrams, ws, 2) && Indexes(trigrams, ws, 3)
    requires StrictlySorted(ws)
    requires forall w :: w in ws ==> IsUpperWord(w)
    ensures var r := RankMatches(Lookup(bigrams, trigrams, token), minLength, used, typed);
      && (forall i, j :: 0 <= i < j < |r| && ScoreWord(r[i], typed) == ScoreWord(r[j], typed) ==>
            r[i] == r[j] || StrLess(r[i], r[j]))
      && (forall w :: w in r && !Below(ScoreWord(w, typed), ScoreWord(BestWord(r), typed)) ==>
            BestWord(r) == w || StrLess(BestWord(r), w))
  {
    if |token| == 2 {
      assert Lookup(bigrams, trigrams, token) == Postings(ws, 2, token);
      PostingsAlphabetical(ws, 2, token);
    } else if |token| == 3 {
      assert Lookup(bigrams, trigrams, token) == Postings(ws, 3, token);
      PostingsAlphabetical(ws, 3, token);
    }
    TiesAlphabetical(Lookup(bigrams, trigrams, token), minLength, used, typed);
    RankMatchesSpec(Lookup(bigrams, trigrams, token), minLength, used, typed);
  }

  /** A suggested word always comes from the dictionary and contains the prompt. */
  lemma SuggestionContainsPrompt(ws: seq<string>, bigrams: Table, trigrams: Table, token: string,
                                 minLength: int, used: set<string>, typed: set<char>)
    requires Indexes(bigrams, ws, 2) && Indexes(trigrams, ws, 3)
    requires forall w :: w in ws ==> IsUpperWord(w)
    requires BestWord(RankMatches(Lookup(bigrams, trigrams, token), minLength, used, typed)) != ""
    ensures var best := BestWord(RankMatches(Lookup(bigrams, trigrams, token), minLength, used, typed));
            best in ws && Contains(best, token) && |best| >= minLength && best !in used
  {
    MatchesSpec(ws, bigrams, trigrams, token, minLength, used, typed);
    assert RankMatches(Lookup(bigrams, trigrams, token), minLength, used, typed)[0]
        in RankMatches(Lookup(bigrams, trigrams, token), minLength, used, typed);
  }

  /** A pass over a set region A yields the chosen slot token and the slots' new cache entries. */
  lemma DetectOfSteps(regions: seq<Region>, shots: seq<Shot>, before: seq<Slot>, correction: bool,
                      tokens: seq<string>, after: seq<Slot>)
    requires |regions| == |shots| == |before| == |tokens| == |after| == 2 && IsSet(regions[0])
    requires forall j :: 0 <= j < 2 ==>
               tokens[j] == SlotStep(regions[j], shots[j], before[j], correction).token
               && after[j] == SlotStep(regions[j], shots[j], before[j], correction).cache
    ensures Detect(regions, shots, before, correction) == Detected(ChooseToken(tokens), after)
  {
    var rs := SlotResults(regions, shots, before, correction);
    assert tokens == Tokens(rs);
    assert after == Caches(rs);
  }

  class State {
    var wordList: seq<string>
    var bigrams: Table
    var trigrams: Table
    var typedHistory: set<char>
    var usedWords: set<string>
    var bestCurrentWord: string
    var regions: seq<Region>
    var lastHashes: seq<Option<Digest>>
    var lastTokens: seq<string>
    var lastPromptBeforeTyping: string
    var promptRetryCount: nat
    var charCorrection: bool

    /** The word list is the normalised dictionary and the tables index it. */
    ghost predicate IndexValid()
      reads this`wordList, this`bigrams, this`trigrams
    {
      && StrictlySorted(wordList)
      && (forall w :: w in wordList ==> IsUpperWord(w))
      && Indexes(bigrams, wordList, 2)
      && Indexes(trigrams, wordList, 3)
    }

    /** Two regions and two slot caches, each cached token a prompt token. */
    ghost predicate SlotsValid()
      reads this`regions, this`lastHashes, this`lastTokens
    {
      && |regions| == 2 && |lastHashes| == 2 && |lastTokens| == 2
      && (forall i :: 0 <= i < 2 ==> IsToken(lastTokens[i]))
    }

    ghost predicate Valid()
      reads this
    {
      IndexValid() && SlotsValid() && promptRetryCount <= MaxPromptRetries
    }

    /** The two slot caches, last_hashes[i] with last_tokens[i]. */
    function SlotCaches(): seq<Slot>
      reads this
      requires |lastHashes| == |lastTokens|
    {
      var hashes, tokens := lastHashes, lastTokens;
      seq(|hashes|, i requires 0 <= i < |hashes| => Slot(hashes[i], tokens[i]))
    }

    function RetryState(): Retry
      reads this
    {
      Retry(lastPromptBeforeTyping, promptRetryCount)
    }

    /** The start-up state: no dictionary, both regions unset, empty caches, correction on. */
    constructor ()
      ensures Valid()
      ensures wordList == [] && typedHistory == {} && usedWords == {} && bestCurrentWord == ""
      ensures regions == [Unset, Unset] && lastHashes == [None, None] && lastTokens == ["", ""]
      ensures lastPromptBeforeTyping == "" && promptRetryCount == 0 && charCorrection
    {
      wordList := [];
      bigrams := map[];
      trigrams := map[];
      typedHistory := {};
      usedWords := {};
      bestCurrentWord := "";
      regions := [Unset, Unset];
      lastHashes := [None, None];
      lastTokens := ["", ""];
      lastPromptBeforeTyping := "";
      promptRetryCount := 0;
      charCorrection := true;
    }

    /** build_ngram_index: both tables are rebuilt from scratch, word by word. */
    method BuildNgramIndex(words: seq<string>)
      modifies this`bigrams, this`trigrams
      ensures Indexes(bigrams, words, 2) && Indexes(trigrams, words, 3)
    {
      var bi: Table := map[];
      var tri: Table := map[];
      for k := 0 to |words|
        invariant Indexes(bi, words[..k], 2) && Indexes(tri, words[..k], 3)
      {
        var u := Upper(words[k]);
        forall g ensures Postings(words[..k + 1], 2, g) == Postings(words[..k], 2, g) + Entry(words[k], 2, g)
                    && Postings(words[..k + 1], 3, g) == Postings(words[..k], 3, g) + Entry(words[k], 3, g) {
          PostingsStep(words, k, 2, g);
          PostingsStep(words, k, 3, g);
        }
        if IsAlpha(u) {
          bi := AddGrams(bi, u, 2);
          tri := AddGrams(tri, u, 3);
        }
      }
      assert words[..|words|] == words;
      bigrams, trigrams := bi, tri;
    }

    /**
     * load_dictionary: a cancelled file dialog (None) changes nothing;
     * otherwise the list becomes the normalised file and is re-indexed.
     */
    method LoadDictionary(lines: Option<seq<string>>)
      requires Valid()
      modifies this`wordList, this`bigrams, this`trigrams
      ensures Valid()
      ensures lines.None? ==> wordList == old(wordList) && bigrams == old(bigrams) && trigrams == old(trigrams)
      ensures lines.Some? ==> wordList == NormalizeWordList(lines.value)
    {
      if lines.Some? {
        wordList := NormalizeWordList(lines.value);
        NormalizedDictionary(lines.value);
        BuildNgramIndex(wordList);
      }
    }

    /**
     * type_text without the keystrokes: an empty text does nothing;
     * otherwise the suggested word is remembered for the stuck-prompt
     * check, the retry counter restarts, and the upper-cased text and its
     * letters are recorded as used.
     */
    method TypeText(text: string)
      requires Valid()
      modifies this`typedHistory, this`usedWords, this`lastPromptBeforeTyping, this`promptRetryCount
      ensures Valid()
      ensures text == "" ==>
                typedHistory == old(typedHistory) && usedWords == old(usedWords) && RetryState() == old(RetryState())
      ensures text != "" ==>
                && typedHistory == old(typedHistory) + Chars(Upper(text))
                && usedWords == old(usedWords) + {Upper(text)}
                && RetryState() == Retry(bestCurrentWord, 0)
    {
      if text == "" {
        return;
      }
      lastPromptBeforeTyping := if bestCurrentWord != "" then bestCurrentWord else "";
      promptRetryCount := 0;
      typedHistory := typedHistory + Chars(Upper(text));
      usedWords := usedWords + {Upper(text)};
    }

    /** clear_used_words. */
    method ClearUsedWords()
      requires Valid()
      modifies this`usedWords
      ensures Valid() && usedWords == {}
    {
      usedWords := {};
    }

    /** The Clear Alphabet button. */
    method ClearAlphabet()
      requires Valid()
      modifies this`typedHistory
      ensures Valid() && typedHistory == {}
    {
      typedHistory := {};
    }

    /** toggle_char_correction. */
    method ToggleCharCorrection()
      requires Valid()
      modifies this`charCorrection
      ensures Valid() && charCorrection == !old(charCorrection)
    {
      charCorrection := !charCorrection;
    }

    /**
     * force_auto_correct: arms the stuck-prompt check for the current
     * suggestion; with no suggestion it only warns (armed is false).
     */
    method ForceAutoCorrect() returns (armed: bool)
      requires Valid()
      modifies this`lastPromptBeforeTyping, this`promptRetryCount
      ensures Valid()
      ensures armed <==> bestCurrentWord != ""
      ensures armed ==> RetryState() == Retry(bestCurrentWord, 0)
      ensures !armed ==> RetryState() == old(RetryState())
    {
      armed := bestCurrentWord != "";
      if armed {
        lastPromptBeforeTyping := bestCurrentWord;
        promptRetryCount := 0;
      }
    }

    /** The two clicks of on_select_region: the first and second point become the corners of region idx. */
    method SelectRegion(idx: nat, x1: int, y1: int, x2: int, y2: int)
      requires Valid() && idx < 2
      modifies this`regions
      ensures Valid()
      ensures regions == old(regions)[idx := Region(Some(x1), Some(y1), Some(x2), Some(y2))]
    {
      regions := regions[idx := Region(Some(x1), Some(y1), Some(x2), Some(y2))];
    }

    /** ocr_token(img, max_len=3) on a slot's image, under the current correction setting. */
    method Recognise(shot: Shot) returns (tok: string)
      ensures tok == Fusion.Fused(Fusion.Primary(charCorrection, 3), shot.outcomes)
      ensures IsToken(tok)
    {
      tok := Fusion.OcrToken(shot.outcomes, 3, charCorrection);
    }

    /**
     * One pass of the slot loop for slot i: no image gives ""; the cached
     * digest gives the cached token; otherwise the image is recognised and
     * the slot's cache entry is replaced. The other slot is untouched.
     */
    method ReadSlot(i: nat, shot: Shot) returns (tok: string)
      requires i < 2 && |regions| == 2 && |lastHashes| == 2 && |lastTokens| == 2
      modifies this`lastHashes, this`lastTokens
      ensures |lastHashes| == 2 && |lastTokens| == 2
      ensures var step := SlotStep(regions[i], shot, old(Slot(lastHashes[i], lastTokens[i])), charCorrection);
              tok == step.token && Slot(lastHashes[i], lastTokens[i]) == step.cache
      ensures lastHashes[1 - i] == old(lastHashes[1 - i]) && lastTokens[1 - i] == old(lastTokens[1 - i])
    {
      if RegionToRect(regions[i]).None? {
        tok := "";
      } else if lastHashes[i] == Some(shot.digest) {
        tok := lastTokens[i];
      } else {
        tok := Recognise(shot);
        lastHashes := lastHashes[i := Some(shot.digest)];
        lastTokens := lastTokens[i := tok];
      }
    }

    /** The slot loop of detect_token_from_regions: each slot in turn, by ReadSlot. */
    method ReadSlots(shots: seq<Shot>) returns (tokens: seq<string>)
      requires |shots| == 2 && |regions| == 2 && |lastHashes| == 2 && |lastTokens| == 2
      modifies this`lastHashes, this`lastTokens
      ensures |tokens| == 2 && |lastHashes| == 2 && |lastTokens| == 2
      ensures forall j :: 0 <= j < 2 ==>
                var step := SlotStep(regions[j], shots[j], Slot(old(lastHashes[j]), old(lastTokens[j])), charCorrection);
                tokens[j] == step.token && Slot(lastHashes[j], lastTokens[j]) == step.cache
    {
      ghost var hashes, cached := lastHashes, lastTokens;
      tokens := [];
      for i := 0 to 2
        invariant |lastHashes| == |lastTokens| == 2 && |tokens| == i
        invariant forall j :: 0 <= j < i ==>
                    var step := SlotStep(regions[j], shots[j], Slot(hashes[j], cached[j]), charCorrection);
                    tokens[j] == step.token && Slot(lastHashes[j], lastTokens[j]) == step.cache
        invariant forall j :: i <= j < 2 ==> lastHashes[j] == hashes[j] && lastTokens[j] == cached[j]
      {
        var tok := ReadSlot(i, shots[i]);
        tokens := tokens + [tok];
      }
    }

    /** detect_token_from_regions over this pass's shots of the two slots. */
    method DetectTokenFromRegions(shots: seq<Shot>) returns (token: string)
      requires Valid() && |shots| == 2
      modifies this`lastHashes, this`lastTokens
      ensures Valid()
      ensures Detected(token, SlotCaches()) == Detect(regions, shots, old(SlotCaches()), charCorrection)
    {
      if !IsSet(regions[0]) {
        return "";
      }
      ghost var before := SlotCaches();
      var tokens := ReadSlots(shots);
      forall j | 0 <= j < 2 ensures IsToken(lastTokens[j]) {
        SlotStepTokens(regions[j], shots[j], before[j], charCorrection);
      }
      DetectOfSteps(regions, shots, before, charCorrection, tokens, SlotCaches());
      token := ChooseToken(tokens);
    }

    /**
     * The retry branch of capture_and_match_once: when the detected token
     * is still the remembered prompt, count a retry and, if region A yields
     * an image, read it with the alternate configurations (altOutcomes); a
     * differing non-empty reading replaces the token and clears the state.
     */
    method CorrectStuckPrompt(detected: string, altOutcomes: seq<Fusion.Outcome>) returns (token: string)
      requires Valid()
      modifies this`lastPromptBeforeTyping, this`promptRetryCount
      ensures Valid()
      ensures var alt := if RegionToRect(regions[0]).Some? then Some(Fusion.Fused(Fusion.Alternate, altOutcomes)) else None;
              Step(token, RetryState()) == CorrectStuck(detected, old(RetryState()), alt)
    {
      ghost var before := RetryState();
      token := RetryBranch(detected, RegionToRect(regions[0]).Some?, altOutcomes);
      RetryBounded(detected, before, if RegionToRect(regions[0]).Some? then Some(Fusion.Fused(Fusion.Alternate, altOutcomes)) else None);
    }

    /** The retry branch itself; imageA says whether region A yields an image to re-read. */
    method RetryBranch(detected: string, imageA: bool, altOutcomes: seq<Fusion.Outcome>) returns (token: string)
      modifies this`lastPromptBeforeTyping, this`promptRetryCount
      ensures var alt := if imageA then Some(Fusion.Fused(Fusion.Alternate, altOutcomes)) else None;
              Step(token, RetryState()) == CorrectStuck(detected, old(RetryState()), alt)
    {
      token := detected;
      if lastPromptBeforeTyping != "" && token == lastPromptBeforeTyping && promptRetryCount < MaxPromptRetries {
        promptRetryCount := promptRetryCount + 1;
        if imageA {
          var alt := Fusion.TryAlternativeOcrConfigs(altOutcomes);
          if alt != "" && alt != token {
            token := alt;
            lastPromptBeforeTyping := "";
            promptRetryCount := 0;
          }
        }
      }
    }

    /**
     * capture_and_match_once, without the exception path: detect the
     * prompt; with none, clear the suggestion; otherwise run the
     * stuck-prompt correction (the alternate configurations read the new
     * image of region A, altOutcomes, when it yields one), then rank the
     * index hits of the token and suggest the head.
     */
    method CaptureAndMatchOnce(shots: seq<Shot>, altOutcomes: seq<Fusion.Outcome>, minLength: int)
      returns (token: string, matches: seq<string>)
      requires Valid() && |shots| == 2
      modifies this`lastHashes, this`lastTokens, this`bestCurrentWord, this`lastPromptBeforeTyping, this`promptRetryCount
      ensures Valid()
      ensures var d := Detect(regions, shots, old(SlotCaches()), charCorrection);
              && SlotCaches() == d.caches
              && (d.token == "" ==> token == "" && matches == [] && RetryState() == old(RetryState()))
              && (d.token != "" ==>
                    var alt := if RegionToRect(regions[0]).Some? then Some(Fusion.Fused(Fusion.Alternate, altOutcomes)) else None;
                    var step := CorrectStuck(d.token, old(RetryState()), alt);
                    && token == step.token && RetryState() == step.retry
                    && matches == RankMatches(Lookup(bigrams, trigrams, token), minLength, usedWords, typedHistory))
      ensures bestCurrentWord == BestWord(matches)
    {
      token := DetectTokenFromRegions(shots);
      if token == "" {
        bestCurrentWord := "";
        return "", [];
      }
      token := CorrectStuckPrompt(token, altOutcomes);
      matches := RankMatches(Lookup(bigrams, trigrams, token), minLength, usedWords, typedHistory);
      bestCurrentWord := BestWord(matches);
    }
  }
}
