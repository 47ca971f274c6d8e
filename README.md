# wordbomb-cheat suggestion engine, modelled in Dafny

wordbomb-cheat reads the two- or three-letter prompt of the Word Bomb game
off the screen and suggests a dictionary word that contains it. It also
types the word for you. This project models the logic between the
screenshot and the keystrokes, and proves what that logic guarantees.
Two versions of the program are modelled.

The current version (`WordBombOCR/wordbomb_ocr.py`) does the following:

- **Loading.** It loads a dictionary, normalised to sorted, distinct,
  upper-case alphabetic words. It then indexes every word under each of
  its 2-letter and 3-letter substrings.
- **Recognition.** It watches one or two screen regions. Each region is
  read by several recogniser configurations, and the readings are fused
  into one token of at most three capitals.
- **Caching.** A per-region cache keyed by the image digest skips
  recognition when the image has not changed.
- **Stuck prompts.** After a word has been typed, the prompt may still read
  the same. If so, the program retries with an alternate set of
  configurations, up to three times.
- **Ranking.** The index hits of the token that are long enough and not yet
  used are ranked by `score_word`, and the best one is suggested.

The older version (`wordbomb_ocr.py`) has one region and one recogniser
call. It keeps a plain word list and searches it linearly for the
recognised text. It uses a two-component score, and clears the typed-letter
history once it reaches 26 letters.

Modules:

- `Text`: Python's `upper`, `isalpha` and `strip`; the code-point order of
  strings; the `in` substring test.
- `Ngrams`: the content of the n-gram index (`Postings`), the loop that
  adds one word (`AddGrams`), and completeness, soundness, multiplicity and
  order of the lists.
- `Dictionary`: the word-list normalisation of both versions.
- `Ranking`: `score_word` of both versions, Python's tuple order, and the
  stable descending sort.
- `Geometry`: the screenshot box of a region.
- `Fusion`: `postprocess_letters`, `ocr_token`, `try_alternative_ocr_configs`.
- `Detection`: the per-slot cache and the choice of the prompt among the
  slot tokens.
- `Correction`: the stuck-prompt retry step.
- `Engine`: the current version's global state as one object, and its
  operations.
- `Legacy`: the older version's state and operations.
- `Scenario`: worked cases.

Scores in `ocr_token` are multiples of 0.5. They are doubled here to stay
integers: 20 per letter, bonuses 4/2/1, penalties 6 and 4, starting best -2.
Doubling changes no comparison. The alternate configurations keep their own
scale.

Behaviours of the code worth knowing:

- The remembered prompt is the suggested word, not the token
  (`last_prompt_before_typing = best_current_word`). Tokens have at most
  three letters, so the retry branch can only fire when the suggested word
  itself has two or three letters. `Correction.LongWordNeverRetried`
  states this.
- `LETTER_FREQ` is a `Counter` of a string that holds each letter once.
  Every letter therefore weighs 1, and the second score component is the
  number of distinct letters. There is no frequency ranking between letters.
- `OCR_MAP` is applied after the `A`–`Z` filter, so it never changes a
  letter.
- A dictionary file with no alphabetic line replaces the word list with an
  empty one. A cancelled file dialog keeps the previous dictionary, and so
  does a file that cannot be opened or decoded, because that raises before
  the word list is assigned.
- A cached slot token is reused even after character correction has been
  toggled. The cache is keyed by the image digest alone
  (`Detection.SecondPassHitsCache`).
- Matches of equal score are ranked alphabetically, and the suggestion is
  the alphabetically first of the best-scoring matches. The sort is stable,
  and every gram's list is alphabetical because the dictionary is sorted
  (`Engine.MatchTiesAlphabetical`; for `CA` over `CAR`, `CAT`, `DOG`, see
  `Scenario.CaRanking`).
- With the dashboard built, a pass that has matches ends with no
  suggestion. `render_suggestions` raises `NameError` when it draws the
  buttons, and the `except` branch then clears `best_current_word`. See
  `Engine.State.CaptureAndMatchOnce` under "## Left out".

The recogniser, the screenshot and the image digest are not modelled.
Instead, the operations take what they would have produced as parameters:

- each configuration's outcome (`Fusion.Outcome`: the raw text, or
  `Failed` for an exception);
- each region's image digest and outcomes on this pass (`Detection.Shot`);
- the lines of the chosen dictionary file (`None` for a cancelled dialog).

## Model

| member | source | states |
|---|---|---|
| Text.Strip | WordBombOCR/wordbomb_ocr.py:163 | the stripped text is the piece of the line left after removing exactly its leading and trailing whitespace: everything before and after it is whitespace, and it neither starts nor ends with whitespace |
| Text.ContainsMeansOccurs | wordbomb_ocr.py:70 | `p in w` holds exactly when p occurs in w at some position |
| Ngrams.AddGrams | WordBombOCR/wordbomb_ocr.py:149-155 | the append loop for one word grows every gram's list by the word once per occurrence of the gram, and never creates an empty list |
| Ngrams.Postings | WordBombOCR/wordbomb_ocr.py:143-155 | the definition of what the index holds under a gram (each input word, upper-cased, once per occurrence if alphabetic, in input order); its properties are the Postings lemmas below |
| Ngrams.PostingsComplete | WordBombOCR/wordbomb_ocr.py:143-155 | every n-gram of every alphabetic input word lists that word, upper-cased |
| Ngrams.PostingsSound | WordBombOCR/wordbomb_ocr.py:146-155 | every listed word is the upper-cased form of an alphabetic input word and contains the gram, which has length n |
| Ngrams.PostingsCount | WordBombOCR/wordbomb_ocr.py:150-155 | a word appears in a gram's list once per occurrence of the gram in it, for each input word yielding it |
| Ngrams.PostingsAppend | WordBombOCR/wordbomb_ocr.py:145-155 | lists follow input order: building from a ++ b lists a's entries before b's |
| Engine.State.BuildNgramIndex | WordBombOCR/wordbomb_ocr.py:143-155 | both tables are rebuilt from scratch: each is exactly the index of the given words, with nothing from earlier builds |
| Dictionary.NormalizedDictionary | WordBombOCR/wordbomb_ocr.py:163-166 | the word list is strictly sorted, upper-case alphabetic, and holds exactly the upper-cased stripped lines that are alphabetic |
| Dictionary.NormalizeWordList | WordBombOCR/wordbomb_ocr.py:163-164 | the definition of the current word list (sorted, distinct, upper-cased alphabetic stripped lines), characterised by NormalizedDictionary |
| Dictionary.StrictlySortedDistinct | WordBombOCR/wordbomb_ocr.py:164 | the sorted list holds each word once |
| Dictionary.LegacyWordListMembers | wordbomb_ocr.py:27 | the older list holds exactly the stripped, upper-cased non-blank lines |
| Dictionary.LegacyWordListLength | wordbomb_ocr.py:27 | the older list has one entry per non-blank line, so duplicates and non-letters are kept |
| Dictionary.LegacyWordListAppend | wordbomb_ocr.py:26-27 | the older list keeps file order |
| Dictionary.LegacyWordList | wordbomb_ocr.py:27 | the definition of the older list (stripped, upper-cased non-blank lines), characterised by the three LegacyWordList lemmas |
| Engine.State.LoadDictionary | WordBombOCR/wordbomb_ocr.py:157-166 | a cancelled dialog changes nothing; otherwise the list becomes the normalised file and both tables index it |
| Legacy.State.LoadDictionary | wordbomb_ocr.py:21-27 | a cancelled dialog changes nothing; otherwise the list becomes the stripped, upper-cased non-blank lines |
| Ranking.LetterFreqIsOne | WordBombOCR/wordbomb_ocr.py:53 | every capital letter weighs 1 and every other character 0 |
| Ranking.ScoreWord | WordBombOCR/wordbomb_ocr.py:192-198 | the definition of score_word (distinct letters not yet typed, LETTER_FREQ sum over distinct letters, minus the length), characterised by ScoreWordOfDictionaryWord |
| Ranking.FreqSumCountsDistinctLetters | WordBombOCR/wordbomb_ocr.py:192-198 | for a word of capitals, the frequency sum over its distinct letters is the number of distinct letters |
| Ranking.ScoreWordOfDictionaryWord | WordBombOCR/wordbomb_ocr.py:192-198 | score_word of a dictionary word is (distinct letters not yet typed, distinct letters, minus the length) |
| Ranking.LegacyScoreWord | wordbomb_ocr.py:45-48 | the older score is (distinct letters not yet used, distinct letters), and its first component never exceeds its second |
| Ranking.SortByScoreSpec | WordBombOCR/wordbomb_ocr.py:397 | the sort is a permutation, ordered by score descending, and keeps input order among equal scores |
| Ranking.RankMatchesSpec | WordBombOCR/wordbomb_ocr.py:393-402 | matches are exactly the hits that are long enough and unused, with their multiplicities, sorted stably by score descending; the suggestion scores at least as high as every match |
| Engine.LookupFindsContainingWords | WordBombOCR/wordbomb_ocr.py:393-394 | with the index of the dictionary, the hits of a token are exactly the dictionary words containing it, and there are none unless it has 2 or 3 letters |
| Engine.Lookup | WordBombOCR/wordbomb_ocr.py:394 | the definition of the index lookup by token length, characterised by LookupFindsContainingWords |
| Engine.PostingsOfDictionary | WordBombOCR/wordbomb_ocr.py:143-155 | over a dictionary of upper-case words, the list of an n-letter gram holds exactly the words containing it |
| Engine.PostingsAlphabetical | WordBombOCR/wordbomb_ocr.py:143-164 | over the sorted dictionary of upper-case words, every gram's list is in alphabetical order, a word repeated once per occurrence of the gram |
| Ranking.TiesAlphabetical | WordBombOCR/wordbomb_ocr.py:395-398 | over alphabetical hits, matches of equal score are ranked alphabetically, and the suggestion comes alphabetically first among the matches of its score |
| Engine.MatchTiesAlphabetical | WordBombOCR/wordbomb_ocr.py:395-398 | with the tables indexing the sorted dictionary, matches of equal score are in alphabetical order, and the suggestion is the alphabetically first match among those no match outscores |
| Engine.MatchesSpec | WordBombOCR/wordbomb_ocr.py:393-402 | matches are exactly the dictionary words containing the token that are long enough and unused, ordered by score; the suggestion is "" only when there is no match, and is a best-scoring match |
| Engine.SuggestionContainsPrompt | WordBombOCR/wordbomb_ocr.py:393-398 | a non-empty suggestion is a dictionary word containing the prompt, long enough and not yet used |
| Geometry.Normalize | wordbomb_ocr.py:53-55 | the box has non-negative width and height, and its corners are the two clicked points whichever order they came in |
| Geometry.RegionToRect | WordBombOCR/wordbomb_ocr.py:204-211 | no box when a coordinate is unset or the box is degenerate; otherwise a box of positive size spanned by the two points |
| Fusion.OcrMap | WordBombOCR/wordbomb_ocr.py:56-59 | the confusion map leaves every capital letter as it is |
| Fusion.Letters | WordBombOCR/wordbomb_ocr.py:276 | the kept letters are exactly the capitals of the raw text, each as often as it occurs, since the map after the filter changes none |
| Fusion.LettersAppend | WordBombOCR/wordbomb_ocr.py:276 | the kept letters follow the raw text's order: the letters of a + b are those of a followed by those of b |
| Fusion.LettersOfChar | WordBombOCR/wordbomb_ocr.py:276 | one character contributes itself when it is a capital and nothing otherwise |
| Fusion.LettersOfCapitals | WordBombOCR/wordbomb_ocr.py:276 | a text made of capitals is kept whole |
| Fusion.LettersEmpty | WordBombOCR/wordbomb_ocr.py:276-278 | no letters are kept exactly when the text holds no capital |
| Fusion.Corrected | WordBombOCR/wordbomb_ocr.py:248-260 | with correction off the letters are unchanged; with it on, the length is kept, every U becomes O (so no U remains), L becomes I only when alone, and other letters are kept |
| Fusion.PostprocessLetters | WordBombOCR/wordbomb_ocr.py:248-260 | the loop computes exactly the corrected letters |
| Fusion.Candidate | WordBombOCR/wordbomb_ocr.py:275-280 | a configuration gives no candidate exactly when it raised or its upper-cased text holds no capital; a candidate is at most the length cap, all capitals, U-free under correction, and non-empty |
| Fusion.Cut | WordBombOCR/wordbomb_ocr.py:279-280 | the corrected letters cut to the cap stay capitals, are at most the cap, hold no U under correction, and are non-empty for non-empty letters and a positive cap |
| Fusion.ScoreAboveFloor | WordBombOCR/wordbomb_ocr.py:271-288 | every candidate scores above the initial best score, so the first candidate always replaces it |
| Fusion.ScanFindsFirstBest | WordBombOCR/wordbomb_ocr.py:271-293 | the running best is "" with the initial score when no configuration gave letters; otherwise it is a best-scoring candidate, strictly better than every earlier one |
| Fusion.FusedIsFirstBest | WordBombOCR/wordbomb_ocr.py:271-293 | the fused token is "" without candidates, and otherwise the highest-scoring candidate, the earliest configuration winning ties |
| Fusion.Fused | WordBombOCR/wordbomb_ocr.py:271-293 | the definition of the fused token (the running best over the candidates in configuration order), characterised by FusedIsFirstBest and FusedShape |
| Fusion.Score | WordBombOCR/wordbomb_ocr.py:281-287 | the definition of a candidate's doubled score (base per letter, tier bonuses, lone-L and U penalties), bounded below by ScoreAboveFloor |
| Fusion.FusedShape | WordBombOCR/wordbomb_ocr.py:276-280 | the fused token is at most the length cap, all capitals, U-free under correction, and empty only when there is no candidate or the cap is 0 |
| Fusion.UPenaltyOnlyWithoutCorrection | WordBombOCR/wordbomb_ocr.py:284-287 | under correction only the lone-L penalty can apply; the U penalty needs correction off |
| Fusion.Evaluate | WordBombOCR/wordbomb_ocr.py:274-287 | the loop body yields the configuration's candidate and its score |
| Fusion.Fuse | WordBombOCR/wordbomb_ocr.py:271-293 | the loop over configurations returns the fused token |
| Fusion.OcrToken | WordBombOCR/wordbomb_ocr.py:262-293 | ocr_token returns the fused token of the primary configurations: at most max_len capitals, U-free under correction, "" only without candidates |
| Fusion.TryAlternativeOcrConfigs | WordBombOCR/wordbomb_ocr.py:222-246 | the alternate reading is the fused token of the alternate configurations: at most 3 capitals, "" only without candidates |
| Detection.SecondPassHitsCache | WordBombOCR/wordbomb_ocr.py:304-306 | right after a pass, the same image yields the same token from the cache without recognition, whatever the correction setting |
| Detection.ChangedImageIsRecognised | WordBombOCR/wordbomb_ocr.py:307-311 | a changed image is recognised, and its digest and token become the cache entry |
| Detection.CacheIsTransparent | WordBombOCR/wordbomb_ocr.py:300-311 | while digests determine the readings and the setting is unchanged, a slot yields what fresh recognition would, and the cache stays coherent |
| Detection.SlotStepTokens | WordBombOCR/wordbomb_ocr.py:300-311 | slot tokens and cached tokens have at most three capitals |
| Detection.SlotStep | WordBombOCR/wordbomb_ocr.py:300-311 | the definition of one slot's pass (no image, cache hit, or recognition that refreshes the cache), characterised by the three cache lemmas above |
| Detection.SortRankedSpec | WordBombOCR/wordbomb_ocr.py:319 | the ranked tokens are the non-empty ones, headed by the longest, alphabetically first among equals |
| Detection.ChooseTokenIsLongest | WordBombOCR/wordbomb_ocr.py:319-323 | the prompt is "" exactly when every slot is empty, and otherwise the longest slot token, alphabetically first among equals |
| Detection.ChooseToken | WordBombOCR/wordbomb_ocr.py:319-323 | the definition of the prompt choice among the slot tokens, characterised by ChooseTokenIsLongest |
| Detection.DetectSpec | WordBombOCR/wordbomb_ocr.py:295-323 | with region A unset the pass returns "" and leaves the caches; otherwise it returns the longest slot token, and the caches keep prompt tokens |
| Detection.Detect | WordBombOCR/wordbomb_ocr.py:295-323 | the definition of a whole detection pass, characterised by DetectSpec |
| Engine.State.ReadSlot | WordBombOCR/wordbomb_ocr.py:300-311 | one slot: no image gives "", a cached digest gives the cached token, and otherwise the fused reading becomes the slot's token and cache entry; the other slot is untouched |
| Engine.State.ReadSlots | WordBombOCR/wordbomb_ocr.py:300-311 | the slot loop leaves each slot's token and cache entry as one cache step from its old entry |
| Engine.State.Recognise | WordBombOCR/wordbomb_ocr.py:308 | recognising a slot's image yields the fused token of the primary configurations under the current correction setting, which is a prompt token: at most three capital letters |
| Engine.State.DetectTokenFromRegions | WordBombOCR/wordbomb_ocr.py:295-323 | the slot loop returns the prompt of the pass and leaves the caches as the pass defines |
| Correction.RetryBounded | WordBombOCR/wordbomb_ocr.py:382-383 | the retry counter never passes 3 |
| Correction.CorrectStuck | WordBombOCR/wordbomb_ocr.py:381-391 | the definition of one pass of the retry branch, characterised by the Correction lemmas below |
| Correction.CountIncreasesOnlyWhenStuck | WordBombOCR/wordbomb_ocr.py:382-383 | the counter rises only when the stored prompt is non-empty, equals the token, and is below 3, and then by one with the token kept |
| Correction.ReplacementResets | WordBombOCR/wordbomb_ocr.py:387-391 | the token changes only to a differing non-empty alternate, and that resets the stored prompt and the counter |
| Correction.CeilingIsFixed | WordBombOCR/wordbomb_ocr.py:382 | at the ceiling no retry happens and nothing changes |
| Correction.LongWordNeverRetried | WordBombOCR/wordbomb_ocr.py:382 | a stored word longer than three letters never triggers a retry |
| Correction.RepeatedSaturates | WordBombOCR/wordbomb_ocr.py:381-391 | a prompt that stays on screen is retried with counts 1, 2, 3, and then left alone |
| Engine.State.CorrectStuckPrompt | WordBombOCR/wordbomb_ocr.py:381-391 | the retry branch moves the token and the retry state exactly as the correction step says |
| Engine.State.RetryBranch | WordBombOCR/wordbomb_ocr.py:381-391 | the guarded retry, given whether region A yields an image, moves the token and retry state exactly as the correction step says |
| Engine.State.CaptureAndMatchOnce | WordBombOCR/wordbomb_ocr.py:372-402 | no prompt clears the suggestion; otherwise the corrected token's ranked hits become the matches, and their head the suggestion |
| Engine.State.constructor | WordBombOCR/wordbomb_ocr.py:89-108 | start-up state: no dictionary, regions unset, empty caches and history, correction on |
| Engine.State.TypeText | WordBombOCR/wordbomb_ocr.py:174-181 | an empty text changes nothing; otherwise its letters and the word are recorded as used, and the suggestion is remembered with the counter at 0 |
| Engine.State.ClearUsedWords | WordBombOCR/wordbomb_ocr.py:448-449 | only the used words are cleared |
| Engine.State.ClearAlphabet | WordBombOCR/wordbomb_ocr.py:617 | only the typed letters are cleared |
| Engine.State.ToggleCharCorrection | WordBombOCR/wordbomb_ocr.py:477-479 | the correction setting flips and nothing else changes |
| Engine.State.ForceAutoCorrect | WordBombOCR/wordbomb_ocr.py:483-491 | with a suggestion, it is remembered as the stuck prompt with the counter at 0; without one nothing changes |
| Engine.State.SelectRegion | WordBombOCR/wordbomb_ocr.py:503-508 | the two clicked points become the corners of the chosen region |
| Legacy.SubstringMatchesMembers | wordbomb_ocr.py:70 | a word is a match exactly when it is in the list, contains the text, is long enough and is unused |
| Legacy.SubstringMatches | wordbomb_ocr.py:70 | the definition of the linear filter, characterised by SubstringMatchesMembers |
| Legacy.LegacyMatches | wordbomb_ocr.py:70-72 | the definition of the sorted matches, characterised by LegacyMatchesSpec |
| Legacy.LegacyMatchesSpec | wordbomb_ocr.py:70-77 | matches are exactly those words, sorted stably by the older score descending, and the suggestion scores at least as high as every match |
| Legacy.TypedBelow26 | wordbomb_ocr.py:32-35 | the history stays below 26 entries; when not cleared it keeps its entries and gains the text's upper-cased letters |
| Legacy.Typed | wordbomb_ocr.py:32-35 | the definition of the history after type_text, characterised by TypedBelow26 |
| Legacy.State.constructor | wordbomb_ocr.py:13-19 | start-up state: empty list, history and used words, no suggestion |
| Legacy.State.TypeText | wordbomb_ocr.py:30-36 | the history becomes the cleared-at-26 union, and the upper-cased text is a used word |
| Legacy.State.CaptureAndMatch | wordbomb_ocr.py:50-80 | the box is the normalised region; an exception or empty text keeps the suggestion; otherwise the ranked matches' head becomes the suggestion |
| Legacy.State.ClearUsedWords | wordbomb_ocr.py:114-115 | only the used words are cleared |
| Legacy.State.ClearAlphabet | wordbomb_ocr.py:214 | only the typed letters are cleared |
| Scenario.CaPostings | WordBombOCR/wordbomb_ocr.py:150-152 | indexing CAR, CAT, DOG lists CAR and CAT under CA, and not DOG |
| Scenario.CaRanking | WordBombOCR/wordbomb_ocr.py:393-398 | with nothing typed, the prompt CA ranks CAR then CAT |
| Scenario.TiedPairKeepsOrder | WordBombOCR/wordbomb_ocr.py:397 | two eligible hits with equal scores keep their order in the ranking |
| Scenario.TypedWordIsExcluded | WordBombOCR/wordbomb_ocr.py:180-181 | once a word is typed, no later ranking lists it |

## Left out

- The recogniser calls and their configuration strings are not modelled:
  Tesseract, `TESS_CONFIG`, `resource_path`, and the `tesseract_status`
  subprocess. Each configuration's result is an input `Outcome`.
- The image pipeline is not modelled: screenshot, grayscale, resize,
  autocontrast, median filter and threshold. These are pixel operations in
  a foreign library. Only the box geometry is modelled.
- `img_hash` (blake2s) is an opaque `Digest`. Only equality matters, and
  collisions are not considered.
- Keystrokes (`pyautogui.write`, `press`) and the delay before typing are
  left out. Only the state update of `type_text` is modelled.
- Image saving to `ocr_images/` and `toggle_image_saving` are left out. They
  affect no modelled state.
- The widgets and labels are left out: the UI, `update_output`,
  `render_suggestions` and the top-K list, message boxes, and the
  mouse/keyboard listeners. The F8 hotkey is `TypeText(bestCurrentWord)`.
- The polling threads, `start_live_ocr`, `stop_live_ocr`, sleeps and the
  races between threads are left out. Each operation is one sequential step.
- Reading the dictionary file is left out. The operation takes its lines,
  or `None` when the dialog is cancelled. An unreadable file raises before
  any state changes, so it is not modelled separately.
- Engine.State.CaptureAndMatchOnce: models the pass without the
  dashboard. In the program as written, `render_suggestions`
  (WordBombOCR/wordbomb_ocr.py:338-355) reads `FONT_FAMILY`, which is
  assigned only as a local of `build_ui` (lines 539-545, not among its
  `global` names at 527-528). So once the dashboard exists, drawing a top
  list that differs from the one last shown raises `NameError`. Line 344
  has already stored that list. The `except` branch (lines 403-405) then
  sets `best_current_word` to "" and re-renders an empty list, which
  resets `last_ui_list`. The error therefore recurs on every pass with
  matches, and the suggestion ends up "". The contract states what the pass
  computes before the widgets are drawn, where the suggestion is the head
  of the ranking.
- Geometry.Normalize: click coordinates are taken as integers. The `int()`
  truncation of fractional coordinates (wordbomb_ocr.py:54-55) is not
  modelled, so a box narrower than one pixel, which the program truncates
  to width 0, is not distinguished.
- Geometry.RegionToRect: click coordinates are taken as integers. The
  `int()` truncation of fractional coordinates
  (WordBombOCR/wordbomb_ocr.py:208-209) is not modelled: the program finds
  no box when the truncated width or height is 0, and the model only when
  the two coordinates are equal.
- The rest of the exception branch of `capture_and_match_once` is left
  out. The recogniser's own exceptions are handled inside fusion. A
  failing screenshot is not modelled.
- Unicode is left out. `upper`, `isalpha` and `strip` are modelled on ASCII
  (plus the characters Python counts as whitespace among ASCII and
  Latin-1). Case mappings that turn a
  non-ASCII character into capitals (such as `ß`) are not modelled.
- The parse of the minimum-length entry (`max(1, int(...))`) is left out.
  The minimum length is an integer parameter.
- In the older version, a failing screenshot or a degenerate box is folded
  into the `Failed` outcome. Both leave the suggestion unchanged, as the
  source's `except` branch does.
