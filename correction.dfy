/**
 * The stuck-prompt heuristic of capture_and_match_once. After a word is
 * typed, the suggested word is remembered; when a later detection returns
 * exactly that text, the detection is retried with the alternate
 * recogniser configurations, at most MaxPromptRetries times in a row.
 */
module Correction {
  import opened Wrappers

  const MaxPromptRetries: nat := 3

  /** last_prompt_before_typing and prompt_retry_count. */
  datatype Retry = Retry(lastPrompt: string, count: nat)

  /** The prompt being corrected: the token after the step and the new retry state. */
  datatype Step = Step(token: string, retry: Retry)

  /** The guard of the retry branch. */
  predicate Stuck(token: string, r: Retry) {
    r.lastPrompt != "" && token == r.lastPrompt && r.count < MaxPromptRetries
  }

  /**
   * One pass of the retry branch. alt is None when region A yields no
   * image (so no alternate reading is made), otherwise the alternate
   * reading. A non-empty alternate that differs from the token replaces
   * it and clears the retry state; otherwise only the counter moves.
   */
  function CorrectStuck(token: string, r: Retry, alt: Option<string>): Step {
    if !Stuck(token, r) then Step(token, r)
    else if alt.Some? && alt.value != "" && alt.value != token then Step(alt.value, Retry("", 0))
    else Step(token, Retry(r.lastPrompt, r.count + 1))
  }

  /** The counter never passes MaxPromptRetries. */
  lemma RetryBounded(token: string, r: Retry, alt: Option<string>)
    requires r.count <= MaxPromptRetries
    ensures CorrectStuck(token, r, alt).retry.count <= MaxPromptRetries
  {
  }

  /**
   * The counter increases only through the retry branch: the stored
   * prompt is non-empty, the token equals it, the count is below the
   * ceiling; and then by exactly one, with the token kept.
   */
  lemma CountIncreasesOnlyWhenStuck(token: string, r: Retry, alt: Option<string>)
    ensures CorrectStuck(token, r, alt).retry.count > r.count <==>
            Stuck(token, r) && !(alt.Some? && alt.value != "" && alt.value != token)
    ensures CorrectStuck(token, r, alt).retry.count > r.count ==>
            CorrectStuck(token, r, alt) == Step(token, Retry(r.lastPrompt, r.count + 1))
  {
  }

  /** A differing non-empty alternate replaces the token and resets both fields; nothing else changes the token. */
  lemma ReplacementResets(token: string, r: Retry, alt: Option<string>)
    ensures CorrectStuck(token, r, alt).token != token <==>
            Stuck(token, r) && alt.Some? && alt.value != "" && alt.value != token
    ensures CorrectStuck(token, r, alt).token != token ==>
            CorrectStuck(token, r, alt) == Step(alt.value, Retry("", 0))
  {
  }

  /** At the ceiling the branch is skipped: token and state are left as they are. */
  lemma CeilingIsFixed(token: string, r: Retry, alt: Option<string>)
    requires r.count >= MaxPromptRetries
    ensures CorrectStuck(token, r, alt) == Step(token, r)
  {
  }

  /**
   * The stored prompt is the typed word (type_text and force_auto_correct
   * store best_current_word), while tokens have at most three letters: a
   * longer word can never equal the token, so the retry branch never runs
   * for it.
   */
  lemma LongWordNeverRetried(token: string, r: Retry, alt: Option<string>)
    requires |token| <= 3 < |r.lastPrompt|
    ensures CorrectStuck(token, r, alt) == Step(token, r)
  {
  }

  /** k detections of the same token in a row, none of which the alternate reading replaces. */
  function Repeated(token: string, r: Retry, k: nat): Retry {
    if k == 0 then r else CorrectStuck(token, Repeated(token, r, k - 1), None).retry
  }

  /**
   * A prompt that stays on screen is retried on the next detections with
   * counts 1, 2, 3 and then left alone: after k detections the count is
   * min(k, 3) and the stored prompt is kept.
   */
  lemma {:induction false} RepeatedSaturates(token: string, k: nat)
    requires token != ""
    ensures Repeated(token, Retry(token, 0), k) ==
            Retry(token, if k <= MaxPromptRetries then k else MaxPromptRetries)
  {
    if k > 0 {
      RepeatedSaturates(token, k - 1);
    }
  }
}
