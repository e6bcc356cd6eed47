/**
 * The retrieval decision of app.py: given one similarity score per stored
 * answer, take the first index of the highest score (`np.argmax`) and use its
 * answer only when that score is strictly above the threshold. The scores
 * themselves (TF-IDF vectors and cosine similarity) are an input here.
 */
module Retrieval {

  /** The similarity the best match must strictly exceed. */
  const Threshold: real := 0.25

  /** `k` is the first index at which `scores` reaches its maximum. */
  predicate IsFirstMax(scores: seq<real>, k: int) {
    && 0 <= k < |scores|
    && (forall j :: 0 <= j < |scores| ==> scores[j] <= scores[k])
    && (forall j :: 0 <= j < k ==> scores[j] < scores[k])
  }

  /** `np.argmax` on a score vector. numpy raises on an empty vector, hence
      the precondition; callers below handle that case themselves. */
  function ArgMax(scores: seq<real>): (k: nat)
    requires scores != []
    ensures IsFirstMax(scores, k)
    decreases |scores|
  {
    if |scores| == 1 then 0
    else
      var k := ArgMax(scores[..|scores| - 1]);
      if scores[|scores| - 1] > scores[k] then |scores| - 1 else k
  }

  /** The first maximum is unique, so `ArgMax` is exactly the index that
      `IsFirstMax` describes. */
  lemma ArgMaxIsFirstMax(scores: seq<real>, k: int)
    requires scores != []
    ensures IsFirstMax(scores, k) <==> k == ArgMax(scores)
  {
  }

  /** The outcome of a lookup: numpy fails on no scores; otherwise the best
      index either clears the threshold (and its answer is taken) or not. */
  datatype Match = NoScores | Miss(best: nat) | Hit(best: nat, answer: string)

  /** Best match for a query, as the quick-question buttons and
      `send_message` compute it: the first maximum, used only when its score
      is strictly greater than the threshold. */
  function BestMatch(scores: seq<real>, answers: seq<string>): (m: Match)
    requires |scores| == |answers|
    ensures m.NoScores? <==> scores == []
    ensures m.Miss? ==> IsFirstMax(scores, m.best) && scores[m.best] <= Threshold
    ensures m.Hit? ==> IsFirstMax(scores, m.best) && scores[m.best] > Threshold && m.answer == answers[m.best]
    ensures m.Hit? <==> exists j :: 0 <= j < |scores| && scores[j] > Threshold
  {
    if scores == [] then NoScores
    else
      var k := ArgMax(scores);
      if scores[k] > Threshold then Hit(k, answers[k]) else Miss(k)
  }

  /** The context string `send_message` hands to the model: the matched
      answer on a hit, the empty string on a miss. */
  function ContextOf(m: Match): string {
    if m.Hit? then m.answer else ""
  }

  /** A best score of exactly the threshold is a miss: the comparison is
      strict. */
  lemma ThresholdIsStrict(scores: seq<real>, answers: seq<string>)
    requires |scores| == |answers|
    requires exists j :: 0 <= j < |scores| && scores[j] == Threshold
    requires forall j :: 0 <= j < |scores| ==> scores[j] <= Threshold
    ensures BestMatch(scores, answers).Miss?
    ensures ContextOf(BestMatch(scores, answers)) == ""
  {
  }

  /** Among equal best scores the earliest answer is the one used. */
  lemma EarliestTieWins(scores: seq<real>, answers: seq<string>, i: nat, j: nat)
    requires |scores| == |answers|
    requires i < j < |scores| && scores[i] == scores[j] > Threshold
    requires forall l :: 0 <= l < |scores| ==> scores[l] <= scores[i]
    ensures BestMatch(scores, answers).Hit? && BestMatch(scores, answers).best <= i
    ensures BestMatch(scores, answers).best != j
  {
  }
}
