/** The accuracy count on the test split: predictions and true labels are
    zipped, the pairs that agree are kept and counted. */
module Evaluation {

  function Min(a: nat, b: nat): nat
  {
    if a <= b then a else b
  }

  /** The number of positions, walking both sequences together and stopping
      at the end of the shorter one, where the prediction equals the truth. */
  function CountCorrect(pred: seq<nat>, truth: seq<nat>): (c: nat)
    ensures c <= |pred| && c <= |truth|
  {
    if pred == [] || truth == [] then 0
    else (if pred[0] == truth[0] then 1 else 0) + CountCorrect(pred[1..], truth[1..])
  }

  /** Reference count: the number of indices below `n` at which the two
      sequences agree, counted from the last index down. */
  function MatchesBelow(pred: seq<nat>, truth: seq<nat>, n: nat): nat
    requires n <= |pred| && n <= |truth|
  {
    if n == 0 then 0
    else MatchesBelow(pred, truth, n - 1) + if pred[n - 1] == truth[n - 1] then 1 else 0
  }

  /** The reference count of the first `n` indices splits off index 0. */
  lemma {:induction false} MatchesBelowFront(pred: seq<nat>, truth: seq<nat>, n: nat)
    requires 1 <= n <= |pred| && n <= |truth|
    ensures MatchesBelow(pred, truth, n)
         == (if pred[0] == truth[0] then 1 else 0) + MatchesBelow(pred[1..], truth[1..], n - 1)
    decreases n
  {
    if n > 1 {
      MatchesBelowFront(pred, truth, n - 1);
    }
  }

  /** The zip-and-count equals the number of agreeing indices below the
      shorter length. */
  lemma {:induction false} CountIsMatches(pred: seq<nat>, truth: seq<nat>)
    ensures CountCorrect(pred, truth) == MatchesBelow(pred, truth, Min(|pred|, |truth|))
    decreases |pred|
  {
    if pred != [] && truth != [] {
      CountIsMatches(pred[1..], truth[1..]);
      MatchesBelowFront(pred, truth, Min(|pred|, |truth|));
    }
  }

  /** On sequences of equal length every position is correct exactly when
      the predictions are the truth. */
  lemma {:induction false} AllCorrectIff(pred: seq<nat>, truth: seq<nat>)
    requires |pred| == |truth|
    ensures CountCorrect(pred, truth) == |truth| <==> pred == truth
    decreases |pred|
  {
    if pred != [] {
      AllCorrectIff(pred[1..], truth[1..]);
      if pred[0] == truth[0] && pred[1..] == truth[1..] {
        assert pred == [pred[0]] + pred[1..] && truth == [truth[0]] + truth[1..];
      }
    }
  }

  /** No position is correct exactly when the sequences disagree at every
      index the zip reaches. */
  lemma {:induction false} NoneCorrectIff(pred: seq<nat>, truth: seq<nat>)
    ensures CountCorrect(pred, truth) == 0
        <==> forall k :: 0 <= k < Min(|pred|, |truth|) ==> pred[k] != truth[k]
    decreases |pred|
  {
    if pred != [] && truth != [] {
      NoneCorrectIff(pred[1..], truth[1..]);
      assert forall k :: 1 <= k < Min(|pred|, |truth|) ==> pred[k] == pred[1..][k - 1] && truth[k] == truth[1..][k - 1];
    }
  }

  /** Test accuracy kept as the pair `correct / total`; `total` is the size
      of the test split. */
  datatype Accuracy = Accuracy(correct: nat, total: nat)

  function TestAccuracy(pred: seq<nat>, truth: seq<nat>): (a: Accuracy)
    ensures a.correct <= a.total == |truth|
  {
    Accuracy(CountCorrect(pred, truth), |truth|)
  }
}
