/** What the rooms of both server prototypes know about a trivia question,
    and how an answer is judged against it. */
module Trivia {
  import opened Text

  /** One item of the question batch: the text shown to players and the
      correct answer ("True" or "False" as the question source spells it). */
  datatype Question = Question(text: string, correctAnswer: string)

  /** `answer.lower() == correct_answer.lower()`: the comparison both servers
      use to decide whether an answer scores. */
  predicate AnswerMatches(answer: string, q: Question)
  {
    Lower(answer) == Lower(q.correctAnswer)
  }

  /** The comparison ignores case: answers that lower to the same text are
      judged alike. */
  lemma AnswerMatchesCaseBlind(a: string, b: string, q: Question)
    requires Lower(a) == Lower(b)
    ensures AnswerMatches(a, q) == AnswerMatches(b, q)
  {
  }

  /** Lower-casing an answer before it is sent does not change how it is
      judged. */
  lemma AnswerMatchesLowered(answer: string, q: Question)
    ensures AnswerMatches(Lower(answer), q) == AnswerMatches(answer, q)
  {
    LowerIdempotent(answer);
  }

  /** The correct answer, however it is spelled, matches itself. */
  lemma CorrectAnswerMatches(q: Question)
    ensures AnswerMatches(q.correctAnswer, q)
  {
  }

  /** How many of `scores` have reached `threshold`: the length of the
      `winners` list both servers build at the end of a round. */
  function CountAtLeast(scores: seq<nat>, threshold: nat): (n: nat)
    ensures n <= |scores|
    ensures n == 0 <==> forall k :: 0 <= k < |scores| ==> scores[k] < threshold
  {
    if scores == [] then 0
    else (if scores[0] >= threshold then 1 else 0) + CountAtLeast(scores[1..], threshold)
  }

  /** At least two entries have reached the threshold exactly when two
      different positions hold such scores: the `len(winners) > 1` case. */
  lemma {:induction false} CountAtLeastTwo(scores: seq<nat>, threshold: nat)
    ensures CountAtLeast(scores, threshold) >= 2 <==>
      exists i, j :: 0 <= i < j < |scores| && scores[i] >= threshold && scores[j] >= threshold
  {
    if scores != [] {
      var rest := scores[1..];
      CountAtLeastTwo(rest, threshold);
      if CountAtLeast(scores, threshold) >= 2 {
        if CountAtLeast(rest, threshold) >= 2 {
          var i, j :| 0 <= i < j < |rest| && rest[i] >= threshold && rest[j] >= threshold;
          assert scores[i + 1] == rest[i] && scores[j + 1] == rest[j];
        } else {
          var k :| 0 <= k < |rest| && rest[k] >= threshold;
          assert scores[k + 1] == rest[k];
        }
      }
      if exists i, j :: 0 <= i < j < |scores| && scores[i] >= threshold && scores[j] >= threshold {
        var i, j :| 0 <= i < j < |scores| && scores[i] >= threshold && scores[j] >= threshold;
        if i == 0 {
          assert rest[j - 1] >= threshold;
        } else {
          assert rest[i - 1] >= threshold && rest[j - 1] >= threshold;
        }
      }
    }
  }

  /** Exactly one entry has reached the threshold exactly when one position
      holds such a score and no other does: the `len(winners) == 1` case. */
  lemma CountAtLeastOne(scores: seq<nat>, threshold: nat)
    ensures CountAtLeast(scores, threshold) == 1 <==>
      exists k :: 0 <= k < |scores| && scores[k] >= threshold
        && forall j :: 0 <= j < |scores| && scores[j] >= threshold ==> j == k
  {
    CountAtLeastTwo(scores, threshold);
    if CountAtLeast(scores, threshold) == 1 {
      var k :| 0 <= k < |scores| && scores[k] >= threshold;
      assert forall j :: 0 <= j < |scores| && scores[j] >= threshold ==> j == k;
    }
  }
}
