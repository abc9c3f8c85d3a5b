/** Grading a quiz submission (`submitQuuzAnswer`): the answers are aligned with the
    questions by position, a question counts when its answer equals `correctAnswer`, and
    one result is built per question. */
module Grading {
  import opened Wrappers
  import opened Models

  /** One entry of the `results` array. `userAnswer` and `correctAnswer` are option texts,
      None where the source reads an `options` position that does not exist (undefined). */
  datatype QuestionResult = QuestionResult(
    questionText: string,
    userAnswer: Option<string>,
    correctAnswer: Option<string>,
    explanation: string,
    isCorrect: bool)

  /** The response: `percentage` is the exact ratio, None where the source computes 0/0
      (a quiz without questions, whose percentage is "NaN"). */
  datatype Grade = Grade(score: nat, totalQuestions: nat, percentage: Option<real>, results: seq<QuestionResult>)

  /** `answers[index]`: undefined past the end of the submitted list. */
  function AnswerAt(answers: seq<int>, i: nat): (a: Option<int>)
    ensures a.Some? <==> i < |answers|
    ensures a.Some? ==> a.value == answers[i]
  {
    if i < |answers| then Some(answers[i]) else None
  }

  /** `options[k]`: undefined unless `k` is a position of `options`. */
  function OptionText(options: seq<string>, k: Option<int>): (r: Option<string>)
    ensures r.Some? <==> k.Some? && 0 <= k.value < |options|
    ensures r.Some? ==> r.value == options[k.value]
  {
    if k.Some? && 0 <= k.value < |options| then Some(options[k.value]) else None
  }

  /** `answers[index] === question.correctAnswer`: a missing answer is never correct. */
  predicate IsCorrect(q: Question, a: Option<int>)
  {
    a == Some(q.correctAnswer)
  }

  /** The result entry for question `q` answered with `a`. */
  function Outcome(q: Question, a: Option<int>): QuestionResult
  {
    QuestionResult(q.text, OptionText(q.options, a), OptionText(q.options, Some(q.correctAnswer)), q.explanation, IsCorrect(q, a))
  }

  /** The number of positions below `n` whose answer is correct. */
  function CorrectUpTo(qs: seq<Question>, answers: seq<int>, n: nat): (r: nat)
    requires n <= |qs|
    ensures r <= n && r <= |answers|
  {
    if n == 0 then 0
    else CorrectUpTo(qs, answers, n - 1) + (if IsCorrect(qs[n - 1], AnswerAt(answers, n - 1)) then 1 else 0)
  }

  function Score(qs: seq<Question>, answers: seq<int>): nat
  {
    CorrectUpTo(qs, answers, |qs|)
  }

  /** The positions whose answer is correct. */
  ghost function CorrectPositions(qs: seq<Question>, answers: seq<int>, n: nat): set<nat>
    requires n <= |qs|
  {
    set i: nat | i < n && IsCorrect(qs[i], AnswerAt(answers, i))
  }

  function Results(qs: seq<Question>, answers: seq<int>): (rs: seq<QuestionResult>)
    ensures |rs| == |qs|
  {
    seq(|qs|, i requires 0 <= i < |qs| => Outcome(qs[i], AnswerAt(answers, i)))
  }

  /** The bounds of a ratio `part / whole` of reals with `0 <= part <= whole` and `whole >= 1`,
      stated through the product so that no division is involved. */
  lemma RatioBounds(part: real, whole: real, ratio: real)
    requires 1.0 <= whole && 0.0 <= part <= whole && ratio * whole == part
    ensures 0.0 <= ratio <= 1.0
    ensures ratio == 0.0 <==> part == 0.0
    ensures ratio == 1.0 <==> part == whole
  {
    assert (1.0 - ratio) * whole == whole - part;
  }

  /** `percentage` as an exact ratio, for a nonzero total. */
  function Percent(part: nat, whole: nat): (r: real)
    requires 0 < whole && part <= whole
    ensures 0.0 <= r <= 100.0
    ensures r == 0.0 <==> part == 0
    ensures r == 100.0 <==> part == whole
  {
    var ratio := part as real / whole as real;
    RatioBounds(part as real, whole as real, ratio);
    ratio * 100.0
  }

  /** The full response for a quiz with questions `qs`. */
  function Graded(qs: seq<Question>, answers: seq<int>): Grade
  {
    var score := Score(qs, answers);
    Grade(score, |qs|, if |qs| == 0 then None else Some(Percent(score, |qs|)), Results(qs, answers))
  }

  /** The grading loop: walks the questions in order, counting matches and pushing one
      result per question. */
  method GradeAnswers(questions: seq<Question>, answers: seq<int>) returns (g: Grade)
    ensures g == Graded(questions, answers)
    ensures g.totalQuestions == |questions| && |g.results| == |questions|
    ensures g.score <= g.totalQuestions
    ensures forall i :: 0 <= i < |questions| ==> g.results[i] == Outcome(questions[i], AnswerAt(answers, i))
  {
    var score: nat := 0;
    var results: seq<QuestionResult> := [];
    var i := 0;
    while i < |questions|
      invariant 0 <= i <= |questions|
      invariant |results| == i
      invariant forall k :: 0 <= k < i ==> results[k] == Outcome(questions[k], AnswerAt(answers, k))
      invariant score == CorrectUpTo(questions, answers, i)
    {
      var question := questions[i];
      var answer := AnswerAt(answers, i);
      var isCorrect := answer == Some(question.correctAnswer);
      if isCorrect {
        score := score + 1;
      }
      results := results + [QuestionResult(
        question.text,
        OptionText(question.options, answer),
        OptionText(question.options, Some(question.correctAnswer)),
        question.explanation,
        isCorrect)];
      i := i + 1;
    }
    assert results == Results(questions, answers);
    var percentage := if |questions| == 0 then None else Some(Percent(score, |questions|));
    g := Grade(score, |questions|, percentage, results);
  }

  /** The number of results flagged correct. */
  function Flagged(rs: seq<QuestionResult>): nat
  {
    if rs == [] then 0
    else Flagged(rs[..|rs| - 1]) + (if rs[|rs| - 1].isCorrect then 1 else 0)
  }

  lemma {:induction false} FlaggedPrefix(qs: seq<Question>, answers: seq<int>, n: nat)
    requires n <= |qs|
    ensures Flagged(Results(qs, answers)[..n]) == CorrectUpTo(qs, answers, n)
  {
    if n > 0 {
      FlaggedPrefix(qs, answers, n - 1);
      assert Results(qs, answers)[..n][..n - 1] == Results(qs, answers)[..n - 1];
    }
  }

  /** The score is the number of results flagged correct. */
  lemma ScoreIsFlagCount(qs: seq<Question>, answers: seq<int>)
    ensures Score(qs, answers) == Flagged(Results(qs, answers))
  {
    FlaggedPrefix(qs, answers, |qs|);
    assert Results(qs, answers)[..|qs|] == Results(qs, answers);
  }

  lemma {:induction false} CountedPositions(qs: seq<Question>, answers: seq<int>, n: nat)
    requires n <= |qs|
    ensures |CorrectPositions(qs, answers, n)| == CorrectUpTo(qs, answers, n)
  {
    if n == 0 {
      assert CorrectPositions(qs, answers, 0) == {};
    } else {
      CountedPositions(qs, answers, n - 1);
      var before := CorrectPositions(qs, answers, n - 1);
      if IsCorrect(qs[n - 1], AnswerAt(answers, n - 1)) {
        assert CorrectPositions(qs, answers, n) == before + {n - 1};
      } else {
        assert CorrectPositions(qs, answers, n) == before;
      }
    }
  }

  /** The score is the number of positions i < |questions| with
      `answers[i] == questions[i].correctAnswer`; it is at most the number of questions
      and at most the number of answers given. */
  lemma ScoreCountsMatches(qs: seq<Question>, answers: seq<int>)
    ensures Score(qs, answers) == |set i: nat | i < |qs| && i < |answers| && answers[i] == qs[i].correctAnswer|
    ensures Score(qs, answers) <= |qs| && Score(qs, answers) <= |answers|
  {
    CountedPositions(qs, answers, |qs|);
    assert CorrectPositions(qs, answers, |qs|) == set i: nat | i < |qs| && i < |answers| && answers[i] == qs[i].correctAnswer;
  }

  lemma {:induction false} AllCorrectUpTo(qs: seq<Question>, answers: seq<int>, n: nat)
    requires n <= |qs|
    ensures CorrectUpTo(qs, answers, n) == n <==> forall i :: 0 <= i < n ==> IsCorrect(qs[i], AnswerAt(answers, i))
  {
    if n > 0 {
      AllCorrectUpTo(qs, answers, n - 1);
    }
  }

  /** Full marks exactly when every question has a matching answer, and then at least
      as many answers as questions were submitted. */
  lemma FullMarks(qs: seq<Question>, answers: seq<int>)
    ensures Score(qs, answers) == |qs| <==>
      forall i :: 0 <= i < |qs| ==> i < |answers| && answers[i] == qs[i].correctAnswer
  {
    AllCorrectUpTo(qs, answers, |qs|);
  }

  /** Answers beyond the last question are ignored: the response is that of the list cut
      to the number of questions. */
  lemma ExtraAnswersIgnored(qs: seq<Question>, answers: seq<int>)
    requires |answers| >= |qs|
    ensures Graded(qs, answers) == Graded(qs, answers[..|qs|])
  {
    var cut := answers[..|qs|];
    assert Results(qs, answers) == Results(qs, cut) by {
      forall i | 0 <= i < |qs| ensures AnswerAt(answers, i) == AnswerAt(cut, i) { }
    }
    ScoreIsFlagCount(qs, answers);
    ScoreIsFlagCount(qs, cut);
  }

  /** Positions past the end of the answers add nothing to the count. */
  lemma {:induction false} UnansweredAddNothing(qs: seq<Question>, answers: seq<int>, n: nat)
    requires |answers| <= n <= |qs|
    ensures CorrectUpTo(qs, answers, n) == CorrectUpTo(qs, answers, |answers|)
  {
    if n > |answers| {
      UnansweredAddNothing(qs, answers, n - 1);
    }
  }

  /** A list shorter than the questions grades every missing position as incorrect, with
      no answer text, and the score only counts the answered prefix. */
  lemma MissingAnswersIncorrect(qs: seq<Question>, answers: seq<int>)
    requires |answers| < |qs|
    ensures forall i :: |answers| <= i < |qs| ==> !Results(qs, answers)[i].isCorrect && Results(qs, answers)[i].userAnswer.None?
    ensures Score(qs, answers) == CorrectUpTo(qs, answers, |answers|)
  {
    UnansweredAddNothing(qs, answers, |qs|);
  }
}
