/** Scoring of a finished quiz (index.tsx:210-219): `scoreMC`, a fold over
    the answers, and `totalMC`, a filter over the questions. */
module Scoring {
  import opened Wrappers
  import opened Domain
  import opened Answers

  /** `q.options && Array.isArray(q.options)`: an options array is present,
      an empty one included since `[]` is truthy. */
  predicate IsMultipleChoice(q: Question) {
    q.options.Some?
  }

  /** `answer === q.correctAnswerIndex`: only an option index equal to a
      present key matches; essay text and a missing key never do. */
  predicate Matches(v: AnswerValue, q: Question) {
    v.Choice? && q.correctAnswerIndex == Some(v.index)
  }

  /** What the reducer of `scoreMC` adds for answer `a`. */
  function Points(qs: seq<Question>, a: Answer): nat
    requires 0 <= a.questionIndex < |qs|
  {
    var q := qs[a.questionIndex];
    if IsMultipleChoice(q) && Matches(a.answer, q) then 1 else 0
  }

  /** `scoreMC`: the fold over the answers, left to right. Every answer must
      index a question; the source reads `questions[ans.questionIndex].options`,
      which throws for an index outside the list. */
  function ScoreMC(qs: seq<Question>, ans: seq<Answer>): (n: nat)
    requires InRange(ans, |qs|)
    ensures n <= |ans|
  {
    if ans == [] then 0
    else ScoreMC(qs, ans[..|ans| - 1]) + Points(qs, ans[|ans| - 1])
  }

  /** `questions.filter(isMultipleChoice)`, order preserved. */
  function MultipleChoiceOnly(qs: seq<Question>): (r: seq<Question>)
    ensures |r| <= |qs|
    ensures forall q :: q in r <==> q in qs && IsMultipleChoice(q)
  {
    if qs == [] then []
    else
      var last := qs[|qs| - 1];
      assert forall q :: q in qs <==> q in qs[..|qs| - 1] || q == last;
      MultipleChoiceOnly(qs[..|qs| - 1]) + (if IsMultipleChoice(last) then [last] else [])
  }

  /** `totalMC`. */
  function TotalMC(qs: seq<Question>): nat {
    |MultipleChoiceOnly(qs)|
  }

  /** Whether question `i` has a recorded answer that matches its key,
      looking the answer up by index as the review screens do. */
  predicate AnsweredCorrectly(qs: seq<Question>, ans: seq<Answer>, i: int)
    requires 0 <= i < |qs|
  {
    var found := FindAnswer(ans, i);
    found.Some? && Matches(found.value, qs[i])
  }

  /** The number of multiple-choice questions among the first `n`. */
  function MultipleChoiceUpTo(qs: seq<Question>, n: int): nat
    requires 0 <= n <= |qs|
  {
    if n == 0 then 0
    else MultipleChoiceUpTo(qs, n - 1) + (if IsMultipleChoice(qs[n - 1]) then 1 else 0)
  }

  /** The number of multiple-choice questions among the first `n` whose
      recorded answer matches: the question-side count. */
  function CorrectUpTo(qs: seq<Question>, ans: seq<Answer>, n: int): nat
    requires 0 <= n <= |qs|
  {
    if n == 0 then 0
    else
      CorrectUpTo(qs, ans, n - 1)
      + (if IsMultipleChoice(qs[n - 1]) && AnsweredCorrectly(qs, ans, n - 1) then 1 else 0)
  }

  /** `totalMC` counts exactly the multiple-choice questions. */
  lemma {:induction false} TotalIsMultipleChoiceCount(qs: seq<Question>, n: int)
    requires 0 <= n <= |qs|
    ensures TotalMC(qs[..n]) == MultipleChoiceUpTo(qs, n)
  {
    if n > 0 {
      assert qs[..n][..n - 1] == qs[..n - 1];
      TotalIsMultipleChoiceCount(qs, n - 1);
    }
  }

  /** Appending a question raises `totalMC` by one exactly when it is
      multiple-choice; an essay question leaves it unchanged. */
  lemma TotalAppend(qs: seq<Question>, q: Question)
    ensures TotalMC(qs + [q]) == TotalMC(qs) + (if IsMultipleChoice(q) then 1 else 0)
  {
    assert (qs + [q])[..|qs|] == qs;
  }

  lemma {:induction false} CorrectAtMostMultipleChoice(qs: seq<Question>, ans: seq<Answer>, n: int)
    requires 0 <= n <= |qs|
    ensures CorrectUpTo(qs, ans, n) <= MultipleChoiceUpTo(qs, n)
  {
    if n > 0 {
      CorrectAtMostMultipleChoice(qs, ans, n - 1);
    }
  }

  /** Adding answer `a` for a not yet answered index adds its points to the
      question-side count of every prefix that contains its question. */
  lemma {:induction false} CorrectUpToSnoc(qs: seq<Question>, ans: seq<Answer>, a: Answer, n: int)
    requires 0 <= n <= |qs| && 0 <= a.questionIndex < |qs|
    requires FindAnswer(ans, a.questionIndex).None?
    ensures CorrectUpTo(qs, ans + [a], n)
         == CorrectUpTo(qs, ans, n) + (if a.questionIndex < n then Points(qs, a) else 0)
  {
    if n > 0 {
      CorrectUpToSnoc(qs, ans, a, n - 1);
      FindAppend(ans, [a], n - 1);
    }
  }

  /** With no answers recorded, no question counts as correct. */
  lemma {:induction false} NothingAnsweredNothingCorrect(qs: seq<Question>, ans: seq<Answer>, n: int)
    requires 0 <= n <= |qs| && ans == []
    ensures CorrectUpTo(qs, ans, n) == 0
  {
    if n > 0 {
      NothingAnsweredNothingCorrect(qs, ans, n - 1);
    }
  }

  /** With at most one answer per index, the answer-side fold `scoreMC`
      equals the question-side count of correctly answered questions. */
  lemma {:induction false} ScoreIsQuestionSideCount(qs: seq<Question>, ans: seq<Answer>)
    requires WellFormed(ans, |qs|)
    ensures ScoreMC(qs, ans) == CorrectUpTo(qs, ans, |qs|)
  {
    if ans != [] {
      var init, a := ans[..|ans| - 1], ans[|ans| - 1];
      assert ans == init + [a];
      forall k ensures CountAt(init, k) <= 1 {
        CountAppend(init, [a], k);
      }
      CountAppend(init, [a], a.questionIndex);
      CountFind(init, a.questionIndex);
      ScoreIsQuestionSideCount(qs, init);
      CorrectUpToSnoc(qs, init, a, |qs|);
    } else {
      NothingAnsweredNothingCorrect(qs, ans, |qs|);
    }
  }

  /** `0 <= scoreMC <= totalMC` whenever no index is answered twice. */
  lemma ScoreBounded(qs: seq<Question>, ans: seq<Answer>)
    requires WellFormed(ans, |qs|)
    ensures 0 <= ScoreMC(qs, ans) <= TotalMC(qs)
  {
    ScoreIsQuestionSideCount(qs, ans);
    CorrectAtMostMultipleChoice(qs, ans, |qs|);
    TotalIsMultipleChoiceCount(qs, |qs|);
    assert qs[..|qs|] == qs;
  }

  lemma {:induction false} ScoreAppend(qs: seq<Question>, a: seq<Answer>, b: seq<Answer>)
    requires InRange(a, |qs|) && InRange(b, |qs|)
    ensures InRange(a + b, |qs|)
    ensures ScoreMC(qs, a + b) == ScoreMC(qs, a) + ScoreMC(qs, b)
  {
    if b != [] {
      var init := b[..|b| - 1];
      assert (a + b)[..|a + b| - 1] == a + init;
      ScoreAppend(qs, a, init);
    } else {
      assert a + b == a;
    }
  }

  /** Dropping the answers recorded for an essay question does not change `scoreMC`. */
  lemma {:induction false} ScoreWithoutEssay(qs: seq<Question>, ans: seq<Answer>, i: int)
    requires InRange(ans, |qs|) && 0 <= i < |qs| && !IsMultipleChoice(qs[i])
    ensures InRange(WithoutIndex(ans, i), |qs|)
    ensures ScoreMC(qs, WithoutIndex(ans, i)) == ScoreMC(qs, ans)
  {
    if ans != [] {
      var init, a := ans[..|ans| - 1], ans[|ans| - 1];
      assert ans == init + [a];
      WithoutAppend(init, [a], i);
      ScoreWithoutEssay(qs, init, i);
      ScoreAppend(qs, WithoutIndex(init, i), WithoutIndex([a], i));
    }
  }

  /** Whatever is submitted for an essay question, `scoreMC` does not change. */
  lemma EssayAnswerNeutral(qs: seq<Question>, ans: seq<Answer>, i: int, v: AnswerValue)
    requires InRange(ans, |qs|) && 0 <= i < |qs| && !IsMultipleChoice(qs[i])
    ensures ScoreMC(qs, MergeAnswer(ans, i, v)) == ScoreMC(qs, ans)
  {
    ScoreWithoutEssay(qs, ans, i);
    ScoreAppend(qs, WithoutIndex(ans, i), [Answer(i, v)]);
  }
}
