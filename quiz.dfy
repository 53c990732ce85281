/** The quiz session of the exam application as a value and its transitions:
    `startTest` (index.tsx:196-201), `handleAnswer` (index.tsx:234-239),
    `handleNextQuestion` (index.tsx:203-231), the countdown of the timer effect
    (index.tsx:83-94) and what the quiz screen shows (index.tsx:544-594).
    The component's state fields are updated to these values by the methods
    of `TpaApp.App`. */
module Quiz {
  import opened Wrappers
  import opened Domain
  import opened Answers
  import opened Scoring

  /** The countdown allowance of each question, in ticks of the interval. */
  const QuestionSeconds := 30

  /** The component state a quiz session reads and writes. */
  datatype Session = Session(
    questions: seq<Question>,
    index: int,
    answers: seq<Answer>,
    timer: int,
    results: seq<TestResult>,
    screen: Screen)

  /** The state the quiz keeps while it is on screen: a countdown in 1..30, the
      cursor on a question (or 0 over an empty list), and answers that belong
      to the questions, at most one per index. */
  ghost predicate Valid(s: Session) {
    s.screen == QuizSection ==>
      0 < s.timer <= QuestionSeconds &&
      (0 <= s.index < |s.questions| || (s.questions == [] && s.index == 0)) &&
      WellFormed(s.answers, |s.questions|)
  }

  /** `startTest`. */
  function Start(s: Session): Session {
    s.(answers := [], index := 0, timer := QuestionSeconds, screen := QuizSection)
  }

  /** `handleAnswer(v)`: the answer for the current index is replaced by `v`. */
  function RecordAnswer(s: Session, v: AnswerValue): Session {
    s.(answers := MergeAnswer(s.answers, s.index, v))
  }

  /** The result recorded when the test finishes. */
  function NewResult(s: Session, username: string, date: string): (r: TestResult)
    requires InRange(s.answers, |s.questions|)
    ensures r.answers == s.answers && r.questions == s.questions
    ensures r.username == username && r.date == date
    ensures 0 <= r.scoreMC && 0 <= r.totalMC <= |s.questions|
  {
    TestResult(username, date, ScoreMC(s.questions, s.answers), TotalMC(s.questions), s.answers, s.questions)
  }

  /** `handleNextQuestion`: the next question with a fresh countdown, or, after
      the last one, the result appended and the result screen. Scoring reads
      `questions[ans.questionIndex]` for every answer, so every answer must
      belong to a question. */
  function Next(s: Session, username: string, date: string): Session
    requires InRange(s.answers, |s.questions|)
  {
    if s.index + 1 < |s.questions| then s.(index := s.index + 1, timer := QuestionSeconds)
    else s.(results := s.results + [NewResult(s, username, date)], screen := StudentResults)
  }

  /** One pulse of the interval together with the effect run it causes: in the
      quiz a countdown above one goes down by one; a countdown reaching zero (or
      already there) runs `handleNextQuestion` at once. Outside the quiz no
      interval is set and nothing happens. */
  function Tick(s: Session, username: string, date: string): Session
    requires s.screen == QuizSection ==> InRange(s.answers, |s.questions|)
  {
    if s.screen != QuizSection then s
    else if s.timer > 1 then s.(timer := s.timer - 1)
    else if s.timer == 1 then Next(s.(timer := 0), username, date)
    else Next(s, username, date)
  }

  /** `k` pulses in a row. */
  function TickN(s: Session, k: nat, username: string, date: string): Session
    requires Valid(s)
    ensures Valid(TickN(s, k, username, date))
    decreases k
  {
    if k == 0 then s
    else
      TickPreservesValid(s, username, date);
      TickN(Tick(s, username, date), k - 1, username, date)
  }

  /** What the quiz screen renders. */
  datatype QuizView =
    | Unavailable
    | Showing(question: Question, position: nat, count: nat, answer: Option<AnswerValue>, isLast: bool)

  /** `renderQuiz`: the "not available" card over an empty list, otherwise the
      current question, "question `position` of `count`", the recorded answer
      and whether the button finishes the test. */
  function View(s: Session): (v: QuizView)
    requires s.questions == [] || 0 <= s.index < |s.questions|
    ensures v.Unavailable? <==> s.questions == []
    ensures v.Showing? ==>
      v.question == s.questions[s.index] && v.position == s.index + 1 &&
      v.count == |s.questions| && 1 <= v.position <= v.count &&
      (v.isLast <==> v.position == v.count)
    ensures v.Showing? ==> v.answer == FindAnswer(s.answers, s.index)
  {
    if s.questions == [] then Unavailable
    else Showing(s.questions[s.index], s.index + 1, |s.questions|, FindAnswer(s.answers, s.index),
                 s.index == |s.questions| - 1)
  }

  // ----- Properties -----

  /** A fresh start is a valid session with no answers, the first question and a full countdown. */
  lemma StartIsClean(s: Session)
    ensures Valid(Start(s))
    ensures Start(s).answers == [] && Start(s).index == 0 && Start(s).timer == QuestionSeconds
    ensures Start(s).screen == QuizSection && Start(s).results == s.results && Start(s).questions == s.questions
  {
  }

  /** Answering twice keeps the second answer only, and leaves every other index alone. */
  lemma AnswerLastWriteWins(s: Session, v: AnswerValue, j: int)
    ensures CountAt(RecordAnswer(s, v).answers, s.index) == 1
    ensures FindAnswer(RecordAnswer(s, v).answers, s.index) == Some(v)
    ensures j != s.index ==> FindAnswer(RecordAnswer(s, v).answers, j) == FindAnswer(s.answers, j)
    ensures j != s.index ==> CountAt(RecordAnswer(s, v).answers, j) == CountAt(s.answers, j)
    ensures RecordAnswer(s, v).index == s.index && RecordAnswer(s, v).timer == s.timer && RecordAnswer(s, v).results == s.results
  {
  }

  /** An answer given on the question on screen keeps the session valid. */
  lemma AnswerPreservesValid(s: Session, v: AnswerValue)
    requires Valid(s) && (s.screen == QuizSection ==> s.index < |s.questions|)
    ensures Valid(RecordAnswer(s, v))
  {
    if s.screen == QuizSection {
      MergePreservesWellFormed(s.answers, |s.questions|, s.index, v);
    }
  }

  /** `handleNextQuestion` moves the cursor by exactly one with a fresh countdown
      while questions remain; otherwise it appends exactly one result, holding
      the current snapshots, and leaves the quiz. */
  lemma NextAdvancesOrCompletes(s: Session, username: string, date: string)
    requires InRange(s.answers, |s.questions|)
    ensures var r := Next(s, username, date);
      if s.index + 1 < |s.questions| then
        r == s.(index := s.index + 1, timer := QuestionSeconds)
      else
        r.screen == StudentResults && |r.results| == |s.results| + 1 &&
        r.results[..|s.results|] == s.results &&
        r.results[|s.results|] == NewResult(s, username, date) &&
        r.answers == s.answers && r.questions == s.questions && r.index == s.index
  {
    var r := Next(s, username, date);
    if s.index + 1 >= |s.questions| {
      assert r.results[..|s.results|] == s.results;
    }
  }

  /** The recorded score lies between zero and the number of multiple-choice
      questions, and the total is that number. */
  lemma ResultScoreBounded(s: Session, username: string, date: string)
    requires WellFormed(s.answers, |s.questions|)
    ensures 0 <= NewResult(s, username, date).scoreMC <= NewResult(s, username, date).totalMC
    ensures NewResult(s, username, date).totalMC == |MultipleChoiceOnly(s.questions)|
  {
    ScoreBounded(s.questions, s.answers);
  }

  /** `handleNextQuestion` keeps the session valid. */
  lemma NextPreservesValid(s: Session, username: string, date: string)
    requires Valid(s) && InRange(s.answers, |s.questions|)
    ensures Valid(Next(s, username, date))
  {
  }

  /** A pulse keeps the session valid: the countdown stays within 1..30 in the quiz. */
  lemma TickPreservesValid(s: Session, username: string, date: string)
    requires Valid(s)
    ensures Valid(Tick(s, username, date))
  {
  }

  /** A pulse in the quiz with time left takes one off the countdown and changes nothing else. */
  lemma TickCountsDown(s: Session, username: string, date: string)
    requires Valid(s) && s.screen == QuizSection && s.timer > 1
    ensures Tick(s, username, date) == s.(timer := s.timer - 1)
  {
  }

  /** Outside the quiz a pulse changes nothing. */
  lemma TickOutsideQuiz(s: Session, username: string, date: string)
    requires s.screen != QuizSection
    ensures Tick(s, username, date) == s
  {
  }

  /** Fewer pulses than the countdown shows only count it down. */
  lemma {:induction false} TickNBeforeExpiry(s: Session, k: nat, username: string, date: string)
    requires Valid(s) && s.screen == QuizSection && k < s.timer
    ensures TickN(s, k, username, date) == s.(timer := s.timer - k)
    decreases k
  {
    if k > 0 {
      var s1 := Tick(s, username, date);
      assert s1 == s.(timer := s.timer - 1);
      TickNBeforeExpiry(s1, k - 1, username, date);
    }
  }

  /** Exactly as many pulses as the countdown shows advance the session, as if
      the question had been submitted with the countdown at zero. */
  lemma {:induction false} CountdownExpires(s: Session, username: string, date: string)
    requires Valid(s) && s.screen == QuizSection
    ensures TickN(s, s.timer as nat, username, date) == Next(s.(timer := 0), username, date)
  {
    var k: nat := s.timer - 1;
    TickNBeforeExpiry(s, k, username, date);
    var s1 := TickN(s, k, username, date);
    assert s1 == s.(timer := 1);
    TickNSplit(s, k, 1, username, date);
  }

  lemma {:induction false} TickNSplit(s: Session, a: nat, b: nat, username: string, date: string)
    requires Valid(s)
    ensures TickN(s, a + b, username, date) == TickN(TickN(s, a, username, date), b, username, date)
    decreases a
  {
    if a > 0 {
      TickPreservesValid(s, username, date);
      TickNSplit(Tick(s, username, date), a - 1, b, username, date);
    }
  }

  /** Without an answer, the question the countdown ran out on is recorded as
      unanswered and scores nothing. */
  lemma ExpiryLeavesQuestionUnanswered(s: Session, username: string, date: string)
    requires Valid(s) && s.screen == QuizSection && s.questions != []
    requires FindAnswer(s.answers, s.index).None?
    ensures FindAnswer(TickN(s, s.timer as nat, username, date).answers, s.index).None?
    ensures !AnsweredCorrectly(s.questions, TickN(s, s.timer as nat, username, date).answers, s.index)
  {
    CountdownExpires(s, username, date);
  }

  /** With no questions the quiz screen shows the "not available" card, yet the
      countdown still runs: thirty pulses after the start a result of zero out of
      zero is recorded and the result screen is shown. */
  lemma {:induction false} EmptyQuizRecordsEmptyResult(s: Session, username: string, date: string)
    requires s.questions == []
    ensures View(Start(s)).Unavailable?
    ensures var r := TickN(Start(s), QuestionSeconds, username, date);
      r.screen == StudentResults && r.results == s.results + [TestResult(username, date, 0, 0, [], [])]
  {
    var s0 := Start(s);
    StartIsClean(s);
    CountdownExpires(s0, username, date);
    var r := Next(s0.(timer := 0), username, date);
    assert TotalMC([]) == 0;
  }

  // ----- Two complete sessions over one choice and one essay question -----

  const MathChoice := Question("Math", "", Some(["1", "2"]), Some(1), None)
  const MathEssay := Question("Math", "", None, None, Some("essay"))

  lemma ScenarioTotal()
    ensures TotalMC([MathChoice, MathEssay]) == 1
  {
    assert [MathChoice, MathEssay][..1] == [MathChoice];
    assert MultipleChoiceOnly([MathChoice]) == [MathChoice];
  }

  lemma ScenarioScore(first: AnswerValue, rest: seq<Answer>)
    requires rest == [] || (|rest| == 1 && rest[0].questionIndex == 1)
    ensures var ans := [Answer(0, first)] + rest;
            InRange(ans, 2) && ScoreMC([MathChoice, MathEssay], ans) == if first == Choice(1) then 1 else 0
  {
    var qs, ans := [MathChoice, MathEssay], [Answer(0, first)] + rest;
    assert ScoreMC(qs, [Answer(0, first)]) == Points(qs, Answer(0, first));
    if rest != [] {
      assert ans[..1] == [Answer(0, first)];
      assert Points(qs, rest[0]) == 0;
    }
  }

  lemma MergeIntoOther(a: Answer, i: int, v: AnswerValue)
    requires a.questionIndex != i
    ensures MergeAnswer([a], i, v) == [a, Answer(i, v)]
  {
    assert WithoutIndex([a], i) == [a];
  }

  /** Answer 1 (correct) to the first question and a text to the second, then
      advance twice: one point out of one. */
  lemma ScenarioCorrectThenEssay(s: Session, username: string, date: string, text: string)
    requires s.questions == [MathChoice, MathEssay]
    ensures var s1 := RecordAnswer(Start(s), Choice(1));
            var s2 := Next(s1, username, date);
            var s3 := RecordAnswer(s2, Text(text));
            var s4 := Next(s3, username, date);
            s4.screen == StudentResults &&
            s4.results[|s4.results| - 1].scoreMC == 1 && s4.results[|s4.results| - 1].totalMC == 1
  {
    var s1 := RecordAnswer(Start(s), Choice(1));
    assert WithoutIndex([], 0) == [];
    assert s1.answers == [Answer(0, Choice(1))];
    var s2 := Next(s1, username, date);
    assert s2.index == 1;
    var s3 := RecordAnswer(s2, Text(text));
    MergeIntoOther(Answer(0, Choice(1)), 1, Text(text));
    assert s3.answers == [Answer(0, Choice(1))] + [Answer(1, Text(text))];
    ScenarioScore(Choice(1), [Answer(1, Text(text))]);
    ScenarioTotal();
  }

  /** Answer 0 (wrong) to the first question, advance, leave the essay blank and
      advance again: no points out of one. */
  lemma ScenarioWrongThenBlank(s: Session, username: string, date: string)
    requires s.questions == [MathChoice, MathEssay]
    ensures var s1 := RecordAnswer(Start(s), Choice(0));
            var s2 := Next(s1, username, date);
            var s3 := Next(s2, username, date);
            s3.screen == StudentResults &&
            s3.results[|s3.results| - 1].scoreMC == 0 && s3.results[|s3.results| - 1].totalMC == 1
  {
    var s1 := RecordAnswer(Start(s), Choice(0));
    assert WithoutIndex([], 0) == [];
    assert s1.answers == [Answer(0, Choice(0))] + [];
    ScenarioScore(Choice(0), []);
    ScenarioTotal();
  }
}
