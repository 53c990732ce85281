/** The computations of the student's result screen (index.tsx:600-623):
    the latest result of the logged-in user and the per-category reduce. */
module ResultScreen {
  import opened Wrappers
  import opened Domain
  import opened Answers
  import opened Scoring
  import opened Summary
  import opened Grouping

  /** `results.filter(r => r.username === username).pop()`. */
  function LastResultOf(results: seq<TestResult>, username: string): (r: Option<TestResult>)
    ensures r.None? <==> forall i :: 0 <= i < |results| ==> results[i].username != username
    ensures r.Some? ==> r.value.username == username
    ensures r.Some? ==> exists i :: 0 <= i < |results| && results[i] == r.value
                          && forall j :: i < j < |results| ==> results[j].username != username
  {
    if results == [] then None
    else
      var last := results[|results| - 1];
      if last.username == username then Some(last)
      else
        var r := LastResultOf(results[..|results| - 1], username);
        assert r.Some? ==>
          exists i :: 0 <= i < |results| - 1 && results[i] == r.value
            && forall j :: i < j < |results| ==> results[j].username != username;
        r
  }

  /** The reduce of the result screen over the questions `qs` and answers `ans` of
      the latest result. */
  method SectionSummary(qs: seq<Question>, ans: seq<Answer>) returns (acc: map<string, Tally>)
    ensures acc == SummaryOf(qs, ans)
  {
    acc := map[];
    var i := 0;
    while i < |qs|
      invariant 0 <= i <= |qs|
      invariant acc == SummaryUpTo(qs, ans, i)
    {
      acc := VisitQuestion(acc, qs, ans, i);
      i := i + 1;
    }
  }

  /** The reduce callback for question `i`: creates the category's entry when it is
      missing, then counts the question when it is multiple choice and its answer
      when that is the correct option. */
  method VisitQuestion(acc: map<string, Tally>, qs: seq<Question>, ans: seq<Answer>, i: int)
    returns (acc': map<string, Tally>)
    requires 0 <= i < |qs|
    requires acc == SummaryUpTo(qs, ans, i)
    ensures acc' == SummaryUpTo(qs, ans, i + 1)
  {
    var q := qs[i];
    var entry := if q.category in acc then acc[q.category] else Tally(0, 0);
    if IsMultipleChoice(q) {
      entry := entry.(total := entry.total + 1);
      var userAnswer := FindAnswer(ans, i);
      if userAnswer.Some? && Matches(userAnswer.value, q) {
        entry := entry.(correct := entry.correct + 1);
      }
    }
    SummaryStep(qs, ans, i, acc, entry);
    acc' := acc[q.category := entry];
  }

  /** `Object.entries(sections).filter(([, data]) => data.total > 0)`, as the
      list of the categories shown, in key order. */
  function ShownSections(m: map<string, Tally>, order: seq<string>): (r: seq<string>)
    ensures forall c :: c in r <==> c in order && EntryOr(m, c).total > 0
  {
    if order == [] then []
    else
      var last := order[|order| - 1];
      var r := ShownSections(m, order[..|order| - 1]);
      assert order == order[..|order| - 1] + [last];
      r + (if EntryOr(m, last).total > 0 then [last] else [])
  }

  /** The result screen lists exactly the categories that have a
      multiple-choice question; essay-only categories are hidden. */
  lemma ShownSectionsMeaning(qs: seq<Question>, ans: seq<Answer>, c: string)
    ensures c in ShownSections(SummaryOf(qs, ans), SectionOrder(qs)) <==>
      exists i :: 0 <= i < |qs| && qs[i].category == c && IsMultipleChoice(qs[i])
  {
    CategoryHasMultipleChoice(qs, ans, c);
    FirstAppearanceFacts(Categories(qs), |qs|);
    if exists i :: 0 <= i < |qs| && qs[i].category == c && IsMultipleChoice(qs[i]) {
      var i :| 0 <= i < |qs| && qs[i].category == c && IsMultipleChoice(qs[i]);
      assert Categories(qs)[i] == c;
    }
  }
}

