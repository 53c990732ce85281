/** The grouping of the admin's question review screen (index.tsx:511-517):
    a reduce that pushes a section for each new category and appends every
    question to the section of its category, mutating the accumulator array. */
module Review {
  import opened Domain
  import opened Grouping
  import opened Summary

  /** A section of the review screen: `key` is the category, `items` its questions. */
  type ReviewSection = Group<string, Question>

  /** The sections after the reduce has visited the first `n` questions. */
  function ReviewUpTo(qs: seq<Question>, n: int): seq<ReviewSection>
    requires 0 <= n <= |qs|
  {
    GroupUpTo(Categories(qs), qs, n)
  }

  lemma ReviewStep(qs: seq<Question>, i: int)
    requires 0 <= i < |qs|
    ensures ReviewUpTo(qs, i + 1) == AddToGroup(ReviewUpTo(qs, i), qs[i].category, qs[i])
  {
    assert Categories(qs)[i] == qs[i].category;
  }

  /** The review screen's reduce. */
  method ReviewSections(qs: seq<Question>) returns (acc: seq<ReviewSection>)
    ensures acc == ReviewUpTo(qs, |qs|)
  {
    acc := [];
    var i := 0;
    while i < |qs|
      invariant 0 <= i <= |qs|
      invariant acc == ReviewUpTo(qs, i)
    {
      ReviewStep(qs, i);
      acc := AddQuestion(acc, qs[i]);
      i := i + 1;
    }
  }

  /** The reduce callback: pushes an empty section when none has the question's
      category, then appends the question to the first section that has it. */
  method AddQuestion(acc: seq<ReviewSection>, question: Question) returns (acc': seq<ReviewSection>)
    ensures acc' == AddToGroup(acc, question.category, question)
  {
    acc' := acc;
    if FindGroup(acc', question.category) == |acc'| {
      AddToPushedGroup(acc, question.category, question);
      acc' := acc' + [Group(question.category, [])];
    } else {
      AddToFoundGroup(acc, question.category, question);
    }
    var k := FindGroup(acc', question.category);
    assert k == |acc| ==> acc'[k].items + [question] == [question];
    acc' := acc'[k := acc'[k].(items := acc'[k].items + [question])];
  }

  /** What the review screen shows: one section per category, in the order the
      categories first appear (the order of the result screen's keys too), each
      holding exactly the questions of its category in their original order. */
  lemma ReviewMeaning(qs: seq<Question>)
    ensures Keys(ReviewUpTo(qs, |qs|)) == SectionOrder(qs)
    ensures forall j :: 0 <= j < |ReviewUpTo(qs, |qs|)| ==>
      ReviewUpTo(qs, |qs|)[j].items == ItemsWithKey(Categories(qs), qs, ReviewUpTo(qs, |qs|)[j].key, |qs|)
  {
    GroupOrder(Categories(qs), qs, |qs|);
    GroupContents(Categories(qs), qs, |qs|);
  }
}
