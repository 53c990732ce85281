/** The answer list of a quiz session and the last-write-wins merge that
    `handleAnswer` performs on it (index.tsx:234-239). */
module Answers {
  import opened Wrappers
  import opened Domain

  /** `answers.find(a => a.questionIndex === i)?.answer`: the first answer recorded for index `i`. */
  function FindAnswer(ans: seq<Answer>, i: int): (r: Option<AnswerValue>)
    ensures r.None? <==> forall k :: 0 <= k < |ans| ==> ans[k].questionIndex != i
    ensures r.Some? ==> Answer(i, r.value) in ans
  {
    if ans == [] then None
    else if ans[0].questionIndex == i then Some(ans[0].answer)
    else
      assert forall k :: 1 <= k < |ans| ==> ans[k] == ans[1..][k - 1];
      FindAnswer(ans[1..], i)
  }

  /** `answers.filter(a => a.questionIndex !== i)`. */
  function WithoutIndex(ans: seq<Answer>, i: int): (r: seq<Answer>)
    ensures |r| <= |ans|
    ensures forall a :: a in r <==> a in ans && a.questionIndex != i
  {
    if ans == [] then []
    else (if ans[0].questionIndex == i then [] else [ans[0]]) + WithoutIndex(ans[1..], i)
  }

  /** How many entries of the list are recorded for index `i`. */
  function CountAt(ans: seq<Answer>, i: int): nat {
    if ans == [] then 0
    else (if ans[0].questionIndex == i then 1 else 0) + CountAt(ans[1..], i)
  }

  /** At most one answer per question index. */
  ghost predicate UniqueIndices(ans: seq<Answer>) {
    forall i :: CountAt(ans, i) <= 1
  }

  /** Every answer refers to one of the `n` questions of the session. */
  predicate InRange(ans: seq<Answer>, n: int) {
    forall k :: 0 <= k < |ans| ==> 0 <= ans[k].questionIndex < n
  }

  ghost predicate WellFormed(ans: seq<Answer>, n: int) {
    UniqueIndices(ans) && InRange(ans, n)
  }

  /** The new answer list after `handleAnswer(v)` with cursor `i`:
      the old entries for other indices, in order, followed by the new one. */
  function MergeAnswer(ans: seq<Answer>, i: int, v: AnswerValue): (r: seq<Answer>)
    ensures CountAt(r, i) == 1
    ensures FindAnswer(r, i) == Some(v)
    ensures forall j :: j != i ==> FindAnswer(r, j) == FindAnswer(ans, j)
    ensures WithoutIndex(r, i) == WithoutIndex(ans, i)
    ensures forall j :: j != i ==> CountAt(r, j) == CountAt(ans, j)
    ensures forall n :: InRange(ans, n) && 0 <= i < n ==> InRange(r, n)
  {
    MergeAtIndex(ans, i, v);
    MergeElsewhere(ans, i, v);
    MergeInRange(ans, i, v);
    WithoutIndex(ans, i) + [Answer(i, v)]
  }

  lemma MergeAtIndex(ans: seq<Answer>, i: int, v: AnswerValue)
    ensures CountAt(WithoutIndex(ans, i) + [Answer(i, v)], i) == 1
    ensures FindAnswer(WithoutIndex(ans, i) + [Answer(i, v)], i) == Some(v)
    ensures WithoutIndex(WithoutIndex(ans, i) + [Answer(i, v)], i) == WithoutIndex(ans, i)
  {
    var kept := WithoutIndex(ans, i);
    CountAppend(kept, [Answer(i, v)], i);
    CountWithout(ans, i, i);
    WithoutAppend(kept, [Answer(i, v)], i);
    WithoutIdempotent(ans, i);
    FindAppend(kept, [Answer(i, v)], i);
  }

  lemma MergeElsewhere(ans: seq<Answer>, i: int, v: AnswerValue)
    ensures forall j :: j != i ==>
      FindAnswer(WithoutIndex(ans, i) + [Answer(i, v)], j) == FindAnswer(ans, j)
    ensures forall j :: j != i ==>
      CountAt(WithoutIndex(ans, i) + [Answer(i, v)], j) == CountAt(ans, j)
  {
    var kept := WithoutIndex(ans, i);
    forall j | j != i
      ensures FindAnswer(kept + [Answer(i, v)], j) == FindAnswer(ans, j)
      ensures CountAt(kept + [Answer(i, v)], j) == CountAt(ans, j)
    {
      FindAppend(kept, [Answer(i, v)], j);
      FindWithout(ans, i, j);
      CountAppend(kept, [Answer(i, v)], j);
      CountWithout(ans, i, j);
    }
  }

  lemma MergeInRange(ans: seq<Answer>, i: int, v: AnswerValue)
    ensures forall n :: InRange(ans, n) && 0 <= i < n ==> InRange(WithoutIndex(ans, i) + [Answer(i, v)], n)
  {
    var kept := WithoutIndex(ans, i);
    var r := kept + [Answer(i, v)];
    assert forall k :: 0 <= k < |r| ==> r[k] in kept || r[k] == Answer(i, v);
  }

  lemma {:induction false} CountAppend(a: seq<Answer>, b: seq<Answer>, i: int)
    ensures CountAt(a + b, i) == CountAt(a, i) + CountAt(b, i)
  {
    if a != [] {
      assert (a + b)[1..] == a[1..] + b;
      CountAppend(a[1..], b, i);
    } else {
      assert a + b == b;
    }
  }

  lemma {:induction false} CountWithout(ans: seq<Answer>, i: int, j: int)
    ensures CountAt(WithoutIndex(ans, i), j) == if j == i then 0 else CountAt(ans, j)
  {
    if ans != [] {
      var head := if ans[0].questionIndex == i then [] else [ans[0]];
      CountAppend(head, WithoutIndex(ans[1..], i), j);
      CountWithout(ans[1..], i, j);
    }
  }

  lemma {:induction false} FindAppend(a: seq<Answer>, b: seq<Answer>, i: int)
    ensures FindAnswer(a + b, i) == if FindAnswer(a, i).Some? then FindAnswer(a, i) else FindAnswer(b, i)
  {
    if a != [] {
      assert (a + b)[0] == a[0];
      assert (a + b)[1..] == a[1..] + b;
      FindAppend(a[1..], b, i);
    } else {
      assert a + b == b;
    }
  }

  lemma {:induction false} FindWithout(ans: seq<Answer>, i: int, j: int)
    requires j != i
    ensures FindAnswer(WithoutIndex(ans, i), j) == FindAnswer(ans, j)
  {
    if ans != [] {
      var head := if ans[0].questionIndex == i then [] else [ans[0]];
      FindAppend(head, WithoutIndex(ans[1..], i), j);
      FindWithout(ans[1..], i, j);
    }
  }

  lemma {:induction false} WithoutAppend(a: seq<Answer>, b: seq<Answer>, i: int)
    ensures WithoutIndex(a + b, i) == WithoutIndex(a, i) + WithoutIndex(b, i)
  {
    if a != [] {
      assert (a + b)[0] == a[0];
      assert (a + b)[1..] == a[1..] + b;
      WithoutAppend(a[1..], b, i);
    } else {
      assert a + b == b;
    }
  }

  lemma {:induction false} WithoutIdempotent(ans: seq<Answer>, i: int)
    ensures WithoutIndex(WithoutIndex(ans, i), i) == WithoutIndex(ans, i)
  {
    if ans != [] {
      var head := if ans[0].questionIndex == i then [] else [ans[0]];
      WithoutAppend(head, WithoutIndex(ans[1..], i), i);
      WithoutIdempotent(ans[1..], i);
    }
  }

  /** Under the one-answer-per-index invariant, an index is counted once exactly when it is answered. */
  lemma {:induction false} CountFind(ans: seq<Answer>, i: int)
    ensures CountAt(ans, i) == 0 <==> FindAnswer(ans, i).None?
  {
    if ans != [] {
      CountFind(ans[1..], i);
      assert forall k :: 1 <= k < |ans| ==> ans[k] == ans[1..][k - 1];
    }
  }

  /** Merging keeps the invariant that no index is answered twice and that
      every answer is in range. */
  lemma MergePreservesWellFormed(ans: seq<Answer>, n: int, i: int, v: AnswerValue)
    requires WellFormed(ans, n) && 0 <= i < n
    ensures WellFormed(MergeAnswer(ans, i, v), n)
  {
    var r := MergeAnswer(ans, i, v);
    forall k | 0 <= k < |r| ensures 0 <= r[k].questionIndex < n {
      assert r[k] in WithoutIndex(ans, i) + [Answer(i, v)];
    }
  }

  /** Submitting twice for the same index keeps only the later value. */
  lemma MergeTwice(ans: seq<Answer>, i: int, a: AnswerValue, b: AnswerValue)
    ensures MergeAnswer(MergeAnswer(ans, i, a), i, b) == MergeAnswer(ans, i, b)
  {
  }
}
