/** The per-category summary of a result (index.tsx:610-623) as a
    specification: the accumulator the reduce builds, keyed by category,
    which re-derives correctness from the question side. */
module Summary {
  import opened Wrappers
  import opened Domain
  import opened Answers
  import opened Scoring
  import opened Grouping

  /** One entry `{ correct, total }` of the accumulator object. */
  datatype Tally = Tally(correct: nat, total: nat)

  function Plus(a: Tally, b: Tally): Tally {
    Tally(a.correct + b.correct, a.total + b.total)
  }

  /** What question `i` adds to the entry of its category: a multiple-choice
      question adds one to `total`, and one to `correct` when the answer
      recorded for its index matches; any other question adds nothing. */
  function Contribution(qs: seq<Question>, ans: seq<Answer>, i: int): (t: Tally)
    requires 0 <= i < |qs|
    ensures t.correct <= t.total <= 1
    ensures t.total == 1 <==> IsMultipleChoice(qs[i])
    ensures t.correct == 1 <==> IsMultipleChoice(qs[i]) && AnsweredCorrectly(qs, ans, i)
  {
    if IsMultipleChoice(qs[i]) then Tally(if AnsweredCorrectly(qs, ans, i) then 1 else 0, 1)
    else Tally(0, 0)
  }

  function Categories(qs: seq<Question>): (ks: seq<string>)
    ensures |ks| == |qs| && forall i :: 0 <= i < |qs| ==> ks[i] == qs[i].category
  {
    seq(|qs|, i requires 0 <= i < |qs| => qs[i].category)
  }

  function Contributions(qs: seq<Question>, ans: seq<Answer>): (ds: seq<Tally>)
    ensures |ds| == |qs| && forall i :: 0 <= i < |qs| ==> ds[i] == Contribution(qs, ans, i)
  {
    seq(|qs|, i requires 0 <= i < |qs| => Contribution(qs, ans, i))
  }

  /** The accumulator after the reduce has visited the first `n` items: the
      entry of key `ks[i]` is created at its first occurrence and item `i`
      adds `ds[i]` to it. */
  function Accumulate<K>(ks: seq<K>, ds: seq<Tally>, n: int): map<K, Tally>
    requires 0 <= n <= |ks| == |ds|
  {
    if n == 0 then map[]
    else
      var m := Accumulate(ks, ds, n - 1);
      var c := ks[n - 1];
      m[c := Plus(EntryOr(m, c), ds[n - 1])]
  }

  /** The sum of the `ds[i]` with `i < n` and key `c`, computed directly. */
  ghost function KeyTally<K>(ks: seq<K>, ds: seq<Tally>, c: K, n: int): Tally
    requires 0 <= n <= |ks| == |ds|
  {
    if n == 0 then Tally(0, 0)
    else if ks[n - 1] == c then Plus(KeyTally(ks, ds, c, n - 1), ds[n - 1])
    else KeyTally(ks, ds, c, n - 1)
  }

  /** The sum of the first `n` deltas. */
  function SumAll(ds: seq<Tally>, n: int): Tally
    requires 0 <= n <= |ds|
  {
    if n == 0 then Tally(0, 0) else Plus(SumAll(ds, n - 1), ds[n - 1])
  }

  /** The entry of key `k`, or nothing when `k` has none. */
  function EntryOr<K>(m: map<K, Tally>, k: K): Tally {
    if k in m then m[k] else Tally(0, 0)
  }

  /** The entries of the keys listed in `order`, added up. */
  function SumOver<K>(m: map<K, Tally>, order: seq<K>): Tally {
    if order == [] then Tally(0, 0)
    else Plus(SumOver(m, order[..|order| - 1]), EntryOr(m, order[|order| - 1]))
  }

  /** One step of the reduce: the entry of the next key grows by its delta. */
  lemma AccumulateStep<K>(ks: seq<K>, ds: seq<Tally>, n: int, m: map<K, Tally>, entry: Tally)
    requires 0 <= n < |ks| == |ds|
    requires m == Accumulate(ks, ds, n)
    requires entry.correct == EntryOr(m, ks[n]).correct + ds[n].correct
    requires entry.total == EntryOr(m, ks[n]).total + ds[n].total
    ensures m[ks[n] := entry] == Accumulate(ks, ds, n + 1)
  {
  }

  /** The accumulator has exactly the keys that occur, in first-appearance order. */
  lemma {:induction false} AccumulateKeys<K>(ks: seq<K>, ds: seq<Tally>, n: int)
    requires 0 <= n <= |ks| == |ds|
    ensures forall c :: c in Accumulate(ks, ds, n) <==> c in FirstAppearance(ks, n)
  {
    if n > 0 {
      AccumulateKeys(ks, ds, n - 1);
    }
  }

  /** A key that does not occur in the prefix sums to zero. */
  lemma {:induction false} AbsentKeyIsZero<K>(ks: seq<K>, ds: seq<Tally>, c: K, n: int)
    requires 0 <= n <= |ks| == |ds| && c !in Accumulate(ks, ds, n)
    ensures KeyTally(ks, ds, c, n).correct == 0 && KeyTally(ks, ds, c, n).total == 0
  {
    if n > 0 {
      AbsentKeyIsZero(ks, ds, c, n - 1);
    }
  }

  /** Each entry of the accumulator is the sum of its key's deltas. */
  lemma {:induction false} AccumulateEntry<K>(ks: seq<K>, ds: seq<Tally>, c: K, n: int)
    requires 0 <= n <= |ks| == |ds| && c in Accumulate(ks, ds, n)
    ensures Accumulate(ks, ds, n)[c] == KeyTally(ks, ds, c, n)
  {
    var m := Accumulate(ks, ds, n - 1);
    if c in m {
      AccumulateEntry(ks, ds, c, n - 1);
    } else {
      AbsentKeyIsZero(ks, ds, c, n - 1);
    }
  }

  lemma {:induction false} KeyTallyBounded<K>(ks: seq<K>, ds: seq<Tally>, c: K, n: int)
    requires 0 <= n <= |ks| == |ds|
    requires forall i :: 0 <= i < |ds| ==> ds[i].correct <= ds[i].total
    ensures KeyTally(ks, ds, c, n).correct <= KeyTally(ks, ds, c, n).total
  {
    if n > 0 {
      KeyTallyBounded(ks, ds, c, n - 1);
    }
  }

  lemma {:induction false} SumIgnoresOtherKeys<K>(m: map<K, Tally>, order: seq<K>, c: K, v: Tally)
    requires c !in order
    ensures SumOver(m[c := v], order) == SumOver(m, order)
  {
    if order != [] {
      SumIgnoresOtherKeys(m, order[..|order| - 1], c, v);
    }
  }

  lemma {:induction false} SumAddAtKey<K>(m: map<K, Tally>, order: seq<K>, c: K, d: Tally)
    requires Distinct(order) && c in order
    ensures SumOver(m[c := Plus(EntryOr(m, c), d)], order).correct == SumOver(m, order).correct + d.correct
    ensures SumOver(m[c := Plus(EntryOr(m, c), d)], order).total == SumOver(m, order).total + d.total
  {
    var init, last := order[..|order| - 1], order[|order| - 1];
    assert order == init + [last];
    if last == c {
      assert c !in init;
      SumIgnoresOtherKeys(m, init, c, Plus(EntryOr(m, c), d));
    } else {
      SumAddAtKey(m, init, c, d);
    }
  }

  /** One step of the sum: adding `d` at key `c` adds `d` to the sum over the keys,
      whether `c` is already listed or is appended. */
  lemma SumAfterStep<K>(m: map<K, Tally>, order: seq<K>, c: K, d: Tally, m': map<K, Tally>, order': seq<K>)
    requires Distinct(order) && (c in m <==> c in order)
    requires m' == m[c := Plus(EntryOr(m, c), d)]
    requires order' == if c in order then order else order + [c]
    ensures SumOver(m', order').correct == SumOver(m, order).correct + d.correct
    ensures SumOver(m', order').total == SumOver(m, order).total + d.total
  {
    if c in order {
      SumAddAtKey(m, order, c, d);
    } else {
      SumIgnoresOtherKeys(m, order, c, Plus(EntryOr(m, c), d));
      assert order'[..|order|] == order;
    }
  }

  /** Adding the accumulator up over its keys gives the sum of all deltas. */
  lemma {:induction false} AccumulateSum<K>(ks: seq<K>, ds: seq<Tally>, n: int)
    requires 0 <= n <= |ks| == |ds|
    ensures SumOver(Accumulate(ks, ds, n), FirstAppearance(ks, n)).correct == SumAll(ds, n).correct
    ensures SumOver(Accumulate(ks, ds, n), FirstAppearance(ks, n)).total == SumAll(ds, n).total
  {
    if n > 0 {
      AccumulateSum(ks, ds, n - 1);
      AccumulateKeys(ks, ds, n - 1);
      FirstAppearanceDistinct(ks, n - 1);
      SumAfterStep(Accumulate(ks, ds, n - 1), FirstAppearance(ks, n - 1), ks[n - 1], ds[n - 1],
                   Accumulate(ks, ds, n), FirstAppearance(ks, n));
    }
  }

  /** The per-category accumulator of a result with questions `qs` and answers `ans`. */
  function SummaryOf(qs: seq<Question>, ans: seq<Answer>): map<string, Tally> {
    SummaryUpTo(qs, ans, |qs|)
  }

  /** The accumulator after the reduce has visited the first `n` questions. */
  function SummaryUpTo(qs: seq<Question>, ans: seq<Answer>, n: int): map<string, Tally>
    requires 0 <= n <= |qs|
  {
    Accumulate(Categories(qs), Contributions(qs, ans), n)
  }

  /** One step of the reduce: question `i` adds one to `total` of its category when
      it is multiple choice, and one to `correct` when it is also answered correctly. */
  lemma SummaryStep(qs: seq<Question>, ans: seq<Answer>, i: int, m: map<string, Tally>, entry: Tally)
    requires 0 <= i < |qs|
    requires m == SummaryUpTo(qs, ans, i)
    requires entry.total == (if qs[i].category in m then m[qs[i].category].total else 0)
                            + (if IsMultipleChoice(qs[i]) then 1 else 0)
    requires entry.correct == (if qs[i].category in m then m[qs[i].category].correct else 0)
                              + (if IsMultipleChoice(qs[i]) && AnsweredCorrectly(qs, ans, i) then 1 else 0)
    ensures m[qs[i].category := entry] == SummaryUpTo(qs, ans, i + 1)
  {
    var ks, ds := Categories(qs), Contributions(qs, ans);
    assert ks[i] == qs[i].category;
    assert ds[i] == Contribution(qs, ans, i);
    AccumulateStep(ks, ds, i, m, entry);
  }

  /** The order in which the categories of `qs` become keys of the accumulator. */
  function SectionOrder(qs: seq<Question>): seq<string> {
    FirstAppearance(Categories(qs), |qs|)
  }

  lemma {:induction false} ContributionsSum(qs: seq<Question>, ans: seq<Answer>, n: int)
    requires 0 <= n <= |qs|
    ensures SumAll(Contributions(qs, ans), n).correct == CorrectUpTo(qs, ans, n)
    ensures SumAll(Contributions(qs, ans), n).total == MultipleChoiceUpTo(qs, n)
  {
    if n > 0 {
      ContributionsSum(qs, ans, n - 1);
    }
  }

  /** The accumulator's keys are the keys that occur, and no entry has more
      correct answers than its total when no delta has. */
  lemma AccumulateBounded<K>(ks: seq<K>, ds: seq<Tally>, n: int)
    requires 0 <= n <= |ks| == |ds|
    requires forall i :: 0 <= i < |ds| ==> ds[i].correct <= ds[i].total
    ensures forall c :: c in Accumulate(ks, ds, n) <==> exists i :: 0 <= i < n && ks[i] == c
    ensures forall c :: c in Accumulate(ks, ds, n) ==> Accumulate(ks, ds, n)[c].correct <= Accumulate(ks, ds, n)[c].total
  {
    AccumulateKeys(ks, ds, n);
    FirstAppearanceFacts(ks, n);
    forall c | c in Accumulate(ks, ds, n)
      ensures Accumulate(ks, ds, n)[c].correct <= Accumulate(ks, ds, n)[c].total
    {
      AccumulateEntry(ks, ds, c, n);
      KeyTallyBounded(ks, ds, c, n);
    }
  }

  /** Every category that occurs has an entry, and none has more correct answers than questions. */
  lemma SummaryEntriesBounded(qs: seq<Question>, ans: seq<Answer>)
    ensures forall c :: c in SummaryOf(qs, ans) <==> exists i :: 0 <= i < |qs| && Categories(qs)[i] == c
    ensures forall c :: c in SummaryOf(qs, ans) ==> SummaryOf(qs, ans)[c].correct <= SummaryOf(qs, ans)[c].total
  {
    AccumulateBounded(Categories(qs), Contributions(qs, ans), |qs|);
  }

  /** Summed over every category, the totals equal `totalMC`. */
  lemma SummedTotalsEqualTotalMC(qs: seq<Question>, ans: seq<Answer>)
    ensures SumOver(SummaryOf(qs, ans), SectionOrder(qs)).total == TotalMC(qs)
  {
    AccumulateSum(Categories(qs), Contributions(qs, ans), |qs|);
    ContributionsSum(qs, ans, |qs|);
    TotalIsMultipleChoiceCount(qs, |qs|);
    assert qs[..|qs|] == qs;
  }

  /** With at most one answer per index, the correct counts summed over every
      category equal the answer-side `scoreMC`. */
  lemma SummedCorrectEqualsScore(qs: seq<Question>, ans: seq<Answer>)
    requires WellFormed(ans, |qs|)
    ensures SumOver(SummaryOf(qs, ans), SectionOrder(qs)).correct == ScoreMC(qs, ans)
  {
    AccumulateSum(Categories(qs), Contributions(qs, ans), |qs|);
    ContributionsSum(qs, ans, |qs|);
    ScoreIsQuestionSideCount(qs, ans);
  }

  /** What the result screen's accumulator means: one entry per category
      that occurs, none with more correct answers than questions, the totals
      adding up to `totalMC` and, with one answer per index, the correct
      counts adding up to `scoreMC`. */
  lemma SummaryMeaning(qs: seq<Question>, ans: seq<Answer>)
    ensures forall c :: c in SummaryOf(qs, ans) <==> exists i :: 0 <= i < |qs| && Categories(qs)[i] == c
    ensures forall c :: c in SummaryOf(qs, ans) ==> SummaryOf(qs, ans)[c].correct <= SummaryOf(qs, ans)[c].total
    ensures forall k :: k in SummaryOf(qs, ans) <==> k in SectionOrder(qs)
    ensures SumOver(SummaryOf(qs, ans), SectionOrder(qs)).total == TotalMC(qs)
    ensures WellFormed(ans, |qs|) ==> SumOver(SummaryOf(qs, ans), SectionOrder(qs)).correct == ScoreMC(qs, ans)
  {
    SummaryEntriesBounded(qs, ans);
    AccumulateKeys(Categories(qs), Contributions(qs, ans), |qs|);
    SummedTotalsEqualTotalMC(qs, ans);
    if WellFormed(ans, |qs|) {
      SummedCorrectEqualsScore(qs, ans);
    }
  }

  /** A key's summed total is positive exactly when one of its deltas has a positive total. */
  lemma {:induction false} KeyTallyTotalPositive<K>(ks: seq<K>, ds: seq<Tally>, c: K, n: int)
    requires 0 <= n <= |ks| == |ds|
    ensures KeyTally(ks, ds, c, n).total > 0 <==> exists i :: 0 <= i < n && ks[i] == c && ds[i].total > 0
  {
    if n > 0 {
      KeyTallyTotalPositive(ks, ds, c, n - 1);
      if ks[n - 1] == c && ds[n - 1].total > 0 {
        assert 0 <= n - 1 < n && ks[n - 1] == c && ds[n - 1].total > 0;
      }
    }
  }

  /** An entry's total is positive exactly when one of its key's deltas has a positive total. */
  lemma EntryTotalPositive<K>(ks: seq<K>, ds: seq<Tally>, c: K, n: int)
    requires 0 <= n <= |ks| == |ds|
    ensures EntryOr(Accumulate(ks, ds, n), c).total > 0 <==> exists i :: 0 <= i < n && ks[i] == c && ds[i].total > 0
  {
    if c in Accumulate(ks, ds, n) {
      AccumulateEntry(ks, ds, c, n);
    } else {
      AbsentKeyIsZero(ks, ds, c, n);
    }
    KeyTallyTotalPositive(ks, ds, c, n);
  }

  /** Item `i`'s key and delta in the summary reduce. */
  lemma ContributionAt(qs: seq<Question>, ans: seq<Answer>, i: int)
    requires 0 <= i < |qs|
    ensures Categories(qs)[i] == qs[i].category
    ensures Contributions(qs, ans)[i].total > 0 <==> IsMultipleChoice(qs[i])
  {
    assert Contributions(qs, ans)[i] == Contribution(qs, ans, i);
  }

  /** A category's total is positive exactly when it has a multiple-choice question. */
  lemma CategoryHasMultipleChoice(qs: seq<Question>, ans: seq<Answer>, c: string)
    ensures EntryOr(SummaryOf(qs, ans), c).total > 0 <==>
      exists i :: 0 <= i < |qs| && qs[i].category == c && IsMultipleChoice(qs[i])
  {
    var ks, ds := Categories(qs), Contributions(qs, ans);
    EntryTotalPositive(ks, ds, c, |qs|);
    if EntryOr(SummaryOf(qs, ans), c).total > 0 {
      var i :| 0 <= i < |qs| && ks[i] == c && ds[i].total > 0;
      ContributionAt(qs, ans, i);
    } else {
      forall i | 0 <= i < |qs| && qs[i].category == c
        ensures !IsMultipleChoice(qs[i])
      {
        ContributionAt(qs, ans, i);
      }
    }
  }
}
