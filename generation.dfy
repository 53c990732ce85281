/** The flattening of the generated sections into the session's question list
    (index.tsx:181-183): every question of every section, in order, tagged with
    its section's category. The request to the generator and the parsing of its
    reply are not part of this model; the parsed reply is the input here. */
module Generation {
  import opened Wrappers
  import opened Domain

  /** A generated question as parsed from the reply, before it is tagged. */
  datatype GeneratedQuestion = GeneratedQuestion(
    question: string,
    options: Option<seq<string>>,
    correctAnswerIndex: Option<int>,
    qtype: Option<string>)

  datatype GeneratedSection = GeneratedSection(category: string, questions: seq<GeneratedQuestion>)

  /** `{ ...q, category }`: the question with the section's category. */
  function Tag(category: string, g: GeneratedQuestion): (q: Question)
    ensures q.category == category && q.question == g.question && q.options == g.options
    ensures q.correctAnswerIndex == g.correctAnswerIndex && q.qtype == g.qtype
  {
    Question(category, g.question, g.options, g.correctAnswerIndex, g.qtype)
  }

  /** `section.questions.map(q => ({ ...q, category: section.category }))`. */
  function TagSection(sec: GeneratedSection): (qs: seq<Question>)
    ensures |qs| == |sec.questions|
    ensures forall j :: 0 <= j < |qs| ==> qs[j] == Tag(sec.category, sec.questions[j])
  {
    seq(|sec.questions|, j requires 0 <= j < |sec.questions| => Tag(sec.category, sec.questions[j]))
  }

  /** The number of questions in the sections before section `s`. */
  function Offset(ss: seq<GeneratedSection>, s: int): nat
    requires 0 <= s <= |ss|
  {
    if s == 0 then 0 else |ss[0].questions| + Offset(ss[1..], s - 1)
  }

  /** `generatedData.flatMap(...)`. */
  function Flatten(ss: seq<GeneratedSection>): seq<Question> {
    if ss == [] then [] else TagSection(ss[0]) + Flatten(ss[1..])
  }

  /** The flattened list holds as many questions as all the sections together. */
  lemma {:induction false} FlattenLength(ss: seq<GeneratedSection>)
    ensures |Flatten(ss)| == Offset(ss, |ss|)
  {
    if ss != [] {
      FlattenLength(ss[1..]);
    }
  }

  /** Question `j` of section `s` lands at position `Offset(ss, s) + j`, tagged
      with the section's category; with the length above this determines the list. */
  lemma {:induction false} FlattenAt(ss: seq<GeneratedSection>, s: int, j: int)
    requires 0 <= s < |ss| && 0 <= j < |ss[s].questions|
    ensures Offset(ss, s) + j < |Flatten(ss)|
    ensures Flatten(ss)[Offset(ss, s) + j] == Tag(ss[s].category, ss[s].questions[j])
  {
    if s > 0 {
      FlattenAt(ss[1..], s - 1, j);
      assert ss[1..][s - 1] == ss[s];
    }
  }

  /** Sections occupy consecutive, non-overlapping blocks in their order. */
  lemma {:induction false} OffsetMonotone(ss: seq<GeneratedSection>, s: int)
    requires 0 <= s < |ss|
    ensures Offset(ss, s + 1) == Offset(ss, s) + |ss[s].questions|
  {
    if s > 0 {
      OffsetMonotone(ss[1..], s - 1);
      assert ss[1..][s - 1] == ss[s];
    }
  }
}
