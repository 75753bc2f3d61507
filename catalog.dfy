/** The question catalog as loaded from questions.json: question sets, their
    questions, and the lookup the solve view uses to open a set by id. */
module Catalog {

  datatype Option<T> = None | Some(value: T)

  /** One multiple-choice question: its id (the key of the progress lists),
      how many option buttons it renders and the zero-based correct index. */
  datatype Question = Question(id: string, optionCount: nat, answer: nat)

  /** A set either carries a `questions` array, or is itself the single
      question (its own id, options and answer). */
  datatype Body =
    | Listed(questions: seq<Question>)
    | Inline(optionCount: nat, answer: nat)

  datatype QuestionSet = QuestionSet(
    id: string,
    title: string,
    category: string,
    targetTimeSec: int,
    hasPassages: bool,  // a `passages` array is present
    hasPassage: bool,   // a single `passage` text is present
    body: Body)

  /** The questions a set is graded on: the `questions` array, or the set
      itself read as one question. */
  function Questions(s: QuestionSet): (qs: seq<Question>)
    ensures s.body.Listed? ==> qs == s.body.questions
    ensures s.body.Inline? ==>
              |qs| == 1 && qs[0].id == s.id &&
              qs[0].optionCount == s.body.optionCount && qs[0].answer == s.body.answer
  {
    match s.body
    case Listed(qs) => qs
    case Inline(n, a) => [Question(s.id, n, a)]
  }

  /** The ids the status engine checks. */
  function QuestionIds(s: QuestionSet): (ids: seq<string>)
    ensures |ids| == |Questions(s)|
    ensures forall i :: 0 <= i < |ids| ==> ids[i] == Questions(s)[i].id
  {
    var qs := Questions(s);
    seq(|qs|, i requires 0 <= i < |qs| => qs[i].id)
  }

  /** `allSets.find(s => s.id === setId)`: the first set with that id. */
  function FindSet(catalog: seq<QuestionSet>, setId: string): (r: Option<QuestionSet>)
    ensures r.None? <==> forall k :: 0 <= k < |catalog| ==> catalog[k].id != setId
    ensures r.Some? ==> exists k :: 0 <= k < |catalog| && catalog[k] == r.value
                           && forall j :: 0 <= j < k ==> catalog[j].id != setId
    ensures r.Some? ==> r.value.id == setId
  {
    if catalog == [] then None
    else if catalog[0].id == setId then Some(catalog[0])
    else
      var r := FindSet(catalog[1..], setId);
      if r.Some? then
        ghost var k :| 0 <= k < |catalog[1..]| && catalog[1..][k] == r.value
                       && forall j :: 0 <= j < k ==> catalog[1..][j].id != setId;
        assert catalog[k + 1] == r.value;
        r
      else r
  }
}
