/** What grading a set does, as values: how the solved and attempted lists
    grow, which option buttons get marked, and the time verdict. */
module Grading {
  import opened Catalog
  import opened Status
  import opened Timing

  /** The class an option button carries after grading. */
  datatype Mark = Plain | Correct | Wrong

  /** The outcome shown on one question card: a mark per option button and
      whether its explanation panel is displayed. */
  datatype QuestionMarks = QuestionMarks(questionId: string, buttons: seq<Mark>, explanationShown: bool)

  /** What a grading action reports: the whole seconds elapsed, the verdict
      and the marks of every question card in order. */
  datatype Report = Report(finalTime: int, verdict: Verdict, marks: seq<QuestionMarks>)

  /** The marks of one question: the button of the correct index is marked
      correct; the selected button is marked wrong when it is not the
      correct one; buttons beyond the rendered options do not exist. */
  function MarkQuestion(q: Question, sel: map<string, nat>): (m: QuestionMarks)
    ensures m.questionId == q.id && |m.buttons| == q.optionCount && m.explanationShown
    ensures q.answer < q.optionCount ==> m.buttons[q.answer] == Correct
    ensures forall i :: 0 <= i < |m.buttons| && m.buttons[i] == Correct ==> i == q.answer
    ensures forall i :: 0 <= i < |m.buttons| ==>
              (m.buttons[i] == Wrong <==> q.id in sel && sel[q.id] == i && i != q.answer)
  {
    QuestionMarks(
      q.id,
      seq(q.optionCount, i requires 0 <= i < q.optionCount =>
        if i == q.answer then Correct
        else if q.id in sel && sel[q.id] == i then Wrong
        else Plain),
      true)
  }

  /** A card shows a wrong mark exactly when the question was answered with
      another (existing) option; a correct selection or none leaves none. */
  lemma WrongMarkIffMissed(q: Question, sel: map<string, nat>)
    ensures (exists i :: 0 <= i < |MarkQuestion(q, sel).buttons| && MarkQuestion(q, sel).buttons[i] == Wrong)
            <==> q.id in sel && sel[q.id] != q.answer && sel[q.id] < q.optionCount
  {
    var m := MarkQuestion(q, sel);
    if q.id in sel && sel[q.id] != q.answer && sel[q.id] < q.optionCount {
      assert m.buttons[sel[q.id]] == Wrong;
    }
  }

  /** The marks of every question of the set, in order. */
  function MarkAll(qs: seq<Question>, sel: map<string, nat>): (ms: seq<QuestionMarks>)
    ensures |ms| == |qs|
    ensures forall i :: 0 <= i < |qs| ==> ms[i] == MarkQuestion(qs[i], sel)
  {
    seq(|qs|, i requires 0 <= i < |qs| => MarkQuestion(qs[i], sel))
  }

  /** One question's effect on the lists: append the id to `attempted` if
      it was answered and to `solved` if it was answered correctly, each
      only when not already present. */
  function GradeQuestion(q: Question, sel: map<string, nat>, p: Progress): (r: Progress)
    ensures p.solved <= r.solved && |r.solved| <= |p.solved| + 1
    ensures p.attempted <= r.attempted && |r.attempted| <= |p.attempted| + 1
    ensures q.id in sel ==> q.id in r.attempted
    ensures q.id in sel && sel[q.id] == q.answer ==> q.id in r.solved
  {
    var answered := q.id in sel;
    var correct := answered && sel[q.id] == q.answer;
    Progress(
      if correct && q.id !in p.solved then p.solved + [q.id] else p.solved,
      if answered && q.id !in p.attempted then p.attempted + [q.id] else p.attempted)
  }

  /** The lists after grading the questions in order. */
  function GradeAll(qs: seq<Question>, sel: map<string, nat>, p: Progress): (r: Progress)
    ensures |r.solved| <= |p.solved| + |qs|
    ensures |r.attempted| <= |p.attempted| + |qs|
  {
    if qs == [] then p
    else GradeQuestion(qs[|qs| - 1], sel, GradeAll(qs[..|qs| - 1], sel, p))
  }

  /** The question with id `x` at index `i` of `qs` was answered correctly. */
  ghost predicate SolvedAt(qs: seq<Question>, sel: map<string, nat>, x: string, i: int)
  {
    0 <= i < |qs| && qs[i].id == x && x in sel && sel[x] == qs[i].answer
  }

  /** Grading only appends: both old lists are prefixes of the new ones. */
  lemma {:induction false} GradeAllAppendOnly(qs: seq<Question>, sel: map<string, nat>, p: Progress)
    ensures p.solved <= GradeAll(qs, sel, p).solved
    ensures p.attempted <= GradeAll(qs, sel, p).attempted
  {
    if qs != [] {
      GradeAllAppendOnly(qs[..|qs| - 1], sel, p);
    }
  }

  /** What ends up in the lists: an id is attempted afterwards exactly when
      it was before or some question of the set with that id was answered;
      it is solved afterwards exactly when it was before or some question
      with that id was answered with its correct index. Ids of other
      questions keep their membership. */
  lemma {:induction false} GradeAllMembers(qs: seq<Question>, sel: map<string, nat>, p: Progress, x: string)
    ensures x in GradeAll(qs, sel, p).attempted <==>
              x in p.attempted || (x in sel && exists i :: 0 <= i < |qs| && qs[i].id == x)
    ensures x in GradeAll(qs, sel, p).solved <==>
              x in p.solved || exists i :: SolvedAt(qs, sel, x, i)
  {
    if qs != [] {
      var n := |qs| - 1;
      var before := GradeAll(qs[..n], sel, p);
      GradeAllMembers(qs[..n], sel, p, x);
      assert GradeAll(qs, sel, p) == GradeQuestion(qs[n], sel, before);
      assert x in GradeAll(qs, sel, p).solved <==> x in before.solved || SolvedAt(qs, sel, x, n);
      if exists i :: SolvedAt(qs, sel, x, i) {
        var i :| SolvedAt(qs, sel, x, i);
        if i < n {
          assert SolvedAt(qs[..n], sel, x, i);
        }
      }
      if exists i :: SolvedAt(qs[..n], sel, x, i) {
        var i :| SolvedAt(qs[..n], sel, x, i);
        assert SolvedAt(qs, sel, x, i);
      }
      if x in sel && exists i :: 0 <= i < |qs| && qs[i].id == x {
        var i :| 0 <= i < |qs| && qs[i].id == x;
        if i < n {
          assert qs[..n][i].id == x;
        }
      }
    }
  }

  /** Appending an absent id keeps a list free of duplicates. */
  lemma AppendAbsent(xs: seq<string>, x: string)
    requires NoDuplicates(xs) && x !in xs
    ensures NoDuplicates(xs + [x])
  {
  }

  /** The membership guards keep both lists free of duplicates. */
  lemma {:induction false} GradeAllNoDuplicates(qs: seq<Question>, sel: map<string, nat>, p: Progress)
    ensures NoDuplicates(p.solved) ==> NoDuplicates(GradeAll(qs, sel, p).solved)
    ensures NoDuplicates(p.attempted) ==> NoDuplicates(GradeAll(qs, sel, p).attempted)
  {
    if qs != [] {
      var n := |qs| - 1;
      var before := GradeAll(qs[..n], sel, p);
      GradeAllNoDuplicates(qs[..n], sel, p);
      if NoDuplicates(before.solved) && qs[n].id !in before.solved {
        AppendAbsent(before.solved, qs[n].id);
      }
      if NoDuplicates(before.attempted) && qs[n].id !in before.attempted {
        AppendAbsent(before.attempted, qs[n].id);
      }
    }
  }

  /** When every id grading would add is already present, nothing changes. */
  lemma {:induction false} GradeAllFixpoint(qs: seq<Question>, sel: map<string, nat>, p: Progress)
    requires forall i :: 0 <= i < |qs| && qs[i].id in sel ==> qs[i].id in p.attempted
    requires forall i :: 0 <= i < |qs| && qs[i].id in sel && sel[qs[i].id] == qs[i].answer ==> qs[i].id in p.solved
    ensures GradeAll(qs, sel, p) == p
  {
    if qs != [] {
      var n := |qs| - 1;
      assert forall i :: 0 <= i < n ==> qs[..n][i] == qs[i];
      GradeAllFixpoint(qs[..n], sel, p);
    }
  }

  /** Grading twice with the same selections leaves the lists as the first
      grading left them. */
  lemma GradeAllIdempotent(qs: seq<Question>, sel: map<string, nat>, p: Progress)
    ensures GradeAll(qs, sel, GradeAll(qs, sel, p)) == GradeAll(qs, sel, p)
  {
    var once := GradeAll(qs, sel, p);
    forall i | 0 <= i < |qs| && qs[i].id in sel
      ensures qs[i].id in once.attempted
      ensures sel[qs[i].id] == qs[i].answer ==> qs[i].id in once.solved
    {
      GradeAllMembers(qs, sel, p, qs[i].id);
      if sel[qs[i].id] == qs[i].answer {
        assert SolvedAt(qs, sel, qs[i].id, i);
      }
    }
    GradeAllFixpoint(qs, sel, once);
  }

  /** Answering every question of a set correctly makes the set solved. */
  lemma AllCorrectSolvesSet(s: QuestionSet, sel: map<string, nat>, p: Progress)
    requires forall i :: 0 <= i < |Questions(s)| ==>
               Questions(s)[i].id in sel && sel[Questions(s)[i].id] == Questions(s)[i].answer
    ensures GetSetStatus(s, GradeAll(Questions(s), sel, p)) == Solved
  {
    var qs := Questions(s);
    var after := GradeAll(qs, sel, p);
    forall id | id in QuestionIds(s) ensures id in after.solved {
      var i :| 0 <= i < |qs| && QuestionIds(s)[i] == id;
      GradeAllMembers(qs, sel, p, id);
      assert SolvedAt(qs, sel, id, i);
    }
  }

  /** Answering any question of a set makes it at least attempted. */
  lemma AnsweredSetIsNotUnsolved(s: QuestionSet, sel: map<string, nat>, p: Progress, i: nat)
    requires i < |Questions(s)| && Questions(s)[i].id in sel
    ensures GetSetStatus(s, GradeAll(Questions(s), sel, p)) != Unsolved
  {
    var qs := Questions(s);
    var after := GradeAll(qs, sel, p);
    GradeAllMembers(qs, sel, p, qs[i].id);
    assert QuestionIds(s)[i] == qs[i].id;
  }

  /** gradeCurrentSet on a set as values: the report it shows. */
  function GradeReport(s: QuestionSet, sel: map<string, nat>, elapsedMs: int): (r: Report)
    ensures r.finalTime * 1000 <= elapsedMs < r.finalTime * 1000 + 1000
    ensures r.verdict == OnTarget <==> r.finalTime <= s.targetTimeSec
    ensures |r.marks| == |Questions(s)|
    ensures forall i :: 0 <= i < |r.marks| ==> r.marks[i].explanationShown
    ensures r.marks == MarkAll(Questions(s), sel)
  {
    Report(ElapsedSeconds(elapsedMs), GradeVerdict(elapsedMs, s.targetTimeSec), MarkAll(Questions(s), sel))
  }
}
