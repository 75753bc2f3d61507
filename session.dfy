/** The controller's global state: the catalog, the open set, the persisted
    progress lists, the selections of the open set and the active tab. */
module Session {
  import opened Catalog
  import opened Status
  import opened Timing
  import opened Grading
  import opened Dashboard

  class Session {
    var catalog: seq<QuestionSet>        // allSets
    var current: Option<QuestionSet>     // currentSet
    var solved: seq<string>              // solvedIds
    var attempted: seq<string>           // attemptedIds
    var selections: map<string, nat>     // userSelections
    var activeCategory: string

    /** The progress lists as one value. */
    function Lists(): Progress
      reads this
    {
      Progress(solved, attempted)
    }

    /** Start-up: the loaded catalog and the lists read back from storage,
        no open set, no selections, the "all" tab active. */
    constructor (loaded: seq<QuestionSet>, storedSolved: seq<string>, storedAttempted: seq<string>)
      ensures catalog == loaded && current == None
      ensures solved == storedSolved && attempted == storedAttempted
      ensures selections == map[] && activeCategory == AllCategory
    {
      catalog := loaded;
      current := None;
      solved := storedSolved;
      attempted := storedAttempted;
      selections := map[];
      activeCategory := AllCategory;
    }

    /** filterByCategory: switch the active tab. */
    method FilterByCategory(category: string)
      modifies this`activeCategory
      ensures activeCategory == category
    {
      activeCategory := category;
    }

    /** startSet: look the set up by id. The lookup result is stored even
        when it fails; only a found set clears the selections. */
    method StartSet(setId: string)
      modifies this`current, this`selections
      ensures current == FindSet(catalog, setId)
      ensures current.Some? ==> current.value.id == setId && selections == map[]
      ensures current.None? ==> selections == old(selections)
    {
      current := FindSet(catalog, setId);
      if current.None? {
        return;
      }
      selections := map[];
    }

    /** selectOption: record the chosen option of one question, replacing
        any earlier choice for it and leaving every other entry alone. */
    method SelectOption(questionId: string, optionIndex: nat)
      modifies this`selections
      ensures questionId in selections && selections[questionId] == optionIndex
      ensures forall k :: k != questionId ==>
                (k in selections <==> k in old(selections)) &&
                (k in selections ==> selections[k] == old(selections)[k])
    {
      selections := selections[questionId := optionIndex];
    }

    /** gradeCurrentSet, given the milliseconds since the set was opened.
        Without an open set it does nothing. Otherwise it walks the
        questions in order, appending to `attempted` and `solved` behind
        membership checks, and reports the marks and the verdict. */
    method Grade(elapsedMs: int) returns (report: Option<Report>)
      modifies this`solved, this`attempted
      ensures old(current).None? ==> report.None? && Lists() == old(Lists())
      ensures old(current).Some? ==>
                Lists() == GradeAll(Questions(current.value), selections, old(Lists())) &&
                report == Some(GradeReport(current.value, selections, elapsedMs))
    {
      if current.None? {
        return None;
      }
      var qs := Questions(current.value);
      ghost var start := Lists();
      var marks: seq<QuestionMarks> := [];
      var i := 0;
      while i < |qs|
        invariant 0 <= i <= |qs|
        invariant Lists() == GradeAll(qs[..i], selections, start)
        invariant |marks| == i
        invariant forall k :: 0 <= k < i ==> marks[k] == MarkQuestion(qs[k], selections)
      {
        var q := qs[i];
        if q.id in selections && q.id !in attempted {
          attempted := attempted + [q.id];
        }
        if q.id in selections && selections[q.id] == q.answer && q.id !in solved {
          solved := solved + [q.id];
        }
        marks := marks + [MarkQuestion(q, selections)];
        assert qs[..i + 1][..i] == qs[..i];
        assert Lists() == GradeQuestion(q, selections, GradeAll(qs[..i], selections, start));
        i := i + 1;
      }
      assert qs[..i] == qs;
      assert marks == MarkAll(qs, selections);
      report := Some(Report(ElapsedSeconds(elapsedMs), GradeVerdict(elapsedMs, current.value.targetTimeSec), marks));
    }

    /** showDashboard: close the open set. */
    method ShowDashboard()
      modifies this`current
      ensures current == None
    {
      current := None;
    }
  }

  /** Two grading sessions on a two-question set: q1 (answer 0) and q2
      (answer 1), target 60 seconds. */
  method GradingScenarios()
  {
    var q1, q2 := Question("q1", 4, 0), Question("q2", 4, 1);
    var s1 := QuestionSet("S1", "T", "A", 60, false, false, Listed([q1, q2]));
    var session := new Session([s1], [], []);

    // q1 answered correctly, q2 left open, graded after 30 seconds.
    session.StartSet("S1");
    session.SelectOption("q1", 0);
    assert "q2" !in session.selections;
    var report := session.Grade(30000);
    assert [q1, q2][..1] == [q1] && [q1][..0] == [];
    assert GradeAll([q1], session.selections, Progress([], [])) == Progress(["q1"], ["q1"]);
    assert session.solved == ["q1"] && session.attempted == ["q1"];
    assert report.Some? && report.value.verdict == OnTarget;
    assert report.value.marks[0].buttons[0] == Correct;
    assert report.value.marks[1].buttons[1] == Correct;
    assert forall k :: 0 <= k < 4 ==> report.value.marks[1].buttons[k] != Wrong;

    // Fresh lists; q1 answered wrongly, graded after 90 seconds.
    session := new Session([s1], [], []);
    session.StartSet("S1");
    session.SelectOption("q1", 1);
    assert "q2" !in session.selections;
    report := session.Grade(90000);
    assert [q1, q2][..1] == [q1] && [q1][..0] == [];
    assert GradeAll([q1], session.selections, Progress([], [])) == Progress([], ["q1"]);
    assert session.solved == [] && session.attempted == ["q1"];
    assert report.Some? && report.value.verdict == OverTime;
    assert report.value.marks[0].buttons[0] == Correct && report.value.marks[0].buttons[1] == Wrong;
  }
}
