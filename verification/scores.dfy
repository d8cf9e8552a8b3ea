/** The score query: student, score and course joined on their keys and
    filtered by the student's name. */
module Scores {
  import opened Wrappers
  import opened Schema
  import opened Responses

  /** `row` is the join of score row `sc` and course row `c` through the
      student `sc` names, and that student's name is `name`. */
  predicate Joins(students: map<string, Student>, name: string, sc: Score, c: Course, row: ScoreRow)
  {
    && sc.studentId in students
    && students[sc.studentId].fields.name == name
    && c.courseId == sc.courseId
    && row == ScoreRow(sc.studentId, students[sc.studentId].fields.name, c.courseId, c.courseName, sc.score)
  }

  /** The rows the join gives for one score row. */
  function CourseRows(students: map<string, Student>, name: string, sc: Score, courses: seq<Course>): (rows: seq<ScoreRow>)
    ensures forall row :: row in rows <==> exists c :: c in courses && Joins(students, name, sc, c, row)
  {
    if |courses| == 0 then []
    else
      var c := courses[0];
      var rest := CourseRows(students, name, sc, courses[1..]);
      assert forall c' :: c' in courses <==> c' == c || c' in courses[1..];
      if sc.studentId in students && students[sc.studentId].fields.name == name && c.courseId == sc.courseId
      then
        var row := ScoreRow(sc.studentId, students[sc.studentId].fields.name, c.courseId, c.courseName, sc.score);
        assert Joins(students, name, sc, c, row);
        [row] + rest
      else rest
  }

  /** The rows the join gives for a sequence of score rows. */
  function JoinRows(students: map<string, Student>, courses: seq<Course>, scores: seq<Score>, name: string): (rows: seq<ScoreRow>)
    ensures forall row :: row in rows <==>
      exists sc, c :: sc in scores && c in courses && Joins(students, name, sc, c, row)
  {
    if |scores| == 0 then []
    else
      var here := CourseRows(students, name, scores[0], courses);
      var rest := JoinRows(students, courses, scores[1..], name);
      assert forall sc :: sc in scores <==> sc == scores[0] || sc in scores[1..];
      here + rest
  }

  /** The score page for the `student_name` argument, absent meaning empty.
      An empty name runs no query and answers `None`; any other name answers
      exactly the joined rows of students with that name. Nothing changes. */
  function QueryScores(t: Tables, s: Session, studentName: Option<string>): (r: Step)
    ensures r.tables == t && r.session == s
    ensures r.outcome.ScoresShown?
    ensures r.outcome.name == studentName.GetOr("")
    ensures r.outcome.scores.None? <==> r.outcome.name == ""
    ensures r.outcome.scores.Some? ==> forall row :: row in r.outcome.scores.value <==>
      exists sc, c :: sc in t.scores && c in t.courses && Joins(t.students, r.outcome.name, sc, c, row)
  {
    var name := studentName.GetOr("");
    var scores := if name != "" then Some(JoinRows(t.students, t.courses, t.scores, name)) else None;
    Step(t, s, ScoresShown(name, scores))
  }

  /** Every row of a name search carries the name searched for. */
  lemma RowsCarryQueriedName(t: Tables, s: Session, name: string)
    requires name != ""
    ensures var r := QueryScores(t, s, Some(name));
      && r.outcome.scores.Some?
      && forall i :: 0 <= i < |r.outcome.scores.value| ==> r.outcome.scores.value[i].name == name
  {
    var rows := QueryScores(t, s, Some(name)).outcome.scores.value;
    forall i | 0 <= i < |rows|
      ensures rows[i].name == name
    {
      assert rows[i] in rows;
    }
  }

  /** A score row whose student does not bear `name` joins with no course. */
  lemma {:induction false} NoCourseRowsForOtherName(students: map<string, Student>, name: string, sc: Score, courses: seq<Course>)
    requires sc.studentId in students ==> students[sc.studentId].fields.name != name
    ensures CourseRows(students, name, sc, courses) == []
  {
    if |courses| > 0 {
      NoCourseRowsForOtherName(students, name, sc, courses[1..]);
    }
  }

  /** When no student bears `name`, the join is empty, however many score and course rows there are. */
  lemma {:induction false} NoRowsForUnknownName(students: map<string, Student>, courses: seq<Course>, scores: seq<Score>, name: string)
    requires forall id :: id in students ==> students[id].fields.name != name
    ensures JoinRows(students, courses, scores, name) == []
  {
    if |scores| > 0 {
      NoCourseRowsForOtherName(students, name, scores[0], courses);
      NoRowsForUnknownName(students, courses, scores[1..], name);
    }
  }

  /** A name no student has gives an empty result, which differs from the
      `None` of an empty name: "nothing found" is not "no search". */
  lemma UnknownNameFindsNothing(t: Tables, s: Session, name: string)
    requires name != ""
    requires forall id :: id in t.students ==> t.students[id].fields.name != name
    ensures QueryScores(t, s, Some(name)).outcome.scores == Some([])
    ensures QueryScores(t, s, Some(name)).outcome.scores != QueryScores(t, s, Some("")).outcome.scores
  {
    NoRowsForUnknownName(t.students, t.courses, t.scores, name);
  }
}
