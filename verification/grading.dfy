/**
 * Quiz grading, `POST /api/lectures/:lectureId/submit` of server/src/app.js:
 * the score counts the lecture's questions whose selected option is a
 * correct option of that question; the result is recorded in the caller's
 * single progress row for the lecture, inserted on the first submission
 * and overwritten on later ones. The row's status is `passed_quiz` whether
 * or not the attempt passed.
 */
module Grading {
  import opened Wrappers
  import opened Rows
  import opened Schema
  import opened Http
  import opened Queries

  /**
   * The `answers` object, by question id, after `Number(...)`: an entry holds
   * the option id a value converts to. A key with no entry is a missing
   * answer; so is any value whose conversion is NaN or 0 (`if
   * (!selectedOptionId) continue`), which the model writes as an entry of 0.
   */
  type Answers = map<int, int>

  /** The option id chosen for question `questionId`; 0 when none is. */
  function Selected(answers: Answers, questionId: int): int {
    if questionId in answers then answers[questionId] else 0
  }

  function OnLecture(lectureId: int): Question -> bool { (q: Question) => q.lectureId == lectureId }

  /** `SELECT id FROM questions WHERE lecture_id = ?`, in table order. */
  function QuestionsOf(db: Db, lectureId: int): (qs: seq<Question>)
    ensures forall q :: q in qs <==> q in db.questions && q.lectureId == lectureId
  {
    Filter(db.questions, OnLecture(lectureId))
  }

  function OptionOf(optionId: int, questionId: int): AnswerOption -> bool {
    (o: AnswerOption) => o.id == optionId && o.questionId == questionId
  }

  /** `SELECT is_correct FROM options WHERE id = ? AND question_id = ?` with `.get()`. */
  function FindOption(db: Db, optionId: int, questionId: int): (r: Option<AnswerOption>)
    ensures r.Some? ==> r.value in db.options && r.value.id == optionId && r.value.questionId == questionId
    ensures r.None? <==> forall o :: o in db.options ==> o.id != optionId || o.questionId != questionId
  {
    var r := Find(db.options, OptionOf(optionId, questionId));
    assert r.None? ==> forall o :: o in db.options ==> o.id != optionId || o.questionId != questionId by {
      if r.None? {
        forall o | o in db.options ensures o.id != optionId || o.questionId != questionId {
          var i :| 0 <= i < |db.options| && db.options[i] == o;
          assert !OptionOf(optionId, questionId)(db.options[i]);
        }
      }
    }
    r
  }

  /** Option ids are distinct in a valid state. */
  lemma SameOptionId(db: Db, o1: AnswerOption, o2: AnswerOption)
    requires Valid(db) && o1 in db.options && o2 in db.options && o1.id == o2.id
    ensures o1 == o2
  {
    var i :| 0 <= i < |db.options| && db.options[i] == o1;
    var j :| 0 <= j < |db.options| && db.options[j] == o2;
    assert Unique(db.options, OptionId);
    assert OptionId(db.options[i]) == OptionId(db.options[j]);
  }

  /**
   * One iteration of the grading loop: whether it increments the score. In a
   * valid state that is when an answer is given and it names a correct
   * option of this question.
   */
  function Credit(db: Db, answers: Answers, q: Question): (c: bool)
    ensures Valid(db) ==> (c <==> Selected(answers, q.id) != 0 &&
                                  exists o :: o in db.options && o.id == Selected(answers, q.id) &&
                                              o.questionId == q.id && o.isCorrect)
  {
    var sel := Selected(answers, q.id);
    if sel == 0 then false
    else
      var found := FindOption(db, sel, q.id);
      assert Valid(db) && found.Some? ==>
        forall o :: o in db.options && o.id == sel ==> o == found.value by {
        if Valid(db) && found.Some? {
          forall o | o in db.options && o.id == sel ensures o == found.value {
            SameOptionId(db, o, found.value);
          }
        }
      }
      found.Some? && found.value.isCorrect
  }

  /** The loop's final `score`. */
  function Score(db: Db, answers: Answers, qs: seq<Question>): (score: nat)
    ensures score <= |qs|
    decreases |qs|
  {
    if |qs| == 0 then 0
    else (if Credit(db, answers, qs[|qs| - 1]) then 1 else 0) + Score(db, answers, qs[..|qs| - 1])
  }

  function Credited(db: Db, answers: Answers): Question -> bool { (q: Question) => Credit(db, answers, q) }

  /** The score is the number of questions answered with one of their correct options. */
  lemma {:induction false} ScoreCounts(db: Db, answers: Answers, qs: seq<Question>)
    ensures Score(db, answers, qs) == |Filter(qs, Credited(db, answers))|
    decreases |qs|
  {
    if |qs| > 0 {
      var init := qs[..|qs| - 1];
      assert qs == init + [qs[|qs| - 1]];
      ScoreCounts(db, answers, init);
      FilterSnoc(init, qs[|qs| - 1], Credited(db, answers));
    }
  }

  /** Full marks exactly when every question is answered correctly. */
  lemma ScoreFullIff(db: Db, answers: Answers, qs: seq<Question>)
    ensures Score(db, answers, qs) == |qs| <==> forall i :: 0 <= i < |qs| ==> Credit(db, answers, qs[i])
  {
    ScoreCounts(db, answers, qs);
    FilterAll(qs, Credited(db, answers));
  }

  /** No credit without a correct answer: a score of 0 exactly when no question earns credit. */
  lemma ScoreZeroIff(db: Db, answers: Answers, qs: seq<Question>)
    ensures Score(db, answers, qs) == 0 <==> forall i :: 0 <= i < |qs| ==> !Credit(db, answers, qs[i])
  {
    ScoreCounts(db, answers, qs);
    FilterNone(qs, Credited(db, answers));
  }

  /**
   * `total > 0 ? (score / total) >= 0.7 : true`, on integers: 70% or more
   * of the questions, and a quiz without questions always passes.
   */
  predicate Passed(score: nat, total: nat) {
    total == 0 || 10 * score >= 7 * total
  }

  /** The integer rule agrees with the ratio the submit handler compares. */
  lemma PassedIsRatio(score: nat, total: nat)
    requires total > 0
    ensures Passed(score, total) <==> (score as real) / (total as real) >= 0.7
  {
    var s := score as real;
    var t := total as real;
    var r := s / t;
    assert r * t == s;
    if r >= 0.7 {
      assert (r - 0.7) * t >= 0.0;
    } else {
      assert (0.7 - r) * t > 0.0;
    }
  }

  /** The body of a 200 response to a submission. */
  datatype Graded = Graded(score: nat, total: nat, passed: bool)

  /** The grade a submission earns against the lecture's current questions and options. */
  function Grade(db: Db, answers: Answers, lectureId: int): (g: Graded)
    ensures g.total == |QuestionsOf(db, lectureId)| && g.score <= g.total
    ensures g.score == |Filter(QuestionsOf(db, lectureId), Credited(db, answers))|
    ensures g.passed <==> Passed(g.score, g.total)
  {
    var qs := QuestionsOf(db, lectureId);
    var score := Score(db, answers, qs);
    ScoreCounts(db, answers, qs);
    Graded(score, |qs|, Passed(score, |qs|))
  }

  /**
   * The upsert that records a grade: an INSERT of a `passed_quiz` row when
   * the user has no row for the lecture, an UPDATE of score, total and
   * passed otherwise.
   */
  function Record(db: Db, userId: int, lecture: Lecture, g: Graded): (st: Step<Graded>)
    ensures st.response.Err? ==> st.db == db
    ensures st.response.Ok? ==> st.response.value == g
    ensures st.db.users == db.users && st.db.courses == db.courses && st.db.lectures == db.lectures
    ensures st.db.questions == db.questions && st.db.options == db.options
    ensures Valid(db) ==> Valid(st.db)
  {
    if !HasCompletedLecture(db, userId, lecture.id) then
      match InsertProgress(db, userId, lecture.courseId, lecture.id, PassedQuiz,
                           Some(g.score as int), Some(g.total as int), Some(g.passed))
      case Err(_) => Step(db, Err(InternalError))
      case Ok((db', _)) => Step(db', Ok(g))
    else
      Step(UpdateProgress(db, userId, lecture.id, g.score, g.total, g.passed), Ok(g))
  }

  /**
   * `POST /api/lectures/:lectureId/submit`: 404 for an unknown lecture, 400
   * for a reading, 400 without an answers object, otherwise the grade,
   * recorded by `Record`.
   */
  function SubmitQuiz(db: Db, caller: Claims, lectureId: int, answers: Option<Answers>): (st: Step<Graded>)
    ensures !LectureExists(db, lectureId) ==> st == Step(db, Err(NotFound("Lecture not found")))
    ensures LectureExists(db, lectureId) && FindLecture(db, lectureId).value.kind != Quiz ==>
              st == Step(db, Err(BadRequest("Not a quiz lecture")))
    ensures LectureExists(db, lectureId) && FindLecture(db, lectureId).value.kind == Quiz && answers.None? ==>
              st == Step(db, Err(BadRequest("answers object required")))
    ensures LectureExists(db, lectureId) && FindLecture(db, lectureId).value.kind == Quiz && answers.Some? ==>
              st == Record(db, caller.id, FindLecture(db, lectureId).value, Grade(db, answers.value, lectureId))
    ensures st.response.Err? ==> st.db == db
    ensures st.response.Ok? ==> answers.Some? && st.response.value == Grade(db, answers.value, lectureId)
    ensures Valid(db) ==> Valid(st.db)
  {
    match FindLecture(db, lectureId)
    case None => Step(db, Err(NotFound("Lecture not found")))
    case Some(lecture) =>
      if lecture.kind != Quiz then Step(db, Err(BadRequest("Not a quiz lecture")))
      else if answers.None? then Step(db, Err(BadRequest("answers object required")))
      else Record(db, caller.id, lecture, Grade(db, answers.value, lectureId))
  }

  /**
   * The upsert fails only when the INSERT it chooses would break a foreign
   * key: it succeeds exactly when the pair already has a row, or the user,
   * the course and the lecture all exist.
   */
  lemma RecordSucceeds(db: Db, userId: int, lecture: Lecture, g: Graded)
    ensures Record(db, userId, lecture, g).response.Ok? <==>
              HasCompletedLecture(db, userId, lecture.id) ||
              (UserExists(db, userId) && CourseExists(db, lecture.courseId) && LectureExists(db, lecture.id))
  {
  }

  /**
   * A quiz submission with an answers object by a stored user is always
   * graded: missing, zero or foreign answers lower the score but never
   * cause an error.
   */
  lemma SubmitSucceeds(db: Db, caller: Claims, lectureId: int, answers: Answers)
    requires Valid(db) && UserExists(db, caller.id)
    requires LectureExists(db, lectureId) && FindLecture(db, lectureId).value.kind == Quiz
    ensures SubmitQuiz(db, caller, lectureId, Some(answers)).response == Ok(Grade(db, answers, lectureId))
  {
    var lecture := FindLecture(db, lectureId).value;
    var i :| 0 <= i < |db.lectures| && db.lectures[i] == lecture;
    assert CourseExists(db, db.lectures[i].courseId);
    RecordSucceeds(db, caller.id, lecture, Grade(db, answers, lectureId));
  }

  /** The one row a successful submission leaves for the user and the lecture holds its grade. */
  predicate Records(db: Db, userId: int, lectureId: int, g: Graded) {
    |RowsFor(db, userId, lectureId)| == 1 &&
    var p := RowsFor(db, userId, lectureId)[0];
    p.score == Some(g.score as int) && p.total == Some(g.total as int) && p.passed == Some(g.passed)
  }

  /** In a valid state a (user, lecture) pair has at most one row. */
  lemma AtMostOneRow(db: Db, userId: int, lectureId: int)
    requires Valid(db)
    ensures |RowsFor(db, userId, lectureId)| <= 1
  {
    var rs := RowsFor(db, userId, lectureId);
    FilterUnique(db.progress, ForPair(userId, lectureId), ProgressPair);
    if |rs| >= 2 {
      assert rs[0] in rs && rs[1] in rs;
      UniqueHeads(rs, ProgressPair);
    }
  }

  /** A first recording appends the user's row for the lecture, with the grade. */
  lemma RecordFirstAppends(db: Db, userId: int, lecture: Lecture, g: Graded)
    requires !HasCompletedLecture(db, userId, lecture.id)
    requires Record(db, userId, lecture, g).response.Ok?
    ensures var st := Record(db, userId, lecture, g);
            && |st.db.progress| == |db.progress| + 1
            && st.db.progress[..|db.progress|] == db.progress
            && st.db.progress[|db.progress|] ==
                 Progress(st.db.progress[|db.progress|].id, userId, lecture.courseId, lecture.id,
                          PassedQuiz, Some(g.score as int), Some(g.total as int), Some(g.passed))
  {
  }

  /**
   * A later recording only rescores: the progress table keeps its length,
   * every row keeps its id, pair, course and status, the user's row for the
   * lecture takes the grade, and rows of other pairs do not change.
   */
  lemma RecordAgainRescores(db: Db, userId: int, lecture: Lecture, g: Graded)
    requires HasCompletedLecture(db, userId, lecture.id)
    ensures var st := Record(db, userId, lecture, g);
            && st.response == Ok(g)
            && |st.db.progress| == |db.progress|
            && (forall i :: 0 <= i < |db.progress| ==>
                  && st.db.progress[i].id == db.progress[i].id
                  && ProgressPair(st.db.progress[i]) == ProgressPair(db.progress[i])
                  && st.db.progress[i].courseId == db.progress[i].courseId
                  && st.db.progress[i].status == db.progress[i].status)
            && (forall i :: 0 <= i < |db.progress| && ProgressPair(db.progress[i]) == (userId, lecture.id) ==>
                  st.db.progress[i].score == Some(g.score as int) && st.db.progress[i].total == Some(g.total as int) &&
                  st.db.progress[i].passed == Some(g.passed))
            && (forall i :: 0 <= i < |db.progress| && ProgressPair(db.progress[i]) != (userId, lecture.id) ==>
                  st.db.progress[i] == db.progress[i])
  {
  }

  /** Every row of the pair holds the grade after a successful recording. */
  lemma RecordedRowsHoldGrade(db: Db, userId: int, lecture: Lecture, g: Graded, i: int)
    requires Record(db, userId, lecture, g).response.Ok?
    requires 0 <= i < |Record(db, userId, lecture, g).db.progress|
    requires ProgressPair(Record(db, userId, lecture, g).db.progress[i]) == (userId, lecture.id)
    ensures var p := Record(db, userId, lecture, g).db.progress[i];
            p.score == Some(g.score as int) && p.total == Some(g.total as int) && p.passed == Some(g.passed)
  {
    var st := Record(db, userId, lecture, g);
    if HasCompletedLecture(db, userId, lecture.id) {
      RecordAgainRescores(db, userId, lecture, g);
    } else {
      RecordFirstAppends(db, userId, lecture, g);
    }
  }

  /** After a successful recording the pair has some row. */
  lemma RecordLeavesRow(db: Db, userId: int, lecture: Lecture, g: Graded) returns (i: int)
    requires Record(db, userId, lecture, g).response.Ok?
    ensures 0 <= i < |Record(db, userId, lecture, g).db.progress|
    ensures ProgressPair(Record(db, userId, lecture, g).db.progress[i]) == (userId, lecture.id)
  {
    var st := Record(db, userId, lecture, g);
    if HasCompletedLecture(db, userId, lecture.id) {
      RecordAgainRescores(db, userId, lecture, g);
      var p :| p in db.progress && p.userId == userId && p.lectureId == lecture.id;
      i :| 0 <= i < |db.progress| && db.progress[i] == p;
    } else {
      RecordFirstAppends(db, userId, lecture, g);
      i := |db.progress|;
    }
  }

  /**
   * After a successful recording the user has exactly one row for the
   * lecture, holding the grade, whether the attempt passed or not and
   * whether it was the first.
   */
  lemma RecordRecordsLatest(db: Db, userId: int, lecture: Lecture, g: Graded)
    requires Valid(db)
    requires Record(db, userId, lecture, g).response.Ok?
    ensures Records(Record(db, userId, lecture, g).db, userId, lecture.id, g)
  {
    var st := Record(db, userId, lecture, g);
    var rs := RowsFor(st.db, userId, lecture.id);
    assert |rs| == 1 by {
      AtMostOneRow(st.db, userId, lecture.id);
      var i := RecordLeavesRow(db, userId, lecture, g);
      assert st.db.progress[i] in rs;
    }
    assert rs[0] in st.db.progress;
    var k :| 0 <= k < |st.db.progress| && st.db.progress[k] == rs[0];
    RecordedRowsHoldGrade(db, userId, lecture, g, k);
  }

  /**
   * After a successful submission the caller has exactly one row for the
   * lecture, holding the grade just returned.
   */
  lemma SubmitRecordsLatest(db: Db, caller: Claims, lectureId: int, answers: Option<Answers>)
    requires Valid(db)
    requires SubmitQuiz(db, caller, lectureId, answers).response.Ok?
    ensures var st := SubmitQuiz(db, caller, lectureId, answers);
            Records(st.db, caller.id, lectureId, st.response.value)
  {
    var lecture := FindLecture(db, lectureId).value;
    RecordRecordsLatest(db, caller.id, lecture, Grade(db, answers.value, lectureId));
  }

  /** The score depends on the options only, so a state with the same options grades alike. */
  lemma {:induction false} ScoreFrame(db: Db, db': Db, answers: Answers, qs: seq<Question>)
    requires db'.options == db.options
    ensures Score(db', answers, qs) == Score(db, answers, qs)
    decreases |qs|
  {
    if |qs| > 0 {
      ScoreFrame(db, db', answers, qs[..|qs| - 1]);
    }
  }

  /** Recording the same grade again changes nothing. */
  lemma RecordIdempotent(db: Db, userId: int, lecture: Lecture, g: Graded)
    requires Record(db, userId, lecture, g).response.Ok?
    ensures var st := Record(db, userId, lecture, g);
            Record(st.db, userId, lecture, g) == st
  {
    var st := Record(db, userId, lecture, g);
    var i := RecordLeavesRow(db, userId, lecture, g);
    assert st.db.progress[i] in st.db.progress;
    var again := Record(st.db, userId, lecture, g);
    RecordAgainRescores(st.db, userId, lecture, g);
    assert again.db.progress == st.db.progress by {
      forall k | 0 <= k < |st.db.progress| ensures again.db.progress[k] == st.db.progress[k] {
        if ProgressPair(st.db.progress[k]) == (userId, lecture.id) {
          RecordedRowsHoldGrade(db, userId, lecture, g, k);
        }
      }
    }
  }

  /** Submitting the same answers again returns the same grade and changes nothing. */
  lemma SubmitIdempotent(db: Db, caller: Claims, lectureId: int, answers: Option<Answers>)
    requires SubmitQuiz(db, caller, lectureId, answers).response.Ok?
    ensures var st := SubmitQuiz(db, caller, lectureId, answers);
            SubmitQuiz(st.db, caller, lectureId, answers) == st
  {
    var st := SubmitQuiz(db, caller, lectureId, answers);
    var lecture := FindLecture(db, lectureId).value;
    var g := Grade(db, answers.value, lectureId);
    assert FindLecture(st.db, lectureId) == FindLecture(db, lectureId);
    assert QuestionsOf(st.db, lectureId) == QuestionsOf(db, lectureId);
    ScoreFrame(db, st.db, answers.value, QuestionsOf(db, lectureId));
    assert Grade(st.db, answers.value, lectureId) == g;
    RecordIdempotent(db, caller.id, lecture, g);
  }

  /** A lecture without questions grades 0 of 0, which passes. */
  lemma EmptyQuizPasses(db: Db, answers: Answers, lectureId: int)
    requires forall q :: q in db.questions ==> q.lectureId != lectureId
    ensures Grade(db, answers, lectureId) == Graded(0, 0, true)
  {
  }

  /** Recording a grade of at most full marks for a quiz keeps the handlers' invariants. */
  lemma RecordConsistent(db: Db, userId: int, lecture: Lecture, g: Graded)
    requires Valid(db) && Consistent(db)
    requires lecture in db.lectures && lecture.kind == Quiz && g.score <= g.total
    ensures Consistent(Record(db, userId, lecture, g).db)
  {
    var st := Record(db, userId, lecture, g);
    if st.response.Ok? {
      assert forall c :: LecturesOf(st.db, c) == LecturesOf(db, c);
      if HasCompletedLecture(db, userId, lecture.id) {
        RecordAgainConsistent(db, userId, lecture, g);
      } else {
        RecordFirstConsistent(db, userId, lecture, g);
      }
    }
  }

  /** An appended row names a quiz of its course with 0 <= score <= total, and the other rows are untouched. */
  lemma RecordFirstConsistent(db: Db, userId: int, lecture: Lecture, g: Graded)
    requires Consistent(db)
    requires lecture in db.lectures && lecture.kind == Quiz && g.score <= g.total
    requires !HasCompletedLecture(db, userId, lecture.id)
    requires Record(db, userId, lecture, g).response.Ok?
    ensures var st := Record(db, userId, lecture, g);
            forall i :: 0 <= i < |st.db.progress| ==> RecordMatchesLecture(st.db, st.db.progress[i])
  {
    var st := Record(db, userId, lecture, g);
    RecordFirstAppends(db, userId, lecture, g);
    forall i | 0 <= i < |st.db.progress| ensures RecordMatchesLecture(st.db, st.db.progress[i]) {
      if i < |db.progress| {
        assert st.db.progress[i] == st.db.progress[..|db.progress|][i];
        assert RecordMatchesLecture(db, db.progress[i]);
      } else {
        assert lecture in st.db.lectures;
      }
    }
  }

  /** A rescored row still fits its quiz lecture, and the other rows are untouched. */
  lemma RecordAgainConsistent(db: Db, userId: int, lecture: Lecture, g: Graded)
    requires Valid(db) && Consistent(db)
    requires lecture in db.lectures && lecture.kind == Quiz && g.score <= g.total
    requires HasCompletedLecture(db, userId, lecture.id)
    ensures var st := Record(db, userId, lecture, g);
            forall i :: 0 <= i < |st.db.progress| ==> RecordMatchesLecture(st.db, st.db.progress[i])
  {
    var st := Record(db, userId, lecture, g);
    RecordAgainRescores(db, userId, lecture, g);
    forall i | 0 <= i < |st.db.progress| ensures RecordMatchesLecture(st.db, st.db.progress[i]) {
      RescoredRowMatches(db, userId, lecture, g, i);
    }
  }

  /** One row after a rescore still fits its lecture. */
  lemma RescoredRowMatches(db: Db, userId: int, lecture: Lecture, g: Graded, i: int)
    requires Valid(db) && Consistent(db)
    requires lecture in db.lectures && lecture.kind == Quiz && g.score <= g.total
    requires HasCompletedLecture(db, userId, lecture.id)
    requires 0 <= i < |db.progress|
    ensures var st := Record(db, userId, lecture, g);
            i < |st.db.progress| && RecordMatchesLecture(st.db, st.db.progress[i])
  {
    var st := Record(db, userId, lecture, g);
    RecordAgainRescores(db, userId, lecture, g);
    var p := db.progress[i];
    var p' := st.db.progress[i];
    assert p in db.progress;
    if ProgressPair(p) == (userId, lecture.id) {
      RowCourse(db, p, lecture);
      assert lecture in st.db.lectures && lecture.id == p'.lectureId && lecture.courseId == p'.courseId;
      assert ShapeFits(lecture.kind, p');
    } else {
      assert p' == p;
      assert RecordMatchesLecture(db, p);
      var l :| l in db.lectures && l.id == p.lectureId && l.courseId == p.courseId && ShapeFits(l.kind, p);
      assert l in st.db.lectures;
    }
  }

  /** Submission keeps the handlers' invariants: the row names a quiz of its course, with 0 <= score <= total. */
  lemma SubmitConsistent(db: Db, caller: Claims, lectureId: int, answers: Option<Answers>)
    requires Valid(db) && Consistent(db)
    ensures Consistent(SubmitQuiz(db, caller, lectureId, answers).db)
  {
    if LectureExists(db, lectureId) && FindLecture(db, lectureId).value.kind == Quiz && answers.Some? {
      var lecture := FindLecture(db, lectureId).value;
      RecordConsistent(db, caller.id, lecture, Grade(db, answers.value, lectureId));
    }
  }
}
