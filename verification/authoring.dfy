/**
 * Instructor authoring (server/src/app.js): creating courses, and creating
 * lectures with the next order index. A quiz payload is validated while its
 * rows are being written, after the lecture row is inserted and with no
 * transaction, so a rejected payload leaves the lecture and every question
 * and option inserted before the rejection in place. `CreateLecture` models
 * that; `CreateLectureAtomic` is the all-or-nothing variant.
 */
module Authoring {
  import opened Wrappers
  import opened Rows
  import opened Schema
  import opened Http
  import opened Queries

  /** The body of a 201 response to course creation. */
  datatype CourseView = CourseView(id: int, title: string, description: string)

  /**
   * `POST /api/courses` behind `roleRequired('instructor')`: 403 for other
   * roles, 400 without a title or description, otherwise a course owned by
   * the caller.
   */
  function CreateCourse(db: Db, caller: Claims, title: string, description: string): (st: Step<CourseView>)
    ensures st.response.Err? ==> st.db == db
    ensures caller.role != Instructor ==> st.response == Err(Forbidden("Forbidden"))
    ensures caller.role == Instructor && (title == "" || description == "") ==>
              st.response == Err(BadRequest("title and description required"))
    ensures st.response.Ok? ==>
              && st.response.value.title == title && st.response.value.description == description
              && st.db.courses == db.courses + [Course(st.response.value.id, title, description, caller.id)]
              && st.db.lectures == db.lectures && st.db.progress == db.progress
    ensures st.response.Ok? <==> caller.role == Instructor && title != "" && description != "" &&
                                 UserExists(db, caller.id)
    ensures Valid(db) ==> Valid(st.db)
    ensures Consistent(db) ==> Consistent(st.db)
  {
    if caller.role != Instructor then Step(db, Err(Forbidden("Forbidden")))
    else if title == "" || description == "" then Step(db, Err(BadRequest("title and description required")))
    else
      match InsertCourse(db, title, description, caller.id)
      case Err(_) => Step(db, Err(InternalError))
      case Ok((db', id)) =>
        ConsistentFrame(db, db');
        Step(db', Ok(CourseView(id, title, description)))
  }

  /** One option of a quiz payload; None stands for a `text` that is not a string or an `is_correct` that is not a boolean. */
  datatype OptionPayload = OptionPayload(text: Option<string>, isCorrect: Option<bool>)
  /** One question of a quiz payload; `options` is None when it is not an array. */
  datatype QuestionPayload = QuestionPayload(text: string, options: Option<seq<OptionPayload>>)
  /** The body of `POST /api/courses/:courseId/lectures`; `questions` is None when it is not an array. */
  datatype LecturePayload = LecturePayload(kind: string, title: string, content: Option<string>,
                                           questions: Option<seq<QuestionPayload>>)
  /** The body of a 201 response to lecture creation. */
  datatype LectureCreated = LectureCreated(id: int, courseId: int, orderIndex: int, kind: LectureType, title: string)

  predicate Typed(o: OptionPayload) { o.text.Some? && o.isCorrect.Some? }

  /** How many options lead the list before the first one with a wrong type. */
  function TypedPrefix(os: seq<OptionPayload>): (n: nat)
    ensures n <= |os|
    ensures forall k :: 0 <= k < n ==> Typed(os[k])
    ensures n < |os| ==> !Typed(os[n])
    decreases |os|
  {
    if |os| == 0 || !Typed(os[0]) then 0 else 1 + TypedPrefix(os[1..])
  }

  /** The option row a typed payload entry becomes. */
  predicate StoredAs(row: AnswerOption, questionId: int, o: OptionPayload) {
    row.questionId == questionId && o.text == Some(row.text) && o.isCorrect == Some(row.isCorrect)
  }

  /**
   * The inner loop of lecture creation: insert the options one by one,
   * stopping with 400 "invalid option" at the first one of the wrong type;
   * the options inserted before it stay.
   */
  function AddOptions(db: Db, questionId: int, os: seq<OptionPayload>): (st: Step<()>)
    ensures st.db.users == db.users && st.db.courses == db.courses && st.db.lectures == db.lectures
    ensures st.db.questions == db.questions && st.db.progress == db.progress
    ensures |db.options| <= |st.db.options| && st.db.options[..|db.options|] == db.options
    ensures Valid(db) ==> Valid(st.db)
    ensures QuestionExists(db, questionId) ==>
              && |st.db.options| == |db.options| + TypedPrefix(os)
              && (forall k :: 0 <= k < TypedPrefix(os) ==> StoredAs(st.db.options[|db.options| + k], questionId, os[k]))
              && st.response == (if TypedPrefix(os) == |os| then Ok(()) else Err(BadRequest("invalid option")))
    decreases |os|
  {
    if |os| == 0 then Step(db, Ok(()))
    else if !Typed(os[0]) then Step(db, Err(BadRequest("invalid option")))
    else
      match InsertOption(db, questionId, os[0].text.value, os[0].isCorrect.value)
      case Err(_) => Step(db, Err(InternalError))
      case Ok((db1, _)) =>
        var st := AddOptions(db1, questionId, os[1..]);
        assert QuestionExists(db, questionId) ==> QuestionExists(db1, questionId);
        assert st.db.options[..|db.options|] == db.options by {
          assert st.db.options[..|db1.options|][..|db.options|] == db1.options[..|db.options|];
        }
        assert QuestionExists(db, questionId) ==>
          forall k :: 0 <= k < TypedPrefix(os) ==> StoredAs(st.db.options[|db.options| + k], questionId, os[k]) by {
          if QuestionExists(db, questionId) {
            forall k | 0 <= k < TypedPrefix(os)
              ensures StoredAs(st.db.options[|db.options| + k], questionId, os[k])
            {
              if k == 0 {
                assert st.db.options[|db.options|] == st.db.options[..|db1.options|][|db.options|];
              } else {
                assert os[k] == os[1..][k - 1];
              }
            }
          }
        }
        st
  }

  /** At least one option is marked correct (`q.options.some(o => o.is_correct)`). */
  predicate AnyCorrect(os: seq<OptionPayload>) {
    exists k :: 0 <= k < |os| && os[k].isCorrect == Some(true)
  }

  /** The question passes the shape check made before it is inserted. */
  predicate QuestionShaped(q: QuestionPayload) {
    q.text != "" && q.options.Some? && |q.options.value| >= 2
  }

  /** The rejection a question draws, in the order the checks run; None when it is accepted. */
  function QuestionError(q: QuestionPayload): Option<Failure> {
    if !QuestionShaped(q) then Some(BadRequest("invalid question"))
    else if TypedPrefix(q.options.value) < |q.options.value| then Some(BadRequest("invalid option"))
    else if !AnyCorrect(q.options.value) then Some(BadRequest("at least one correct option required"))
    else None
  }

  /** The rejection of the first rejected question; None when all are accepted. */
  function QuestionsError(qs: seq<QuestionPayload>): (e: Option<Failure>)
    ensures e.None? <==> forall k :: 0 <= k < |qs| ==> QuestionError(qs[k]).None?
    decreases |qs|
  {
    if |qs| == 0 then None
    else if QuestionError(qs[0]).Some? then QuestionError(qs[0])
    else
      assert forall k :: 1 <= k < |qs| ==> qs[k] == qs[1..][k - 1];
      QuestionsError(qs[1..])
  }

  /** The rejection of a whole quiz payload, including a missing or empty question list. */
  function QuizPayloadError(questions: Option<seq<QuestionPayload>>): Option<Failure> {
    if questions.None? || |questions.value| == 0 then Some(BadRequest("questions required for quiz"))
    else QuestionsError(questions.value)
  }

  /** Error responses leave no trace in the response's success value. */
  function AsResponse(e: Option<Failure>): Result<(), Failure> {
    if e.None? then Ok(()) else Err(e.value)
  }

  /**
   * The outer loop of lecture creation: for each question, check its shape,
   * insert it, insert its options, then check one is correct. The first
   * rejection ends the loop; the rows already written stay.
   */
  function AddQuestions(db: Db, lectureId: int, qs: seq<QuestionPayload>): (st: Step<()>)
    ensures st.db.users == db.users && st.db.courses == db.courses && st.db.lectures == db.lectures
    ensures st.db.progress == db.progress
    ensures |db.questions| <= |st.db.questions| && st.db.questions[..|db.questions|] == db.questions
    ensures |db.options| <= |st.db.options| && st.db.options[..|db.options|] == db.options
    ensures forall k :: |db.questions| <= k < |st.db.questions| ==> st.db.questions[k].lectureId == lectureId
    ensures Valid(db) ==> Valid(st.db)
    decreases |qs|
  {
    if |qs| == 0 then Step(db, Ok(()))
    else
      var q := qs[0];
      if !QuestionShaped(q) then Step(db, Err(BadRequest("invalid question")))
      else
        match InsertQuestion(db, lectureId, q.text)
        case Err(_) => Step(db, Err(InternalError))
        case Ok((db1, questionId)) =>
          var st1 := AddOptions(db1, questionId, q.options.value);
          PrefixOfPrefix(db.options, db1.options, st1.db.options);
          if st1.response.Err? then Step(st1.db, Err(st1.response.error))
          else if !AnyCorrect(q.options.value) then
            Step(st1.db, Err(BadRequest("at least one correct option required")))
          else
            var st := AddQuestions(st1.db, lectureId, qs[1..]);
            assert st.db.options[..|db.options|] == db.options by {
              PrefixOfPrefix(db.options, st1.db.options, st.db.options);
            }
            QuestionsOnLecture(db.questions, db1.questions, st.db.questions, lectureId);
            st
  }

  /** Questions appended after one for the lecture, all for the lecture, extend the table with questions for it. */
  lemma QuestionsOnLecture(a: seq<Question>, b: seq<Question>, c: seq<Question>, lectureId: int)
    requires |b| == |a| + 1 && b[..|a|] == a && b[|a|].lectureId == lectureId
    requires |b| <= |c| && c[..|b|] == b
    requires forall k :: |b| <= k < |c| ==> c[k].lectureId == lectureId
    ensures c[..|a|] == a
    ensures forall k :: |a| <= k < |c| ==> c[k].lectureId == lectureId
  {
    PrefixOfPrefix(a, b, c);
    assert c[|a|] == c[..|b|][|a|];
  }

  /**
   * For an existing lecture, the loop answers with the first question's
   * rejection, and inserts every question when none is rejected.
   */
  lemma {:induction false} AddQuestionsOutcome(db: Db, lectureId: int, qs: seq<QuestionPayload>)
    requires LectureExists(db, lectureId)
    ensures AddQuestions(db, lectureId, qs).response == AsResponse(QuestionsError(qs))
    ensures AddQuestions(db, lectureId, qs).response.Ok? ==>
              |AddQuestions(db, lectureId, qs).db.questions| == |db.questions| + |qs|
    decreases |qs|
  {
    if |qs| > 0 && QuestionShaped(qs[0]) {
      var q := qs[0];
      var r := InsertQuestion(db, lectureId, q.text);
      var (db1, questionId) := r.value;
      assert QuestionExists(db1, questionId) by {
        assert Question(questionId, lectureId, q.text) in db1.questions;
      }
      var st1 := AddOptions(db1, questionId, q.options.value);
      if st1.response.Ok? && AnyCorrect(q.options.value) {
        AddQuestionsOutcome(st1.db, lectureId, qs[1..]);
      }
    }
  }

  /** The checks lecture creation makes before it writes anything. */
  predicate Admitted(db: Db, caller: Claims, courseId: int, payload: LecturePayload) {
    && caller.role == Instructor
    && FindCourse(db, courseId).Some?
    && FindCourse(db, courseId).value.instructorId == caller.id
    && ParseLectureType(payload.kind).Some?
    && payload.title != ""
  }

  /** The `content` column written: the given text (or '') for a reading, NULL for a quiz. */
  function StoredContent(kind: LectureType, content: Option<string>): Option<string> {
    if kind == Reading then Some(content.GetOr("")) else None
  }

  /**
   * The writing half of lecture creation (from line 93 on): insert the
   * lecture at the next order index, then, for a quiz, its questions.
   */
  function WriteLecture(db: Db, courseId: int, kind: LectureType, payload: LecturePayload): (st: Step<LectureCreated>)
    ensures st.db.users == db.users && st.db.courses == db.courses && st.db.progress == db.progress
    ensures |db.questions| <= |st.db.questions| && st.db.questions[..|db.questions|] == db.questions
    ensures |db.options| <= |st.db.options| && st.db.options[..|db.options|] == db.options
    ensures Valid(db) ==> Valid(st.db)
    ensures CourseExists(db, courseId) ==>
              && |st.db.lectures| == |db.lectures| + 1
              && st.db.lectures[..|db.lectures|] == db.lectures
              && st.db.lectures[|db.lectures|].courseId == courseId
              && st.db.lectures[|db.lectures|].orderIndex == NextLectureOrderIndex(db, courseId)
              && st.db.lectures[|db.lectures|].kind == kind
              && st.db.lectures[|db.lectures|].title == payload.title
              && st.db.lectures[|db.lectures|].content == StoredContent(kind, payload.content)
  {
    var orderIndex := NextLectureOrderIndex(db, courseId);
    match InsertLecture(db, courseId, orderIndex, kind, payload.title, StoredContent(kind, payload.content))
    case Err(_) => Step(db, Err(InternalError))
    case Ok((db1, lectureId)) =>
      var created := LectureCreated(lectureId, courseId, orderIndex, kind, payload.title);
      if kind == Reading then Step(db1, Ok(created))
      else if payload.questions.None? || |payload.questions.value| == 0 then
        Step(db1, Err(BadRequest("questions required for quiz")))
      else
        var st := AddQuestions(db1, lectureId, payload.questions.value);
        Step(st.db, if st.response.Err? then Err(st.response.error) else Ok(created))
  }

  /**
   * `POST /api/courses/:courseId/lectures` behind `roleRequired('instructor')`,
   * as written: checks that write nothing, then `WriteLecture`.
   */
  function CreateLecture(db: Db, caller: Claims, courseId: int, payload: LecturePayload): (st: Step<LectureCreated>)
    ensures !Admitted(db, caller, courseId, payload) ==> st.db == db && st.response.Err?
    ensures caller.role != Instructor ==> st == Step(db, Err(Forbidden("Forbidden")))
    ensures caller.role == Instructor && !CourseExists(db, courseId) ==>
              st == Step(db, Err(NotFound("Course not found")))
    ensures caller.role == Instructor && CourseExists(db, courseId) &&
            FindCourse(db, courseId).value.instructorId != caller.id ==>
              st == Step(db, Err(Forbidden("Not your course")))
    ensures Admitted(db, caller, courseId, payload) ==>
              st == WriteLecture(db, courseId, ParseLectureType(payload.kind).value, payload)
    ensures caller.role == Instructor && FindCourse(db, courseId).Some? &&
            FindCourse(db, courseId).value.instructorId == caller.id &&
            (ParseLectureType(payload.kind).None? || payload.title == "") ==>
              st.db == db && st.response.Err? && st.response.error.Code() == 400
    ensures caller.role == Instructor && CourseExists(db, courseId) &&
            FindCourse(db, courseId).value.instructorId == caller.id && ParseLectureType(payload.kind).None? ==>
              st == Step(db, Err(BadRequest("type must be reading|quiz")))
    ensures caller.role == Instructor && CourseExists(db, courseId) &&
            FindCourse(db, courseId).value.instructorId == caller.id && ParseLectureType(payload.kind).Some? &&
            payload.title == "" ==>
              st == Step(db, Err(BadRequest("title required")))
  {
    if caller.role != Instructor then Step(db, Err(Forbidden("Forbidden")))
    else
      match FindCourse(db, courseId)
      case None => Step(db, Err(NotFound("Course not found")))
      case Some(course) =>
        if course.instructorId != caller.id then Step(db, Err(Forbidden("Not your course")))
        else
          match ParseLectureType(payload.kind)
          case None => Step(db, Err(BadRequest("type must be reading|quiz")))
          case Some(kind) =>
            if payload.title == "" then Step(db, Err(BadRequest("title required")))
            else WriteLecture(db, courseId, kind, payload)
  }

  /**
   * An admitted creation inserts the lecture whatever follows, and answers
   * with the quiz payload's first rejection, or 201 with the new lecture.
   */
  lemma CreateLectureOutcome(db: Db, caller: Claims, courseId: int, payload: LecturePayload)
    requires Admitted(db, caller, courseId, payload)
    ensures var st := CreateLecture(db, caller, courseId, payload);
            var kind := ParseLectureType(payload.kind).value;
            && |st.db.lectures| == |db.lectures| + 1
            && st.db.lectures[|db.lectures|].orderIndex == NextLectureOrderIndex(db, courseId)
            && st.response == (if kind == Quiz && QuizPayloadError(payload.questions).Some?
                               then Err(QuizPayloadError(payload.questions).value)
                               else Ok(LectureCreated(st.db.lectures[|db.lectures|].id, courseId,
                                                      NextLectureOrderIndex(db, courseId), kind, payload.title)))
  {
    var kind := ParseLectureType(payload.kind).value;
    assert FindCourse(db, courseId).value in db.courses;
    assert CreateLecture(db, caller, courseId, payload) == WriteLecture(db, courseId, kind, payload);
    if kind == Quiz && payload.questions.Some? && |payload.questions.value| > 0 {
      WriteQuizUnfold(db, courseId, payload);
      var r := InsertLecture(db, courseId, NextLectureOrderIndex(db, courseId), Quiz, payload.title, None);
      AddQuestionsOutcome(r.value.0, r.value.1, payload.questions.value);
    }
  }

  /** Writing a lecture keeps the handlers' invariants: order indices stay 1..n per course. */
  lemma WriteLectureConsistent(db: Db, courseId: int, kind: LectureType, payload: LecturePayload)
    requires Consistent(db) && CourseExists(db, courseId)
    ensures Consistent(WriteLecture(db, courseId, kind, payload).db)
  {
    var db' := WriteLecture(db, courseId, kind, payload).db;
    var row := db'.lectures[|db.lectures|];
    assert db'.lectures == db.lectures + [row] by {
      assert db'.lectures == db'.lectures[..|db.lectures|] + [row];
    }
    assert Contiguous(db') by {
      NextIsCountPlusOne(db, courseId);
      ContiguousAfterAppend(db, db', row);
    }
    RecordsAfterLectureAppend(db, db');
  }

  /** Lecture creation keeps the handlers' invariants, whichever way it ends. */
  lemma CreateLectureConsistent(db: Db, caller: Claims, courseId: int, payload: LecturePayload)
    requires Valid(db) && Consistent(db)
    ensures Consistent(CreateLecture(db, caller, courseId, payload).db)
  {
    if Admitted(db, caller, courseId, payload) {
      var course := FindCourse(db, courseId).value;
      assert course in db.courses;
      WriteLectureConsistent(db, courseId, ParseLectureType(payload.kind).value, payload);
    }
  }

  /** In a consistent state a new lecture's order index is the course's lecture count plus one. */
  lemma CreatedOrderIndex(db: Db, caller: Claims, courseId: int, payload: LecturePayload)
    requires Valid(db) && Consistent(db)
    requires CreateLecture(db, caller, courseId, payload).response.Ok?
    ensures CreateLecture(db, caller, courseId, payload).response.value.orderIndex ==
            CourseLectureCount(db, courseId) + 1
  {
    NextIsCountPlusOne(db, courseId);
    CreateLectureOutcome(db, caller, courseId, payload);
  }

  /**
   * The loop keeps what it wrote before a rejection: an accepted question
   * followed by one that marks no option correct is answered 400, with both
   * questions inserted.
   */
  lemma {:induction false} AddQuestionsKeepsPartialRows(db: Db, lectureId: int, good: QuestionPayload, bad: QuestionPayload)
    requires LectureExists(db, lectureId)
    requires QuestionError(good).None?
    requires QuestionShaped(bad) && TypedPrefix(bad.options.value) == |bad.options.value| && !AnyCorrect(bad.options.value)
    ensures AddQuestions(db, lectureId, [good, bad]).response == Err(BadRequest("at least one correct option required"))
    ensures |AddQuestions(db, lectureId, [good, bad]).db.questions| == |db.questions| + 2
  {
    var (db1, q1) := InsertQuestion(db, lectureId, good.text).value;
    assert QuestionExists(db1, q1) by {
      assert db1.questions[|db.questions|] in db1.questions;
    }
    var st1 := AddOptions(db1, q1, good.options.value);
    assert LectureExists(st1.db, lectureId);
    var (db2, q2) := InsertQuestion(st1.db, lectureId, bad.text).value;
    assert QuestionExists(db2, q2) by {
      assert db2.questions[|st1.db.questions|] in db2.questions;
    }
    assert [good, bad][1..] == [bad];
    assert AddQuestions(st1.db, lectureId, [bad]).response == Err(BadRequest("at least one correct option required"));
  }

  /**
   * The partial write: an admitted quiz whose first question is accepted and
   * whose second marks no option correct is answered 400, yet the lecture and
   * both questions stay in the database.
   */
  lemma PartialRowsOnRejectedQuiz(db: Db, caller: Claims, courseId: int, payload: LecturePayload,
                                  good: QuestionPayload, bad: QuestionPayload)
    requires Admitted(db, caller, courseId, payload) && payload.kind == "quiz"
    requires payload.questions == Some([good, bad])
    requires QuestionError(good).None?
    requires QuestionShaped(bad) && TypedPrefix(bad.options.value) == |bad.options.value| && !AnyCorrect(bad.options.value)
    ensures CreateLecture(db, caller, courseId, payload).response == Err(BadRequest("at least one correct option required"))
    ensures |CreateLecture(db, caller, courseId, payload).db.lectures| == |db.lectures| + 1
    ensures |CreateLecture(db, caller, courseId, payload).db.questions| == |db.questions| + 2
  {
    assert FindCourse(db, courseId).value in db.courses;
    assert CreateLecture(db, caller, courseId, payload) == WriteLecture(db, courseId, Quiz, payload);
    WriteQuizUnfold(db, courseId, payload);
    var (db1, lectureId) := InsertLecture(db, courseId, NextLectureOrderIndex(db, courseId), Quiz, payload.title, None).value;
    AddQuestionsKeepsPartialRows(db1, lectureId, good, bad);
  }

  /** For a quiz with questions, the write is the lecture insert followed by the questions loop on the new lecture. */
  lemma WriteQuizUnfold(db: Db, courseId: int, payload: LecturePayload)
    requires CourseExists(db, courseId) && payload.questions.Some? && |payload.questions.value| > 0
    ensures var r := InsertLecture(db, courseId, NextLectureOrderIndex(db, courseId), Quiz, payload.title, None);
            && r.Ok? && LectureExists(r.value.0, r.value.1)
            && |r.value.0.lectures| == |db.lectures| + 1
            && r.value.0.lectures[|db.lectures|].id == r.value.1
            && var st := AddQuestions(r.value.0, r.value.1, payload.questions.value);
            && WriteLecture(db, courseId, Quiz, payload).db == st.db
            && (st.response.Err? ==> WriteLecture(db, courseId, Quiz, payload).response == Err(st.response.error))
            && (st.response.Ok? ==> WriteLecture(db, courseId, Quiz, payload).response ==
                                    Ok(LectureCreated(r.value.1, courseId, NextLectureOrderIndex(db, courseId), Quiz, payload.title)))
  {
    InsertQuizLecture(db, courseId, payload.title);
  }

  /** The quiz lecture row lands at the end of the table, under the id the insert returns. */
  lemma InsertQuizLecture(db: Db, courseId: int, title: string)
    requires CourseExists(db, courseId)
    ensures var r := InsertLecture(db, courseId, NextLectureOrderIndex(db, courseId), Quiz, title, None);
            && r.Ok? && LectureExists(r.value.0, r.value.1)
            && |r.value.0.lectures| == |db.lectures| + 1
            && r.value.0.lectures[|db.lectures|].id == r.value.1
  {
    var r := InsertLecture(db, courseId, NextLectureOrderIndex(db, courseId), Quiz, title, None);
    assert r.value.0.lectures[|db.lectures|] in r.value.0.lectures;
  }

  /**
   * The corrected lecture creation: a quiz payload is checked in full before
   * anything is written, so a rejection writes nothing.
   */
  function CreateLectureAtomic(db: Db, caller: Claims, courseId: int, payload: LecturePayload): (st: Step<LectureCreated>)
    ensures st.response.Err? ==> st.db == db
    ensures st.response == CreateLecture(db, caller, courseId, payload).response
    ensures st.response.Ok? ==> st == CreateLecture(db, caller, courseId, payload)
  {
    var st := CreateLecture(db, caller, courseId, payload);
    if !Admitted(db, caller, courseId, payload) then st
    else
      CreateLectureOutcome(db, caller, courseId, payload);
      if ParseLectureType(payload.kind) == Some(Quiz) && QuizPayloadError(payload.questions).Some?
      then Step(db, st.response)
      else st
  }
}
