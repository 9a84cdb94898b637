/**
 * Reading completion and the progress queries of server/src/app.js:
 * `POST /api/lectures/:lectureId/complete`, `GET /api/courses/:courseId/progress`
 * and `GET /api/courses/:courseId/progress/lectures`.
 */
module Tracking {
  import opened Wrappers
  import opened Rows
  import opened Schema
  import opened Http
  import opened Queries

  /** The `status` field of a 200 response to the completion request. */
  datatype CompletionStatus = CompletedNow | AlreadyCompleted

  /**
   * `POST /api/lectures/:lectureId/complete`: 404 for an unknown lecture,
   * 400 for a quiz, "already_completed" when the caller has a row for the
   * lecture, otherwise a new `completed` row copying the lecture's course.
   * A failed INSERT (a token whose user no longer exists) reaches the
   * fallback error handler.
   */
  function Complete(db: Db, caller: Claims, lectureId: int): (st: Step<CompletionStatus>)
    ensures !LectureExists(db, lectureId) ==> st == Step(db, Err(NotFound("Lecture not found")))
    ensures LectureExists(db, lectureId) && FindLecture(db, lectureId).value.kind != Reading ==>
              st == Step(db, Err(BadRequest("Only for reading lectures")))
    ensures st.response != Ok(CompletedNow) ==> st.db == db
    ensures st.response == Ok(CompletedNow) ==>
              && !HasCompletedLecture(db, caller.id, lectureId)
              && st.db == db.(progress := st.db.progress, counters := st.db.counters)
              && |st.db.progress| == |db.progress| + 1
              && st.db.progress == db.progress +
                   [Progress(st.db.progress[|db.progress|].id, caller.id, FindLecture(db, lectureId).value.courseId,
                             lectureId, Completed, None, None, None)]
    ensures st.response.Ok? ==> HasCompletedLecture(st.db, caller.id, lectureId)
    ensures Valid(db) ==> Valid(st.db)
  {
    match FindLecture(db, lectureId)
    case None => Step(db, Err(NotFound("Lecture not found")))
    case Some(lecture) =>
      if lecture.kind != Reading then Step(db, Err(BadRequest("Only for reading lectures")))
      else if HasCompletedLecture(db, caller.id, lectureId) then Step(db, Ok(AlreadyCompleted))
      else
        match InsertProgress(db, caller.id, lecture.courseId, lecture.id, Completed, None, None, None)
        case Err(_) => Step(db, Err(InternalError))
        case Ok((db', _)) =>
          assert db'.progress[|db.progress|] in db'.progress;
          Step(db', Ok(CompletedNow))
  }

  /**
   * Completion succeeds for every existing user and reading lecture of a
   * valid state, and a repeated request answers "already_completed"
   * without writing.
   */
  lemma CompleteSucceeds(db: Db, caller: Claims, lectureId: int)
    requires Valid(db) && UserExists(db, caller.id)
    requires LectureExists(db, lectureId) && FindLecture(db, lectureId).value.kind == Reading
    ensures Complete(db, caller, lectureId).response ==
            if HasCompletedLecture(db, caller.id, lectureId) then Ok(AlreadyCompleted) else Ok(CompletedNow)
  {
    var lecture := FindLecture(db, lectureId).value;
    var i :| 0 <= i < |db.lectures| && db.lectures[i] == lecture;
    assert CourseExists(db, db.lectures[i].courseId);
  }

  /** Completing twice is completing once: the second request writes nothing. */
  lemma CompleteIdempotent(db: Db, caller: Claims, lectureId: int)
    requires Complete(db, caller, lectureId).response.Ok?
    ensures var st := Complete(db, caller, lectureId);
            Complete(st.db, caller, lectureId) == Step(st.db, Ok(AlreadyCompleted))
  {
    var st := Complete(db, caller, lectureId);
    var lecture := FindLecture(db, lectureId).value;
    assert FindLecture(st.db, lectureId) == FindLecture(db, lectureId);
  }

  /** Completion keeps the handlers' invariants: the new row names a reading lecture of its course. */
  lemma CompleteConsistent(db: Db, caller: Claims, lectureId: int)
    requires Consistent(db)
    ensures Consistent(Complete(db, caller, lectureId).db)
  {
    var st := Complete(db, caller, lectureId);
    if st.response == Ok(CompletedNow) {
      var lecture := FindLecture(db, lectureId).value;
      assert forall c :: LecturesOf(st.db, c) == LecturesOf(db, c);
      forall i | 0 <= i < |st.db.progress| ensures RecordMatchesLecture(st.db, st.db.progress[i]) {
        if i < |db.progress| {
          assert st.db.progress[i] == db.progress[i];
          assert RecordMatchesLecture(db, db.progress[i]);
        } else {
          assert lecture in st.db.lectures;
        }
      }
    }
  }

  /** A new completion raises the caller's progress count in the lecture's course by one. */
  lemma CompleteCounts(db: Db, caller: Claims, lectureId: int)
    requires Complete(db, caller, lectureId).response == Ok(CompletedNow)
    ensures var courseId := FindLecture(db, lectureId).value.courseId;
            UserProgressCount(Complete(db, caller, lectureId).db, caller.id, courseId) ==
            UserProgressCount(db, caller.id, courseId) + 1
  {
    var st := Complete(db, caller, lectureId);
    var courseId := FindLecture(db, lectureId).value.courseId;
    var row := st.db.progress[|db.progress|];
    FilterSnoc(db.progress, row, OfUserInCourse(caller.id, courseId));
  }

  /** The body of `GET /api/courses/:courseId/progress`. */
  datatype Summary = Summary(completed: nat, total: nat, ratio: real)

  /** `total ? completed / total : 0`: the completed share, 0 for an empty course. */
  function Ratio(completed: nat, total: nat): (r: real)
    ensures total == 0 ==> r == 0.0
    ensures total > 0 ==> r * (total as real) == completed as real
    ensures completed <= total ==> 0.0 <= r <= 1.0
    ensures total > 0 ==> (r == 1.0 <==> completed == total)
  {
    if total == 0 then 0.0 else (completed as real) / (total as real)
  }

  /** The caller's rows in the course against the course's lectures. */
  function ProgressSummary(db: Db, caller: Claims, courseId: int): (s: Summary)
    ensures s.completed == |ProgressOf(db, caller.id, courseId)| && s.total == |LecturesOf(db, courseId)|
    ensures s.ratio == Ratio(s.completed, s.total)
    ensures s.completed == 0 <==> forall p :: p in db.progress ==> p.userId != caller.id || p.courseId != courseId
    ensures s.total == 0 <==> forall l :: l in db.lectures ==> l.courseId != courseId
  {
    var completed := UserProgressCount(db, caller.id, courseId);
    var total := CourseLectureCount(db, courseId);
    Summary(completed, total, Ratio(completed, total))
  }

  /**
   * In a valid state the summary counts the distinct lectures the caller has
   * rows for in the course, against the distinct lectures of the course.
   */
  lemma SummaryCounts(db: Db, caller: Claims, courseId: int)
    requires Valid(db)
    ensures var s := ProgressSummary(db, caller, courseId);
            && s.completed == |set p | p in db.progress && p.userId == caller.id && p.courseId == courseId :: p.lectureId|
            && s.total == |set l | l in db.lectures && l.courseId == courseId :: l.id|
  {
    UserProgressCountDistinct(db, caller.id, courseId);
    CourseLectureCountDistinct(db, courseId);
  }

  /** The lectures a user has rows for in a course are lectures of that course. */
  lemma DoneWithinCourse(db: Db, userId: int, courseId: int)
    requires Consistent(db)
    ensures Keys(ProgressOf(db, userId, courseId), RowLecture) <= Keys(LecturesOf(db, courseId), LectureId)
  {
    var ps := ProgressOf(db, userId, courseId);
    forall x | x in Keys(ps, RowLecture) ensures x in Keys(LecturesOf(db, courseId), LectureId) {
      var p :| p in ps && RowLecture(p) == x;
      var i :| 0 <= i < |db.progress| && db.progress[i] == p;
      assert RecordMatchesLecture(db, db.progress[i]);
      var l :| l in db.lectures && l.id == p.lectureId && l.courseId == p.courseId && ShapeFits(l.kind, p);
      assert l in LecturesOf(db, courseId);
    }
  }

  /** In a consistent state the ratio lies in [0, 1]. */
  lemma SummaryRatioBounds(db: Db, caller: Claims, courseId: int)
    requires Valid(db) && Consistent(db)
    ensures 0.0 <= ProgressSummary(db, caller, courseId).ratio <= 1.0
  {
    CompletedWithinTotal(db, caller.id, courseId);
  }

  /** A user whose row count matches the lecture count has a row for every lecture of the course. */
  lemma FullCountCoversCourse(db: Db, userId: int, courseId: int, l: Lecture)
    requires Valid(db) && Consistent(db)
    requires UserProgressCount(db, userId, courseId) == CourseLectureCount(db, courseId)
    requires l in db.lectures && l.courseId == courseId
    ensures HasCompletedLecture(db, userId, l.id)
  {
    var ps := ProgressOf(db, userId, courseId);
    var ls := LecturesOf(db, courseId);
    ProgressOfUnique(db, userId, courseId);
    UniqueKeysCard(ps, RowLecture);
    FilterUnique(db.lectures, InCourse(courseId), LectureId);
    UniqueKeysCard(ls, LectureId);
    DoneWithinCourse(db, userId, courseId);
    SubsetSameCard(Keys(ps, RowLecture), Keys(ls, LectureId));
    assert l in ls;
    assert l.id in Keys(ls, LectureId);
    var p :| p in ps && RowLecture(p) == l.id;
  }

  /** A user with a row for every lecture of the course has a row for each of its lecture ids. */
  lemma CourseWithinDone(db: Db, userId: int, courseId: int)
    requires Valid(db) && Consistent(db)
    requires forall l :: l in db.lectures && l.courseId == courseId ==> HasCompletedLecture(db, userId, l.id)
    ensures Keys(LecturesOf(db, courseId), LectureId) <= Keys(ProgressOf(db, userId, courseId), RowLecture)
  {
    var ps := ProgressOf(db, userId, courseId);
    forall x | x in Keys(LecturesOf(db, courseId), LectureId) ensures x in Keys(ps, RowLecture) {
      var l :| l in LecturesOf(db, courseId) && LectureId(l) == x;
      assert HasCompletedLecture(db, userId, l.id);
      var p :| p in db.progress && p.userId == userId && p.lectureId == l.id;
      RowCourse(db, p, l);
      assert p in ps;
    }
  }

  /** A user with a row for every lecture of the course has as many rows as the course has lectures. */
  lemma CoveredCourseFullCount(db: Db, userId: int, courseId: int)
    requires Valid(db) && Consistent(db)
    requires forall l :: l in db.lectures && l.courseId == courseId ==> HasCompletedLecture(db, userId, l.id)
    ensures UserProgressCount(db, userId, courseId) == CourseLectureCount(db, courseId)
  {
    var ps := ProgressOf(db, userId, courseId);
    var ls := LecturesOf(db, courseId);
    ProgressOfUnique(db, userId, courseId);
    UniqueKeysCard(ps, RowLecture);
    FilterUnique(db.lectures, InCourse(courseId), LectureId);
    UniqueKeysCard(ls, LectureId);
    CourseWithinDone(db, userId, courseId);
    SubsetCard(Keys(ls, LectureId), Keys(ps, RowLecture));
    CompletedWithinTotal(db, userId, courseId);
  }

  /**
   * In a consistent state the ratio is 1 exactly when the course has
   * lectures and the caller has a row for each of them.
   */
  lemma SummaryCompleteIff(db: Db, caller: Claims, courseId: int)
    requires Valid(db) && Consistent(db)
    ensures ProgressSummary(db, caller, courseId).ratio == 1.0 <==>
              && (exists l :: l in db.lectures && l.courseId == courseId)
              && forall l :: l in db.lectures && l.courseId == courseId ==> HasCompletedLecture(db, caller.id, l.id)
  {
    var s := ProgressSummary(db, caller, courseId);
    if s.ratio == 1.0 {
      forall l | l in db.lectures && l.courseId == courseId ensures HasCompletedLecture(db, caller.id, l.id) {
        FullCountCoversCourse(db, caller.id, courseId, l);
      }
    }
    if forall l :: l in db.lectures && l.courseId == courseId ==> HasCompletedLecture(db, caller.id, l.id) {
      CoveredCourseFullCount(db, caller.id, courseId);
    }
  }

  function ProgressLecture(p: Progress): int { p.lectureId }

  /**
   * `GET /api/courses/:courseId/progress/lectures`: the lecture of each of
   * the caller's rows in the course, in table order.
   */
  function CompletedLectureIds(db: Db, caller: Claims, courseId: int): (ids: seq<int>)
    ensures |ids| == UserProgressCount(db, caller.id, courseId)
    ensures forall x :: x in ids <==>
              exists p :: p in db.progress && p.userId == caller.id && p.courseId == courseId && p.lectureId == x
  {
    var ps := ProgressOf(db, caller.id, courseId);
    var ids := seq(|ps|, i requires 0 <= i < |ps| => ps[i].lectureId);
    assert forall p :: p in ps ==> p.lectureId in ids by {
      forall p | p in ps ensures p.lectureId in ids {
        var i :| 0 <= i < |ps| && ps[i] == p;
        assert ids[i] == p.lectureId;
      }
    }
    ids
  }

  /** Under UNIQUE(user_id, lecture_id) the list has no repeats. */
  lemma CompletedLectureIdsDistinct(db: Db, caller: Claims, courseId: int)
    requires Valid(db)
    ensures var ids := CompletedLectureIds(db, caller, courseId);
            forall i, j :: 0 <= i < j < |ids| ==> ids[i] != ids[j]
  {
    ProgressOfUnique(db, caller.id, courseId);
  }

  /**
   * For a lecture of the course, being listed is exactly
   * `hasCompletedLecture`, in a consistent state.
   */
  lemma ListedIffCompleted(db: Db, caller: Claims, courseId: int, l: Lecture)
    requires Consistent(db) && Valid(db) && l in db.lectures && l.courseId == courseId
    ensures l.id in CompletedLectureIds(db, caller, courseId) <==> HasCompletedLecture(db, caller.id, l.id)
  {
    if HasCompletedLecture(db, caller.id, l.id) {
      var p :| p in db.progress && p.userId == caller.id && p.lectureId == l.id;
      RowCourse(db, p, l);
    }
  }
}
