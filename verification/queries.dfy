/**
 * The query helpers of server/src/db.js, and the invariants the route
 * handlers keep on top of the schema: a progress row copies its lecture's
 * course and has the shape its lecture's type calls for, and each course's
 * order indices run 1..n in insertion order.
 */
module Queries {
  import opened Wrappers
  import opened Rows
  import opened Schema

  function InCourse(courseId: int): Lecture -> bool { (l: Lecture) => l.courseId == courseId }

  /** `SELECT ... FROM lectures WHERE course_id = ?`, in table order. */
  function LecturesOf(db: Db, courseId: int): (r: seq<Lecture>)
    ensures forall l :: l in r <==> l in db.lectures && l.courseId == courseId
  {
    Filter(db.lectures, InCourse(courseId))
  }

  function OrderIndices(ls: seq<Lecture>): (r: seq<int>)
    ensures |r| == |ls| && forall i :: 0 <= i < |ls| ==> r[i] == ls[i].orderIndex
  {
    seq(|ls|, i requires 0 <= i < |ls| => ls[i].orderIndex)
  }

  /**
   * `getNextLectureOrderIndex`: one past the largest order index in the
   * course, so strictly above every index there, and 1 for an empty course.
   */
  function NextLectureOrderIndex(db: Db, courseId: int): (r: int)
    ensures forall l :: l in db.lectures && l.courseId == courseId ==> l.orderIndex < r
    ensures (forall l :: l in db.lectures ==> l.courseId != courseId) ==> r == 1
    ensures (exists l :: l in db.lectures && l.courseId == courseId) ==>
              exists l :: l in db.lectures && l.courseId == courseId && l.orderIndex == r - 1
  {
    var ls := LecturesOf(db, courseId);
    var xs := OrderIndices(ls);
    assert forall l :: l in ls ==> l.orderIndex in xs by {
      forall l | l in ls ensures l.orderIndex in xs {
        var k :| 0 <= k < |ls| && ls[k] == l;
        assert xs[k] == l.orderIndex;
      }
    }
    assert forall x :: x in xs ==> exists l :: l in ls && l.orderIndex == x by {
      forall x | x in xs ensures exists l :: l in ls && l.orderIndex == x {
        var k :| 0 <= k < |xs| && xs[k] == x;
        assert ls[k] in ls;
      }
    }
    assert |ls| == 0 ==> forall l :: l in db.lectures ==> l.courseId != courseId;
    MaxOrZero(xs) + 1
  }

  /** `getCourseLectureCount`: how many lectures the course has. */
  function CourseLectureCount(db: Db, courseId: int): (n: nat)
    ensures n <= |db.lectures|
    ensures n == 0 <==> forall l :: l in db.lectures ==> l.courseId != courseId
  {
    var ls := LecturesOf(db, courseId);
    assert |ls| > 0 ==> ls[0] in ls;
    |ls|
  }

  function OfUserInCourse(userId: int, courseId: int): Progress -> bool {
    (p: Progress) => p.userId == userId && p.courseId == courseId
  }

  /** `SELECT ... FROM progress WHERE user_id = ? AND course_id = ?`, in table order. */
  function ProgressOf(db: Db, userId: int, courseId: int): (r: seq<Progress>)
    ensures forall p :: p in r <==> p in db.progress && p.userId == userId && p.courseId == courseId
  {
    Filter(db.progress, OfUserInCourse(userId, courseId))
  }

  /** `getUserProgressCount`: how many progress rows the user has in the course. */
  function UserProgressCount(db: Db, userId: int, courseId: int): (n: nat)
    ensures n <= |db.progress|
    ensures n == 0 <==> forall p :: p in db.progress ==> p.userId != userId || p.courseId != courseId
  {
    var ps := ProgressOf(db, userId, courseId);
    assert |ps| > 0 ==> ps[0] in ps;
    |ps|
  }

  function ForPair(userId: int, lectureId: int): Progress -> bool {
    (p: Progress) => p.userId == userId && p.lectureId == lectureId
  }

  /** `hasCompletedLecture`: whether some progress row ties the user to the lecture. */
  function HasCompletedLecture(db: Db, userId: int, lectureId: int): (r: bool)
    ensures r <==> exists p :: p in db.progress && p.userId == userId && p.lectureId == lectureId
  {
    var found := Find(db.progress, ForPair(userId, lectureId));
    assert found.Some? ==> found.value in db.progress;
    assert (exists p :: p in db.progress && p.userId == userId && p.lectureId == lectureId) ==> found.Some? by {
      if p :| p in db.progress && p.userId == userId && p.lectureId == lectureId {
        var i :| 0 <= i < |db.progress| && db.progress[i] == p;
        assert ForPair(userId, lectureId)(db.progress[i]);
      }
    }
    found.Some?
  }

  /** The rows of one (user, lecture) pair. */
  function RowsFor(db: Db, userId: int, lectureId: int): seq<Progress> {
    Filter(db.progress, ForPair(userId, lectureId))
  }

  /** The column shape a progress row takes for a lecture of type `kind`. */
  predicate ShapeFits(kind: LectureType, p: Progress) {
    match kind
    case Reading => p.status == Completed && p.score.None? && p.total.None? && p.passed.None?
    case Quiz =>
      && p.status == PassedQuiz && p.score.Some? && p.total.Some? && p.passed.Some?
      && 0 <= p.score.value <= p.total.value
  }

  /** The row names a lecture of the course it records, with the shape that lecture's type calls for. */
  ghost predicate RecordMatchesLecture(db: Db, p: Progress) {
    exists l :: l in db.lectures && l.id == p.lectureId && l.courseId == p.courseId && ShapeFits(l.kind, p)
  }

  /** Each course's lectures, in table order, carry order indices 1, 2, ..., n. */
  ghost predicate Contiguous(db: Db) {
    forall c, k :: 0 <= k < |LecturesOf(db, c)| ==> LecturesOf(db, c)[k].orderIndex == k + 1
  }

  /** The invariants the route handlers keep beyond the schema's constraints. */
  ghost predicate Consistent(db: Db) {
    && (forall i :: 0 <= i < |db.progress| ==> RecordMatchesLecture(db, db.progress[i]))
    && Contiguous(db)
  }

  lemma EmptyDbConsistent()
    ensures Consistent(EmptyDb)
  {
    forall c ensures LecturesOf(EmptyDb, c) == [] {
      assert forall l :: l !in LecturesOf(EmptyDb, c);
    }
  }

  /** A step that leaves the lecture and progress tables alone keeps the invariants. */
  lemma ConsistentFrame(db: Db, db': Db)
    requires db'.lectures == db.lectures && db'.progress == db.progress
    ensures Consistent(db) ==> Consistent(db')
  {
    assert forall c :: LecturesOf(db', c) == LecturesOf(db, c);
  }

  /** In a contiguous state the next order index is the course's lecture count plus one. */
  lemma NextIsCountPlusOne(db: Db, courseId: int)
    requires Contiguous(db)
    ensures NextLectureOrderIndex(db, courseId) == CourseLectureCount(db, courseId) + 1
  {
    var ls := LecturesOf(db, courseId);
    var n := |ls|;
    var r := NextLectureOrderIndex(db, courseId);
    if n == 0 {
      assert forall l :: l in db.lectures ==> l.courseId != courseId;
    } else {
      assert ls[n - 1] in ls && ls[n - 1].orderIndex == n;
      assert r > n;
      var l :| l in db.lectures && l.courseId == courseId && l.orderIndex == r - 1;
      assert l in ls;
      var k :| 0 <= k < n && ls[k] == l;
      assert r - 1 == k + 1;
    }
  }

  /** Appending a lecture at the next index of its course keeps every course contiguous. */
  lemma ContiguousAfterAppend(db: Db, db': Db, row: Lecture)
    requires Contiguous(db)
    requires db'.lectures == db.lectures + [row]
    requires row.orderIndex == CourseLectureCount(db, row.courseId) + 1
    ensures Contiguous(db')
  {
    forall c, k | 0 <= k < |LecturesOf(db', c)| ensures LecturesOf(db', c)[k].orderIndex == k + 1 {
      AppendedOrderIndex(db, db', row, c, k);
    }
  }

  /** After the append, the k-th lecture of course `c` still carries index k + 1. */
  lemma AppendedOrderIndex(db: Db, db': Db, row: Lecture, c: int, k: int)
    requires Contiguous(db)
    requires db'.lectures == db.lectures + [row]
    requires row.orderIndex == CourseLectureCount(db, row.courseId) + 1
    requires 0 <= k < |LecturesOf(db', c)|
    ensures LecturesOf(db', c)[k].orderIndex == k + 1
  {
    LecturesOfSnoc(db, db', row, c);
    if k < |LecturesOf(db, c)| {
      assert LecturesOf(db', c)[k] == LecturesOf(db, c)[k];
    } else {
      assert LecturesOf(db', c)[k] == row;
    }
  }

  /** Appending a row adds it to the end of its own course's lectures and to no other course's. */
  lemma LecturesOfSnoc(db: Db, db': Db, row: Lecture, c: int)
    requires db'.lectures == db.lectures + [row]
    ensures LecturesOf(db', c) == LecturesOf(db, c) + (if row.courseId == c then [row] else [])
  {
    FilterSnoc(db.lectures, row, InCourse(c));
    assert InCourse(c)(row) == (row.courseId == c);
  }

  /** Appending a row raises its course's lecture count by one. */
  lemma CountAfterAppend(db: Db, db': Db, row: Lecture)
    requires db'.lectures == db.lectures + [row]
    ensures CourseLectureCount(db', row.courseId) == CourseLectureCount(db, row.courseId) + 1
  {
    LecturesOfSnoc(db, db', row, row.courseId);
  }

  /** Progress rows still match their lectures when lectures are only appended. */
  lemma RecordsAfterLectureAppend(db: Db, db': Db)
    requires forall l :: l in db.lectures ==> l in db'.lectures
    requires db'.progress == db.progress
    requires forall i :: 0 <= i < |db.progress| ==> RecordMatchesLecture(db, db.progress[i])
    ensures forall i :: 0 <= i < |db'.progress| ==> RecordMatchesLecture(db', db'.progress[i])
  {
    forall i | 0 <= i < |db'.progress| ensures RecordMatchesLecture(db', db'.progress[i]) {
      var p := db.progress[i];
      var l :| l in db.lectures && l.id == p.lectureId && l.courseId == p.courseId && ShapeFits(l.kind, p);
      assert l in db'.lectures;
    }
  }

  /** In a consistent state a progress row carries the course of the lecture it names. */
  lemma RowCourse(db: Db, p: Progress, l: Lecture)
    requires Valid(db) && Consistent(db)
    requires p in db.progress && l in db.lectures && p.lectureId == l.id
    ensures p.courseId == l.courseId && ShapeFits(l.kind, p)
  {
    var i :| 0 <= i < |db.progress| && db.progress[i] == p;
    assert RecordMatchesLecture(db, db.progress[i]);
    var l' :| l' in db.lectures && l'.id == p.lectureId && l'.courseId == p.courseId && ShapeFits(l'.kind, p);
    var a :| 0 <= a < |db.lectures| && db.lectures[a] == l;
    var b :| 0 <= b < |db.lectures| && db.lectures[b] == l';
    assert Unique(db.lectures, LectureId);
    assert a == b;
  }

  /** Under the schema's constraints the lecture count counts distinct lecture ids of the course. */
  lemma CourseLectureCountDistinct(db: Db, courseId: int)
    requires Valid(db)
    ensures CourseLectureCount(db, courseId) == |set l | l in db.lectures && l.courseId == courseId :: l.id|
  {
    var ls := LecturesOf(db, courseId);
    FilterUnique(db.lectures, InCourse(courseId), LectureId);
    UniqueKeysCard(ls, LectureId);
    assert Keys(ls, LectureId) == set l | l in db.lectures && l.courseId == courseId :: l.id;
  }

  /** Rows of one user that have distinct (user, lecture) pairs have distinct lectures. */
  function RowLecture(p: Progress): int { p.lectureId }

  lemma ProgressOfUnique(db: Db, userId: int, courseId: int)
    requires Valid(db)
    ensures Unique(ProgressOf(db, userId, courseId), RowLecture)
  {
    var ps := ProgressOf(db, userId, courseId);
    FilterUnique(db.progress, OfUserInCourse(userId, courseId), ProgressPair);
    forall i, j | 0 <= i < j < |ps| ensures RowLecture(ps[i]) != RowLecture(ps[j]) {
      assert ps[i] in ps && ps[j] in ps;
      assert ProgressPair(ps[i]) != ProgressPair(ps[j]);
    }
  }

  /**
   * UNIQUE(user_id, lecture_id) makes `getUserProgressCount` count distinct
   * lectures the user has a row for in the course.
   */
  lemma UserProgressCountDistinct(db: Db, userId: int, courseId: int)
    requires Valid(db)
    ensures UserProgressCount(db, userId, courseId) ==
            |set p | p in db.progress && p.userId == userId && p.courseId == courseId :: p.lectureId|
  {
    var ps := ProgressOf(db, userId, courseId);
    ProgressOfUnique(db, userId, courseId);
    UniqueKeysCard(ps, RowLecture);
    assert Keys(ps, RowLecture) ==
           set p | p in db.progress && p.userId == userId && p.courseId == courseId :: p.lectureId;
  }

  /**
   * Since progress rows copy their lecture's course, a user never has more
   * rows in a course than the course has lectures.
   */
  lemma CompletedWithinTotal(db: Db, userId: int, courseId: int)
    requires Valid(db) && Consistent(db)
    ensures UserProgressCount(db, userId, courseId) <= CourseLectureCount(db, courseId)
  {
    var ps := ProgressOf(db, userId, courseId);
    var ls := LecturesOf(db, courseId);
    ProgressOfUnique(db, userId, courseId);
    UniqueKeysCard(ps, RowLecture);
    KeysCard(ls, LectureId);
    assert Keys(ps, RowLecture) <= Keys(ls, LectureId) by {
      forall x | x in Keys(ps, RowLecture) ensures x in Keys(ls, LectureId) {
        var p :| p in ps && RowLecture(p) == x;
        var i :| 0 <= i < |db.progress| && db.progress[i] == p;
        assert RecordMatchesLecture(db, db.progress[i]);
        var l :| l in db.lectures && l.id == p.lectureId && l.courseId == p.courseId && ShapeFits(l.kind, p);
        assert l in ls;
      }
    }
    SubsetCard(Keys(ps, RowLecture), Keys(ls, LectureId));
  }
}
