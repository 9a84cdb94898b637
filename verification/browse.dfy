/**
 * The public read routes of server/src/app.js: the course list, a course
 * with its lectures in order, and a lecture with its quiz questions. Quiz
 * options go out as id and text only, so the correct answers never leave
 * the server.
 */
module Browse {
  import opened Wrappers
  import opened Rows
  import opened Schema
  import opened Http
  import opened Queries

  /** One row of `GET /api/courses`. */
  datatype CourseListing = CourseListing(id: int, title: string, description: string,
                                         instructorEmail: string, lectures: nat)

  /** The JOIN row for one course: absent when the instructor has no user row. */
  function ListingOf(db: Db, c: Course): (r: Option<CourseListing>)
    ensures r.None? <==> !UserExists(db, c.instructorId)
    ensures r.Some? ==> r.value.id == c.id && r.value.title == c.title && r.value.description == c.description
    ensures r.Some? ==> r.value.lectures == CourseLectureCount(db, c.id)
    ensures r.Some? ==> exists u :: u in db.users && u.id == c.instructorId && u.email == r.value.instructorEmail
  {
    match FindUser(db, c.instructorId)
    case None => None
    case Some(u) => Some(CourseListing(c.id, c.title, c.description, u.email, CourseLectureCount(db, c.id)))
  }

  function ListingFor(db: Db): Course -> Option<CourseListing> { (c: Course) => ListingOf(db, c) }

  /**
   * `GET /api/courses`: each course joined with its instructor's email and
   * its lecture count, newest first (`ORDER BY c.created_at DESC`, with
   * insertion order standing in for the creation time).
   */
  function ListCourses(db: Db): (r: seq<CourseListing>)
    ensures |r| <= |db.courses|
  {
    RevPick(db.courses, ListingFor(db))
  }

  /** Every listing is the JOIN row of some course. */
  lemma ListCoursesSound(db: Db, j: int)
    requires 0 <= j < |ListCourses(db)|
    ensures exists c :: c in db.courses && ListingOf(db, c) == Some(ListCourses(db)[j])
  {
    RevPickSound(db.courses, ListingFor(db), j);
    var k :| 0 <= k < |db.courses| && ListingFor(db)(db.courses[k]) == Some(ListCourses(db)[j]);
    assert db.courses[k] in db.courses;
  }

  /** With every instructor present, the JOIN is defined on every course. */
  lemma ListingForTotal(db: Db)
    requires forall j :: 0 <= j < |db.courses| ==> UserExists(db, db.courses[j].instructorId)
    ensures forall j :: 0 <= j < |db.courses| ==> ListingFor(db)(db.courses[j]).Some?
  {
    forall j | 0 <= j < |db.courses| ensures ListingFor(db)(db.courses[j]).Some? {
      ListingForIs(db, db.courses[j]);
    }
  }

  lemma ListingForIs(db: Db, c: Course)
    ensures ListingFor(db)(c) == ListingOf(db, c)
  {
  }

  /** In a valid state the JOIN finds every course's instructor. */
  lemma InstructorsPresent(db: Db)
    requires Valid(db)
    ensures forall k :: 0 <= k < |db.courses| ==> UserExists(db, db.courses[k].instructorId)
  {
    assert ForeignKeysValid(db);
  }

  /** In a valid state every course is listed, newest first, with its lecture count. */
  lemma ListCoursesComplete(db: Db)
    requires Valid(db)
    ensures |ListCourses(db)| == |db.courses|
    ensures forall k :: 0 <= k < |db.courses| ==>
              ListCourses(db)[k].id == db.courses[|db.courses| - 1 - k].id &&
              ListCourses(db)[k].lectures == CourseLectureCount(db, db.courses[|db.courses| - 1 - k].id)
  {
    InstructorsPresent(db);
    ListCoursesJoined(db);
  }

  /** With every instructor present, the k-th listing is the k-th newest course's. */
  lemma ListedAt(db: Db, k: int)
    requires forall j :: 0 <= j < |db.courses| ==> UserExists(db, db.courses[j].instructorId)
    requires 0 <= k < |db.courses|
    ensures |ListCourses(db)| == |db.courses|
    ensures ListCourses(db)[k] == ListingOf(db, db.courses[|db.courses| - 1 - k]).value
  {
    ListingForTotal(db);
    PickedAt(db, k);
    ListingForIs(db, db.courses[|db.courses| - 1 - k]);
  }

  lemma PickedAt(db: Db, k: int)
    requires forall j :: 0 <= j < |db.courses| ==> ListingFor(db)(db.courses[j]).Some?
    requires 0 <= k < |db.courses|
    ensures |ListCourses(db)| == |db.courses|
    ensures ListCourses(db)[k] == ListingFor(db)(db.courses[|db.courses| - 1 - k]).value
  {
    RevPickAt(db.courses, ListingFor(db), k);
  }

  /** With every instructor present, every course is listed, newest first, with its lecture count. */
  lemma ListCoursesJoined(db: Db)
    requires forall k :: 0 <= k < |db.courses| ==> UserExists(db, db.courses[k].instructorId)
    ensures |ListCourses(db)| == |db.courses|
    ensures forall k :: 0 <= k < |db.courses| ==>
              ListCourses(db)[k].id == db.courses[|db.courses| - 1 - k].id &&
              ListCourses(db)[k].lectures == CourseLectureCount(db, db.courses[|db.courses| - 1 - k].id)
  {
    ListingForTotal(db);
    RevPickTotal(db.courses, ListingFor(db));
    forall k | 0 <= k < |db.courses|
      ensures ListCourses(db)[k].id == db.courses[|db.courses| - 1 - k].id
      ensures ListCourses(db)[k].lectures == CourseLectureCount(db, db.courses[|db.courses| - 1 - k].id)
    {
      ListedAt(db, k);
    }
  }

  // Lectures by `order_index`, the `ORDER BY order_index ASC` of the course route.

  ghost predicate SortedByOrder(ls: seq<Lecture>) {
    forall i, j :: 0 <= i < j < |ls| ==> ls[i].orderIndex <= ls[j].orderIndex
  }

  /** Insert `x` before the first lecture with an order index not below its own. */
  function InsertByOrder(x: Lecture, ls: seq<Lecture>): (r: seq<Lecture>)
    ensures |r| == |ls| + 1
    ensures multiset(r) == multiset(ls) + multiset{x}
    decreases |ls|
  {
    if |ls| == 0 || x.orderIndex <= ls[0].orderIndex then [x] + ls
    else
      assert ls == [ls[0]] + ls[1..];
      [ls[0]] + InsertByOrder(x, ls[1..])
  }

  /** Inserting into a sorted list keeps it sorted. */
  lemma {:induction false} InsertSorted(x: Lecture, ls: seq<Lecture>)
    requires SortedByOrder(ls)
    ensures SortedByOrder(InsertByOrder(x, ls))
    decreases |ls|
  {
    if |ls| > 0 && x.orderIndex > ls[0].orderIndex {
      var rest := InsertByOrder(x, ls[1..]);
      InsertSorted(x, ls[1..]);
      var r := [ls[0]] + rest;
      assert InsertByOrder(x, ls) == r;
      forall k | 1 <= k < |r| ensures ls[0].orderIndex <= r[k].orderIndex {
        assert r[k] == rest[k - 1];
        assert rest[k - 1] in multiset(rest);
        if r[k] != x {
          assert r[k] in multiset(ls[1..]);
          var j :| 0 <= j < |ls[1..]| && ls[1..][j] == r[k];
          assert ls[j + 1] == r[k];
        }
      }
    }
  }

  /** Insertion sort by order index. */
  function SortByOrder(ls: seq<Lecture>): (r: seq<Lecture>)
    ensures SortedByOrder(r)
    ensures multiset(r) == multiset(ls)
    decreases |ls|
  {
    if |ls| == 0 then []
    else
      assert ls == [ls[0]] + ls[1..];
      var rest := SortByOrder(ls[1..]);
      assert SortedByOrder(InsertByOrder(ls[0], rest)) by { InsertSorted(ls[0], rest); }
      InsertByOrder(ls[0], rest)
  }

  /** Sorting an already sorted list returns it unchanged. */
  lemma {:induction false} SortSorted(ls: seq<Lecture>)
    requires SortedByOrder(ls)
    ensures SortByOrder(ls) == ls
    decreases |ls|
  {
    if |ls| > 0 {
      SortSorted(ls[1..]);
      assert [ls[0]] + ls[1..] == ls;
    }
  }

  /** The body of `GET /api/courses/:courseId`. */
  datatype CourseDetailView = CourseDetailView(id: int, title: string, description: string,
                                               instructorId: int, lectures: seq<Lecture>)

  /** `GET /api/courses/:courseId`: 404 for an unknown course, otherwise the course with its lectures in order. */
  function CourseDetail(db: Db, courseId: int): (r: Result<CourseDetailView, Failure>)
    ensures r.Err? <==> !CourseExists(db, courseId)
    ensures r.Err? ==> r.error == NotFound("Course not found")
    ensures r.Ok? ==> r.value.id == courseId && SortedByOrder(r.value.lectures)
    ensures r.Ok? ==> multiset(r.value.lectures) == multiset(LecturesOf(db, courseId))
  {
    match FindCourse(db, courseId)
    case None => Err(NotFound("Course not found"))
    case Some(c) => Ok(CourseDetailView(c.id, c.title, c.description, c.instructorId,
                                        SortByOrder(LecturesOf(db, courseId))))
  }

  /** In a consistent state a course's lectures come out in table order, numbered 1..n. */
  lemma CourseDetailInOrder(db: Db, courseId: int)
    requires Consistent(db) && CourseExists(db, courseId)
    ensures CourseDetail(db, courseId).value.lectures == LecturesOf(db, courseId)
    ensures forall k :: 0 <= k < |LecturesOf(db, courseId)| ==>
              CourseDetail(db, courseId).value.lectures[k].orderIndex == k + 1
  {
    var ls := LecturesOf(db, courseId);
    assert forall k :: 0 <= k < |ls| ==> ls[k].orderIndex == k + 1;
    SortSorted(ls);
  }

  /** A quiz option as the lecture route sends it: no `is_correct`. */
  datatype OptionView = OptionView(id: int, text: string)
  datatype QuestionView = QuestionView(id: int, text: string, options: seq<OptionView>)
  /** The body of `GET /api/lectures/:lectureId`; `questions` only for a quiz. */
  datatype LectureView = LectureView(id: int, courseId: int, orderIndex: int, kind: LectureType, title: string,
                                     content: Option<string>, questions: Option<seq<QuestionView>>)

  function OfQuestion(questionId: int): AnswerOption -> bool { (o: AnswerOption) => o.questionId == questionId }

  predicate QuestionOnLecture(db: Db, questionId: int, lectureId: int) {
    exists q :: q in db.questions && q.id == questionId && q.lectureId == lectureId
  }

  function OfLecture(db: Db, lectureId: int): AnswerOption -> bool {
    (o: AnswerOption) => QuestionOnLecture(db, o.questionId, lectureId)
  }

  function OnLecture(lectureId: int): Question -> bool { (q: Question) => q.lectureId == lectureId }

  /** `o => ({ id: o.id, text: o.text })`. */
  function Views(os: seq<AnswerOption>): (r: seq<OptionView>)
    ensures |r| == |os| && forall k :: 0 <= k < |os| ==> r[k] == OptionView(os[k].id, os[k].text)
  {
    seq(|os|, k requires 0 <= k < |os| => OptionView(os[k].id, os[k].text))
  }

  /** `questions.map(...)`: each question with the lecture's options that belong to it. */
  function Grouped(qs: seq<Question>, os: seq<AnswerOption>): (r: seq<QuestionView>)
    ensures |r| == |qs|
    ensures forall k :: 0 <= k < |qs| ==>
              r[k] == QuestionView(qs[k].id, qs[k].text, Views(Filter(os, OfQuestion(qs[k].id))))
  {
    seq(|qs|, k requires 0 <= k < |qs| => QuestionView(qs[k].id, qs[k].text, Views(Filter(os, OfQuestion(qs[k].id)))))
  }

  /**
   * `GET /api/lectures/:lectureId`: 404 for an unknown lecture, the lecture
   * itself for a reading, and for a quiz also its questions, each with its
   * options as id and text.
   */
  function LectureDetail(db: Db, lectureId: int): (r: Result<LectureView, Failure>)
    ensures r.Err? <==> !LectureExists(db, lectureId)
    ensures r.Err? ==> r.error == NotFound("Lecture not found")
    ensures r.Ok? ==> r.value.id == lectureId && (r.value.questions.Some? <==> r.value.kind == Quiz)
    ensures r.Ok? ==> var l := FindLecture(db, lectureId).value;
              && r.value.courseId == l.courseId && r.value.orderIndex == l.orderIndex && r.value.kind == l.kind
              && r.value.title == l.title && r.value.content == l.content
    ensures r.Ok? && r.value.kind == Quiz ==>
              |r.value.questions.value| == |Filter(db.questions, OnLecture(lectureId))|
  {
    match FindLecture(db, lectureId)
    case None => Err(NotFound("Lecture not found"))
    case Some(l) =>
      var questions :=
        if l.kind == Quiz
        then Some(Grouped(Filter(db.questions, OnLecture(lectureId)), Filter(db.options, OfLecture(db, lectureId))))
        else None;
      Ok(LectureView(l.id, l.courseId, l.orderIndex, l.kind, l.title, l.content, questions))
  }

  /** In a valid state the detail of a stored lecture shows that lecture's own columns. */
  lemma LectureDetailShowsStored(db: Db, l: Lecture)
    requires Valid(db) && l in db.lectures
    ensures LectureDetail(db, l.id) ==
              Ok(LectureView(l.id, l.courseId, l.orderIndex, l.kind, l.title, l.content,
                             LectureDetail(db, l.id).value.questions))
  {
    FindLectureRow(db, l);
  }

  /**
   * Grouping by question after selecting the lecture's options is grouping
   * the whole options table by question: each question of a quiz shows
   * exactly the options that belong to it, in table order.
   */
  lemma QuizShowsOwnOptions(db: Db, lectureId: int, k: int)
    requires LectureDetail(db, lectureId).Ok? && LectureDetail(db, lectureId).value.kind == Quiz
    requires 0 <= k < |LectureDetail(db, lectureId).value.questions.value|
    ensures var q := Filter(db.questions, OnLecture(lectureId))[k];
            LectureDetail(db, lectureId).value.questions.value[k] ==
              QuestionView(q.id, q.text, Views(Filter(db.options, OfQuestion(q.id))))
  {
    var qs := Filter(db.questions, OnLecture(lectureId));
    var q := qs[k];
    assert q in qs;
    assert forall o :: OfQuestion(q.id)(o) ==> OfLecture(db, lectureId)(o);
    FilterFilter(db.options, OfLecture(db, lectureId), OfQuestion(q.id));
  }

  /** The options table with every correctness flag cleared. */
  function Blind(os: seq<AnswerOption>): (r: seq<AnswerOption>)
    ensures |r| == |os|
    ensures forall k :: 0 <= k < |os| ==> r[k] == os[k].(isCorrect := false)
  {
    seq(|os|, k requires 0 <= k < |os| => os[k].(isCorrect := false))
  }

  /** Views of a filter by a predicate blind to correctness do not see the flags. */
  lemma ViewsBlind(os: seq<AnswerOption>, p: AnswerOption -> bool)
    requires forall o: AnswerOption, o': AnswerOption :: o' == o.(isCorrect := false) ==> p(o) == p(o')
    ensures Views(Filter(Blind(os), p)) == Views(Filter(os, p))
  {
    BlindFilter(os, p);
    ViewsOfBlind(Filter(os, p));
  }

  /** Filtering by a predicate blind to correctness commutes with clearing the flags. */
  lemma {:induction false} BlindFilter(os: seq<AnswerOption>, p: AnswerOption -> bool)
    requires forall o: AnswerOption, o': AnswerOption :: o' == o.(isCorrect := false) ==> p(o) == p(o')
    ensures Filter(Blind(os), p) == Blind(Filter(os, p))
    decreases |os|
  {
    if |os| > 0 {
      var init := os[..|os| - 1];
      var x := os[|os| - 1];
      var bx := x.(isCorrect := false);
      var tail := if p(x) then [x] else [];
      assert os == init + [x];
      assert p(bx) == p(x);
      assert Blind(os) == Blind(init) + [bx] by {
        BlindAppend(init, [x]);
      }
      assert Blind(tail) == if p(bx) then [bx] else [];
      assert Filter(Blind(os), p) == Filter(Blind(init), p) + Blind(tail) by {
        FilterSnoc(Blind(init), bx, p);
      }
      BlindFilter(init, p);
      assert Blind(Filter(os, p)) == Blind(Filter(init, p)) + Blind(tail) by {
        FilterSnoc(init, x, p);
        BlindAppend(Filter(init, p), tail);
      }
    } else {
      assert Blind(os) == [] && Filter(os, p) == [];
    }
  }

  lemma BlindAppend(a: seq<AnswerOption>, b: seq<AnswerOption>)
    ensures Blind(a + b) == Blind(a) + Blind(b)
  {
  }

  /** The correctness flag is not part of a view. */
  lemma ViewsOfBlind(os: seq<AnswerOption>)
    ensures Views(Blind(os)) == Views(os)
  {
  }

  /**
   * The lecture route hides the answers: its response is the same whatever
   * the options' correctness flags are.
   */
  lemma LectureDetailHidesAnswers(db: Db, lectureId: int)
    ensures LectureDetail(db.(options := Blind(db.options)), lectureId) == LectureDetail(db, lectureId)
  {
    var db' := db.(options := Blind(db.options));
    assert FindLecture(db', lectureId) == FindLecture(db, lectureId);
    var qs := Filter(db.questions, OnLecture(lectureId));
    forall k | 0 <= k < |qs|
      ensures Views(Filter(Filter(db'.options, OfLecture(db', lectureId)), OfQuestion(qs[k].id))) ==
              Views(Filter(Filter(db.options, OfLecture(db, lectureId)), OfQuestion(qs[k].id)))
    {
      assert forall o :: OfQuestion(qs[k].id)(o) ==> OfLecture(db, lectureId)(o) by {
        assert qs[k] in qs;
      }
      FilterFilter(db.options, OfLecture(db, lectureId), OfQuestion(qs[k].id));
      FilterFilter(db'.options, OfLecture(db', lectureId), OfQuestion(qs[k].id));
      ViewsBlind(db.options, OfQuestion(qs[k].id));
    }
    var g' := Grouped(qs, Filter(db'.options, OfLecture(db', lectureId)));
    var g := Grouped(qs, Filter(db.options, OfLecture(db, lectureId)));
    assert g' == g;
  }
}
