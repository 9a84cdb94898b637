/**
 * The client's decisions over server data in client/src/main.js: the
 * sequential unlock rule of the course page and its re-check on the
 * lecture page, the hash router, and how the quiz form's entries become
 * the `answers` object. Fetching, the DOM and the local store are left out:
 * the data they deliver comes in as parameters.
 */
module ClientViews {
  import opened Wrappers
  import opened Text
  import opened Schema
  import opened Http
  import opened Queries
  import opened Tracking
  import opened Grading
  import opened Browse

  /** The lecture ids of a course page, in page order. */
  function LectureIds(ls: seq<Lecture>): (r: seq<int>)
    ensures |r| == |ls| && forall i :: 0 <= i < |ls| ==> r[i] == ls[i].id
  {
    seq(|ls|, i requires 0 <= i < |ls| => ls[i].id)
  }

  /**
   * The course page's rule: the first lecture is open, every later one is
   * open exactly when the lecture before it is among the completed ids.
   */
  predicate Unlocked(ids: seq<int>, completed: seq<int>, idx: int)
    requires 0 <= idx < |ids|
  {
    idx == 0 || ids[idx - 1] in completed
  }

  /** The first lecture is never locked, whatever is completed. */
  lemma FirstUnlocked(ids: seq<int>, completed: seq<int>)
    requires |ids| > 0
    ensures Unlocked(ids, completed, 0)
  {
  }

  /**
   * Only the predecessor matters: two completion lists that agree on it
   * lock or unlock a lecture alike, however far back the gaps are.
   */
  lemma UnlockedOnlyByPredecessor(ids: seq<int>, c1: seq<int>, c2: seq<int>, idx: int)
    requires 0 < idx < |ids|
    requires ids[idx - 1] in c1 <==> ids[idx - 1] in c2
    ensures Unlocked(ids, c1, idx) == Unlocked(ids, c2, idx)
  {
  }

  /**
   * On the course page of a consistent state, lecture `i` is unlocked
   * exactly when it is the first or the caller has a progress row for the
   * lecture ordered just before it.
   */
  lemma CourseViewUnlockedIff(db: Db, caller: Claims, courseId: int, i: int)
    requires Valid(db) && Consistent(db) && CourseExists(db, courseId)
    requires 0 <= i < |LecturesOf(db, courseId)|
    ensures var ids := LectureIds(CourseDetail(db, courseId).value.lectures);
            |ids| == |LecturesOf(db, courseId)| &&
            (Unlocked(ids, CompletedLectureIds(db, caller, courseId), i) <==>
               i == 0 || HasCompletedLecture(db, caller.id, LecturesOf(db, courseId)[i - 1].id))
  {
    CourseDetailInOrder(db, courseId);
    if i > 0 {
      var prev := LecturesOf(db, courseId)[i - 1];
      assert prev in LecturesOf(db, courseId);
      ListedIffCompleted(db, caller, courseId, prev);
    }
  }

  /** Once the caller has a row for the lecture before `i`, lecture `i` is unlocked on the course page. */
  lemma UnlockedByRow(db: Db, caller: Claims, courseId: int, i: int)
    requires Valid(db) && Consistent(db) && CourseExists(db, courseId)
    requires 0 < i < |LecturesOf(db, courseId)|
    requires HasCompletedLecture(db, caller.id, LecturesOf(db, courseId)[i - 1].id)
    ensures 0 <= i < |LectureIds(CourseDetail(db, courseId).value.lectures)|
    ensures Unlocked(LectureIds(CourseDetail(db, courseId).value.lectures), CompletedLectureIds(db, caller, courseId), i)
  {
    CourseViewUnlockedIff(db, caller, courseId, i);
  }

  /**
   * A submitted quiz unlocks the next lecture whether or not it was
   * passed: the upsert leaves a row for the pair either way and the rule
   * only asks for a row.
   */
  lemma SubmittedQuizUnlocksNext(db: Db, caller: Claims, lectureId: int, answers: Option<Answers>, i: int)
    requires Valid(db) && Consistent(db)
    requires SubmitQuiz(db, caller, lectureId, answers).response.Ok?
    requires LectureExists(db, lectureId)
    requires var c := FindLecture(db, lectureId).value.courseId;
             0 < i < |LecturesOf(db, c)| && LecturesOf(db, c)[i - 1].id == lectureId
    ensures var st := SubmitQuiz(db, caller, lectureId, answers);
            var c := FindLecture(db, lectureId).value.courseId;
            CourseExists(st.db, c) && 0 <= i < |LectureIds(CourseDetail(st.db, c).value.lectures)| &&
            Unlocked(LectureIds(CourseDetail(st.db, c).value.lectures), CompletedLectureIds(st.db, caller, c), i)
  {
    var st := SubmitQuiz(db, caller, lectureId, answers);
    var c := FindLecture(db, lectureId).value.courseId;
    SubmitLeavesRow(db, caller, lectureId, answers);
    SubmitConsistent(db, caller, lectureId, answers);
    assert CourseExists(st.db, c) by {
      LectureCourseExists(db, lectureId);
    }
    UnlockedByRow(st.db, caller, c, i);
  }

  /** A lecture's course exists in a valid state. */
  lemma LectureCourseExists(db: Db, lectureId: int)
    requires Valid(db) && LectureExists(db, lectureId)
    ensures CourseExists(db, FindLecture(db, lectureId).value.courseId)
  {
    var lecture := FindLecture(db, lectureId).value;
    var i :| 0 <= i < |db.lectures| && db.lectures[i] == lecture;
    assert CourseExists(db, db.lectures[i].courseId);
  }

  /** An accepted submission leaves a row for the pair and touches no other table. */
  lemma SubmitLeavesRow(db: Db, caller: Claims, lectureId: int, answers: Option<Answers>)
    requires Valid(db)
    requires SubmitQuiz(db, caller, lectureId, answers).response.Ok?
    ensures var st := SubmitQuiz(db, caller, lectureId, answers);
            HasCompletedLecture(st.db, caller.id, lectureId) &&
            st.db.lectures == db.lectures && st.db.courses == db.courses
  {
    var st := SubmitQuiz(db, caller, lectureId, answers);
    SubmitRecordsLatest(db, caller, lectureId, answers);
    var row := RowsFor(st.db, caller.id, lectureId)[0];
    assert row in RowsFor(st.db, caller.id, lectureId);
  }

  /** A completed reading lecture unlocks the next lecture. */
  lemma CompletedReadingUnlocksNext(db: Db, caller: Claims, lectureId: int, i: int)
    requires Valid(db) && Consistent(db)
    requires Complete(db, caller, lectureId).response.Ok?
    requires LectureExists(db, lectureId)
    requires var c := FindLecture(db, lectureId).value.courseId;
             0 < i < |LecturesOf(db, c)| && LecturesOf(db, c)[i - 1].id == lectureId
    ensures var st := Complete(db, caller, lectureId);
            var c := FindLecture(db, lectureId).value.courseId;
            CourseExists(st.db, c) && 0 <= i < |LectureIds(CourseDetail(st.db, c).value.lectures)| &&
            Unlocked(LectureIds(CourseDetail(st.db, c).value.lectures), CompletedLectureIds(st.db, caller, c), i)
  {
    var st := Complete(db, caller, lectureId);
    var c := FindLecture(db, lectureId).value.courseId;
    assert st.db.lectures == db.lectures && st.db.courses == db.courses;
    CompleteConsistent(db, caller, lectureId);
    assert CourseExists(st.db, c) by {
      LectureCourseExists(db, lectureId);
    }
    UnlockedByRow(st.db, caller, c, i);
  }

  /** `Array.prototype.findIndex` on the lecture ids: the first position holding `id`, or -1. */
  function IndexOf(ids: seq<int>, id: int): (r: int)
    ensures -1 <= r < |ids|
    ensures r == -1 <==> id !in ids
    ensures r >= 0 ==> ids[r] == id && forall j :: 0 <= j < r ==> ids[j] != id
    decreases |ids|
  {
    if |ids| == 0 then -1
    else if ids[0] == id then 0
    else
      var k := IndexOf(ids[1..], id);
      if k == -1 then -1 else k + 1
  }

  /**
   * The lecture page's re-check. Signed out, the lecture is open. Signed in,
   * the page fetches the course (`course`, None when the request fails) and
   * the completed ids (`completed`, None when that request fails); a failed
   * request, a lecture missing from its course or the first position all
   * leave it open, otherwise the predecessor must be completed.
   */
  predicate LectureGate(signedIn: bool, lectureId: int, course: Option<seq<int>>, completed: Option<seq<int>>) {
    if !signedIn || course.None? then true
    else
      var idx := IndexOf(course.value, lectureId);
      if idx <= 0 || completed.None? then true
      else course.value[idx - 1] in completed.value
  }

  /** The lecture page locks only what the course page locks, and opens on every failure. */
  lemma LectureGateAgrees(signedIn: bool, ids: seq<int>, completed: Option<seq<int>>, i: int)
    requires 0 <= i < |ids|
    requires forall j :: 0 <= j < i ==> ids[j] != ids[i]
    ensures !signedIn || completed.None? ==> LectureGate(signedIn, ids[i], Some(ids), completed)
    ensures signedIn && completed.Some? ==>
              LectureGate(signedIn, ids[i], Some(ids), completed) == Unlocked(ids, completed.value, i)
  {
    assert IndexOf(ids, ids[i]) == i;
  }

  /** A lecture that is not in its course's list, or a failed course fetch, is never locked. */
  lemma LectureGateOpensOnMiss(signedIn: bool, lectureId: int, course: Option<seq<int>>, completed: Option<seq<int>>)
    requires course.None? || lectureId !in course.value
    ensures LectureGate(signedIn, lectureId, course, completed)
  {
  }

  /** The pages the router renders; the parameter is the third hash segment, if any. */
  datatype Page =
    | Home | Courses | CoursePage(param: Option<string>) | LecturePage(param: Option<string>)
    | ProgressPage(param: Option<string>) | LoginPage | RegisterPage | InstructorPage
    | ForbiddenPage | MyLearning | UnknownPage

  /** Array destructuring: a missing element is `undefined`. */
  function Part(parts: seq<string>, k: nat): (r: Option<string>)
    ensures r.Some? <==> k < |parts|
    ensures r.Some? ==> r.value == parts[k]
  {
    if k < |parts| then Some(parts[k]) else None
  }

  /** The path the router splits: the hash without its '#', or "/" when that is empty. */
  function RoutePath(hash: string): (r: string)
    ensures |r| > 0
    ensures |hash| > 1 ==> r == hash[1..]
  {
    var h := SliceFrom(hash, 1);
    if h == "" then "/" else h
  }

  /** The `switch (route)`; the instructor page needs the instructor role. */
  function Dispatch(route: Option<string>, param: Option<string>, role: Option<Role>): (r: Page)
    ensures r == InstructorPage ==> role == Some(Instructor)
    ensures r == ForbiddenPage ==> role != Some(Instructor)
    ensures route.None? ==> r == UnknownPage
  {
    match route
    case None => UnknownPage
    case Some(name) =>
      if name == "" then Home
      else if name == "courses" then Courses
      else if name == "course" then CoursePage(param)
      else if name == "lecture" then LecturePage(param)
      else if name == "progress" then ProgressPage(param)
      else if name == "login" then LoginPage
      else if name == "register" then RegisterPage
      else if name == "instructor" then (if role == Some(Instructor) then InstructorPage else ForbiddenPage)
      else if name == "mylearning" then MyLearning
      else UnknownPage
  }

  /**
   * `router()`: the path split on '/'; its second segment picks the page
   * and its third is the page's parameter.
   */
  function Route(hash: string, role: Option<Role>): (r: Page)
    ensures r == InstructorPage ==> role == Some(Instructor)
    ensures r == ForbiddenPage ==> role != Some(Instructor)
  {
    var parts := Split(RoutePath(hash), '/');
    Dispatch(Part(parts, 1), Part(parts, 2), role)
  }

  /** The route names the switch knows. */
  const RouteNames: set<string> :=
    {"", "courses", "course", "lecture", "progress", "login", "register", "instructor", "mylearning"}

  /** An empty hash, a bare "#" and "#/" all show the home page. */
  lemma EmptyHashIsHome(role: Option<Role>)
    ensures Route("", role) == Home && Route("#", role) == Home && Route("#/", role) == Home
  {
    assert RoutePath("") == "/" && RoutePath("#") == "/" && RoutePath("#/") == "/";
    assert Split("/", '/') == ["", ""] by {
      assert Split("/"[1..], '/') == [""];
    }
  }

  /** A path `/route/param/rest` splits into "", the route, the parameter and the parts of `rest`. */
  lemma SplitRoute(route: string, param: string, rest: string)
    requires '/' !in route && '/' !in param
    ensures Split("/" + route + "/" + param + "/" + rest, '/') == ["", route, param] + Split(rest, '/')
  {
    var a := param + ['/'] + rest;
    var b := route + ['/'] + a;
    var c := "" + ['/'] + b;
    SplitCons(param, '/', rest);
    SplitCons(route, '/', a);
    SplitCons("", '/', b);
    assert Split(c, '/') == ["", route, param] + Split(rest, '/');
    assert c == "/" + route + "/" + param + "/" + rest;
  }

  /** A path `/route/param` splits into exactly "", the route and the parameter. */
  lemma SplitRouteParam(route: string, param: string)
    requires '/' !in route && '/' !in param
    ensures Split("/" + route + "/" + param, '/') == ["", route, param]
  {
    SplitNoSep(param, '/');
    SplitCons(route, '/', param);
    SplitCons("", '/', route + "/" + param);
    assert "/" + route + "/" + param == "" + ['/'] + (route + "/" + param);
    assert route + "/" + param == route + ['/'] + param;
  }

  /** `#/route/param` reaches the switch with that route and parameter. */
  lemma RouteOfSegments(route: string, param: string, role: Option<Role>)
    requires '/' !in route && '/' !in param
    ensures Route("#/" + route + "/" + param, role) == Dispatch(Some(route), Some(param), role)
  {
    var hash := "#/" + route + "/" + param;
    assert RoutePath(hash) == "/" + route + "/" + param;
    SplitRouteParam(route, param);
  }

  /** Segments after the parameter are ignored: `#/course/7/extra` is `#/course/7`. */
  lemma RouteIgnoresExtraSegments(route: string, param: string, rest: string, role: Option<Role>)
    requires '/' !in route && '/' !in param
    ensures Route("#/" + route + "/" + param + "/" + rest, role) == Route("#/" + route + "/" + param, role)
  {
    var hash := "#/" + route + "/" + param + "/" + rest;
    assert RoutePath(hash) == "/" + route + "/" + param + "/" + rest;
    SplitRoute(route, param, rest);
    var parts := Split(RoutePath(hash), '/');
    assert Part(parts, 1) == Some(route) && Part(parts, 2) == Some(param);
    RouteOfSegments(route, param, role);
  }

  /** A route the switch does not know shows "Not found". */
  lemma UnknownRouteNotFound(route: string, param: string, role: Option<Role>)
    requires '/' !in route && '/' !in param && route !in RouteNames
    ensures Route("#/" + route + "/" + param, role) == UnknownPage
  {
    RouteOfSegments(route, param, role);
  }

  /** A hash without '/' is a single segment, so there is no route: "Not found". */
  lemma NoSlashNotFound(path: string, role: Option<Role>)
    requires path != "" && '/' !in path
    ensures Route("#" + path, role) == UnknownPage
  {
    assert RoutePath("#" + path) == path;
    SplitNoSep(path, '/');
  }

  /** The instructor page is shown exactly to instructors; everyone else sees "Forbidden". */
  lemma InstructorRouteGated(param: string, role: Option<Role>)
    requires '/' !in param
    ensures Route("#/instructor/" + param, role) == (if role == Some(Instructor) then InstructorPage else ForbiddenPage)
  {
    assert "#/instructor/" + param == "#/" + "instructor" + "/" + param;
    RouteOfSegments("instructor", param, role);
  }

  /** The value of a non-empty run of decimal digits. */
  function DigitsValue(s: string): (r: nat)
    requires forall i :: 0 <= i < |s| ==> '0' <= s[i] <= '9'
    decreases |s|
  {
    if |s| == 0 then 0 else 10 * DigitsValue(s[..|s| - 1]) + (s[|s| - 1] - '0') as nat
  }

  predicate AllDigits(s: string) {
    forall i :: 0 <= i < |s| ==> '0' <= s[i] <= '9'
  }

  /**
   * `Number(v)` for a radio value. The rendered option ids are digit
   * strings, whose value is their decimal reading ("" is 0); any other
   * string is out of scope (None).
   */
  function ToNumber(v: string): (r: Option<int>)
    ensures r.Some? <==> AllDigits(v)
    ensures r.Some? ==> r.value >= 0
  {
    if AllDigits(v) then Some(DigitsValue(v)) else None
  }

  /** The decimal spelling of a natural number, the digits an option id is rendered with. */
  function Decimal(n: nat): (r: string)
    ensures |r| > 0 && AllDigits(r)
    decreases n
  {
    if n < 10 then [('0' as int + n) as char] else Decimal(n / 10) + [('0' as int + n % 10) as char]
  }

  /** Reading back a rendered option id gives the id: `Number` inverts the rendering. */
  lemma {:induction false} ToNumberDecimal(n: nat)
    ensures ToNumber(Decimal(n)) == Some(n)
    decreases n
  {
    var d := Decimal(n);
    if n < 10 {
      assert d[..0] == [];
      assert DigitsValue(d) == 10 * DigitsValue(d[..0]) + (d[0] - '0') as nat;
    } else {
      ToNumberDecimal(n / 10);
      assert d[..|d| - 1] == Decimal(n / 10);
      assert DigitsValue(d) == 10 * DigitsValue(d[..|d| - 1]) + (d[|d| - 1] - '0') as nat;
    }
  }

  /** A form field that names a question: its key starts with 'q'. */
  predicate QuestionField(key: string) { StartsWith(key, "q") }

  /**
   * The quiz form handler's loop: each field whose key starts with 'q'
   * sets `answers[key.slice(1)] = Number(value)`, later fields overwriting
   * earlier ones.
   */
  function ExtractAnswers(entries: seq<(string, string)>): (r: map<string, Option<int>>)
    decreases |entries|
  {
    if |entries| == 0 then map[]
    else
      var m := ExtractAnswers(entries[..|entries| - 1]);
      var (k, v) := entries[|entries| - 1];
      if QuestionField(k) then m[k[1..] := ToNumber(v)] else m
  }

  /** The answer keys are the question fields' keys without their 'q'. */
  lemma {:induction false} ExtractAnswersKeys(entries: seq<(string, string)>, key: string)
    ensures key in ExtractAnswers(entries) <==>
              exists i :: 0 <= i < |entries| && QuestionField(entries[i].0) && entries[i].0[1..] == key
    decreases |entries|
  {
    if |entries| > 0 {
      var init := entries[..|entries| - 1];
      ExtractAnswersKeys(init, key);
      if key in ExtractAnswers(init) {
        var i :| 0 <= i < |init| && QuestionField(init[i].0) && init[i].0[1..] == key;
        assert entries[i] == init[i];
      }
      if exists i :: 0 <= i < |entries| && QuestionField(entries[i].0) && entries[i].0[1..] == key {
        var i :| 0 <= i < |entries| && QuestionField(entries[i].0) && entries[i].0[1..] == key;
        if i < |init| {
          assert init[i] == entries[i];
        }
      }
    }
  }

  /** The last field for a question decides its answer. */
  lemma {:induction false} ExtractAnswersLastWins(entries: seq<(string, string)>, i: int)
    requires 0 <= i < |entries| && QuestionField(entries[i].0)
    requires forall j :: i < j < |entries| && QuestionField(entries[j].0) ==> entries[j].0[1..] != entries[i].0[1..]
    ensures entries[i].0[1..] in ExtractAnswers(entries)
    ensures ExtractAnswers(entries)[entries[i].0[1..]] == ToNumber(entries[i].1)
    decreases |entries|
  {
    if i < |entries| - 1 {
      var init := entries[..|entries| - 1];
      assert init[i] == entries[i];
      ExtractAnswersLastWins(init, i);
    }
  }
}
