/**
 * `seedIfEmpty` of server/src/app.js: unless 20 courses exist, make sure an
 * instructor and a student exist, then add each topic as a course with two
 * reading lectures and a three-question quiz, numbered 1, 2, 3. The whole
 * seed runs inside one `try`: a failing statement ends it and keeps what
 * was written before. Password hashes come in as parameters.
 */
module Seed {
  import opened Wrappers
  import opened Rows
  import opened Schema
  import opened Queries

  datatype Topic = Topic(title: string, description: string)

  const Topics: seq<Topic> := [
    Topic("JavaScript Foundations", "Learn JavaScript fundamentals: runtime, variables, types, functions, and control flow."),
    Topic("HTML & CSS Essentials", "Build semantic HTML with responsive, modern CSS layouts."),
    Topic("Git & GitHub", "Version control basics: commits, branches, merges, and pull requests."),
    Topic("Linux Basics", "Filesystem, permissions, processes, and essential CLI commands."),
    Topic("Data Structures in JS", "Arrays, objects, sets, maps; complexity and practical patterns."),
    Topic("Algorithms Basics", "Sorting, searching, recursion, and problem decomposition."),
    Topic("HTTP & REST", "Requests, responses, status codes, headers, and RESTful APIs."),
    Topic("Node.js Fundamentals", "Event loop, modules, npm, and building CLIs."),
    Topic("Express.js Essentials", "Routing, middleware, error handling, and APIs."),
    Topic("SQL Basics", "Relational modeling, SELECT/INSERT/UPDATE/DELETE, joins."),
    Topic("SQLite Practical", "File-based DB, schema design, indexes, transactions."),
    Topic("NoSQL Basics", "Documents vs key-value, modeling trade-offs, eventual consistency."),
    Topic("TypeScript Basics", "Types, interfaces, generics, and incremental adoption."),
    Topic("Web Accessibility", "ARIA, semantics, focus management, keyboard navigation."),
    Topic("Testing Fundamentals", "Unit, integration, E2E testing and test pyramids."),
    Topic("Security Basics", "OWASP Top 10, input validation, auth, and secrets handling."),
    Topic("Cloud Basics", "Compute, storage, networking, and shared responsibility model."),
    Topic("Docker Basics", "Images, containers, volumes, and Dockerfiles."),
    Topic("CI/CD Essentials", "Build pipelines, tests, artifact storage, and deployments."),
    Topic("System Design Intro", "Scalability, reliability, load balancers, and caching.")
  ]

  /** With this many courses the seed does nothing. */
  const SeedThreshold: nat := 20

  const InstructorEmail: string := "instructor@example.com"
  const StudentEmail: string := "student@example.com"

  /** How far a seed got: the state after the statements that ran, and whether all of them did. */
  datatype Run = Run(db: Db, ok: bool)

  const OverviewTail: string :=
    "</p><ul><li>Concepts and terminology</li><li>Use-cases and best practices</li><li>Common pitfalls</li></ul>"

  function OverviewContent(description: string): string {
    "<p>" + description + OverviewTail
  }

  const TechniquesContent: string :=
    "<p>Hands-on techniques and patterns:</p><ol><li>Setup and tooling</li><li>Core APIs/features</li><li>Performance tips</li></ol>"

  /** A seeded question: its text and its options, each with its correctness. */
  datatype SeedItem = SeedItem(text: string, options: seq<(string, bool)>)

  /** A seeded lecture's type, title and content. */
  datatype LectureSpec = LectureSpec(kind: LectureType, title: string, content: Option<string>)

  /** What one topic's course is seeded with: its lectures in order, and the questions of the last one. */
  datatype CourseTexts = CourseTexts(lectures: seq<LectureSpec>, questions: seq<SeedItem>)

  /** Two readings and a quiz of three questions; the second option of each question is the correct one. */
  function TopicTexts(t: Topic): CourseTexts {
    CourseTexts(
      [ LectureSpec(Reading, t.title + ": Overview", Some(OverviewContent(t.description))),
        LectureSpec(Reading, t.title + ": Core Techniques", Some(TechniquesContent)),
        LectureSpec(Quiz, t.title + ": Quick Check", None) ],
      [ SeedItem("Which statement about " + t.title + " is true?",
                 [("It solves every problem perfectly", false), ("It has trade-offs that must be understood", true),
                  ("It eliminates the need for design", false), ("It is always the wrong choice", false)]),
        SeedItem("In practice, " + t.title + " requires:",
                 [("Memorizing without context", false), ("Applying concepts to real problems", true),
                  ("Ignoring performance and users", false), ("Copying code blindly", false)]),
        SeedItem("A key best practice in " + t.title + " is:",
                 [("Avoid testing or validation", false), ("Use clear structure and iterate", true),
                  ("Never document anything", false), ("Prefer magic over clarity", false)]) ])
  }

  /**
   * Every topic gets readings at 1 and 2 and the quiz at 3; every quiz
   * question has four options of which exactly the second is correct.
   */
  lemma TopicTextsShape(t: Topic)
    ensures var texts := TopicTexts(t);
            && |texts.lectures| == 3
            && texts.lectures[0].kind == Reading && texts.lectures[1].kind == Reading
            && texts.lectures[2].kind == Quiz
            && |texts.questions| == 3
            && forall k :: 0 <= k < 3 ==>
                 var os := texts.questions[k].options;
                 |os| == 4 && forall j :: 0 <= j < 4 ==> (os[j].1 <==> j == 1)
  {
  }

  /** The options of one seeded question, in order. */
  function SeedOptions(db: Db, questionId: int, os: seq<(string, bool)>): (run: Run)
    ensures run.db.users == db.users && run.db.courses == db.courses && run.db.lectures == db.lectures
    ensures run.db.questions == db.questions && run.db.progress == db.progress
    ensures |db.options| <= |run.db.options| && run.db.options[..|db.options|] == db.options
    ensures Valid(db) ==> Valid(run.db)
    ensures QuestionExists(db, questionId) ==> run.ok && |run.db.options| == |db.options| + |os|
    ensures !QuestionExists(db, questionId) && |os| > 0 ==> run == Run(db, false)
    decreases |os|
  {
    if |os| == 0 then Run(db, true)
    else
      match InsertOption(db, questionId, os[0].0, os[0].1)
      case Err(_) => Run(db, false)
      case Ok((db1, _)) =>
        var run := SeedOptions(db1, questionId, os[1..]);
        PrefixOfPrefix(db.options, db1.options, run.db.options);
        run
  }

  /** One step of `SeedOptions` on an existing question: the first option goes in, the rest follow. */
  lemma SeedOptionsStep(db: Db, questionId: int, os: seq<(string, bool)>)
    requires QuestionExists(db, questionId) && |os| > 0
    ensures InsertOption(db, questionId, os[0].0, os[0].1).Ok?
    ensures var db1 := InsertOption(db, questionId, os[0].0, os[0].1).value.0;
            && QuestionExists(db1, questionId)
            && |db1.options| == |db.options| + 1
            && db1.options[|db.options|].questionId == questionId
            && db1.options[|db.options|].text == os[0].0
            && db1.options[|db.options|].isCorrect == os[0].1
            && SeedOptions(db, questionId, os) == SeedOptions(db1, questionId, os[1..])
  {
  }

  /** The k-th seeded option is the k-th given one, on that question. */
  lemma {:induction false} SeedOptionsStored(db: Db, questionId: int, os: seq<(string, bool)>, k: int)
    requires QuestionExists(db, questionId) && 0 <= k < |os|
    ensures var run := SeedOptions(db, questionId, os);
            && |run.db.options| == |db.options| + |os|
            && var o := run.db.options[|db.options| + k];
            && o.questionId == questionId && o.text == os[k].0 && o.isCorrect == os[k].1
    decreases |os|
  {
    SeedOptionsStep(db, questionId, os);
    var db1 := InsertOption(db, questionId, os[0].0, os[0].1).value.0;
    var run := SeedOptions(db1, questionId, os[1..]);
    if k == 0 {
      assert run.db.options[|db.options|] == run.db.options[..|db1.options|][|db.options|];
    } else {
      SeedOptionsStored(db1, questionId, os[1..], k - 1);
      assert os[1..][k - 1] == os[k];
    }
  }

  /** A quiz lecture's questions, each followed by its options. */
  function SeedQuiz(db: Db, lectureId: int, items: seq<SeedItem>): (run: Run)
    ensures run.db.users == db.users && run.db.courses == db.courses && run.db.lectures == db.lectures
    ensures run.db.progress == db.progress
    ensures |db.questions| <= |run.db.questions| && run.db.questions[..|db.questions|] == db.questions
    ensures Valid(db) ==> Valid(run.db)
    ensures Valid(db) && LectureExists(db, lectureId) ==> run.ok && |run.db.questions| == |db.questions| + |items|
    decreases |items|
  {
    if |items| == 0 then Run(db, true)
    else
      match InsertQuestion(db, lectureId, items[0].text)
      case Err(_) => Run(db, false)
      case Ok((db1, questionId)) =>
        assert QuestionExists(db1, questionId) by {
          assert db1.questions[|db.questions|] in db1.questions;
        }
        var run1 := SeedOptions(db1, questionId, items[0].options);
        if !run1.ok then run1
        else
          var run := SeedQuiz(run1.db, lectureId, items[1..]);
          PrefixOfPrefix(db.questions, db1.questions, run.db.questions);
          run
  }

  /** Lectures of one course with consecutive order indices from `next` (`orderIdx++`). */
  function AddLectures(db: Db, courseId: int, specs: seq<LectureSpec>, next: int): (run: Run)
    ensures run.db.users == db.users && run.db.courses == db.courses && run.db.questions == db.questions
    ensures run.db.options == db.options && run.db.progress == db.progress
    ensures |db.lectures| <= |run.db.lectures| <= |db.lectures| + |specs|
    ensures run.db.lectures[..|db.lectures|] == db.lectures
    ensures Valid(db) ==> Valid(run.db)
    ensures run.ok ==> |run.db.lectures| == |db.lectures| + |specs|
    ensures CourseExists(db, courseId) && (forall l :: l in db.lectures && l.courseId == courseId ==> l.orderIndex < next) ==>
              run.ok
    decreases |specs|
  {
    if |specs| == 0 then Run(db, true)
    else
      match InsertLecture(db, courseId, next, specs[0].kind, specs[0].title, specs[0].content)
      case Err(_) => Run(db, false)
      case Ok((db1, _)) =>
        var run := AddLectures(db1, courseId, specs[1..], next + 1);
        PrefixOfPrefix(db.lectures, db1.lectures, run.db.lectures);
        run
  }

  /** Every added lecture belongs to the course, carries its spec and is numbered on from `next`. */
  lemma {:induction false} AddLecturesRow(db: Db, courseId: int, specs: seq<LectureSpec>, next: int, k: int)
    requires |db.lectures| <= k < |AddLectures(db, courseId, specs, next).db.lectures|
    ensures var l := AddLectures(db, courseId, specs, next).db.lectures[k];
            && k - |db.lectures| < |specs|
            && l.courseId == courseId && l.orderIndex == next + (k - |db.lectures|)
            && l.kind == specs[k - |db.lectures|].kind && l.title == specs[k - |db.lectures|].title
    decreases |specs|
  {
    assert |specs| > 0 && InsertLecture(db, courseId, next, specs[0].kind, specs[0].title, specs[0].content).Ok?;
    AddLecturesUnfold(db, courseId, specs, next);
    var db1 := InsertLecture(db, courseId, next, specs[0].kind, specs[0].title, specs[0].content).value.0;
    var run := AddLectures(db1, courseId, specs[1..], next + 1);
    if k == |db.lectures| {
      assert run.db.lectures[k] == run.db.lectures[..|db1.lectures|][k];
    } else {
      AddLecturesRow(db1, courseId, specs[1..], next + 1, k);
      assert specs[1..][k - |db1.lectures|] == specs[k - |db.lectures|];
    }
  }

  /** One step of `AddLectures`: the first spec becomes the next lecture row, the rest follow. */
  lemma AddLecturesUnfold(db: Db, courseId: int, specs: seq<LectureSpec>, next: int)
    requires |specs| > 0
    requires InsertLecture(db, courseId, next, specs[0].kind, specs[0].title, specs[0].content).Ok?
    ensures var db1 := InsertLecture(db, courseId, next, specs[0].kind, specs[0].title, specs[0].content).value.0;
            && |db1.lectures| == |db.lectures| + 1
            && var l := db1.lectures[|db.lectures|];
            && l.courseId == courseId && l.orderIndex == next && l.kind == specs[0].kind && l.title == specs[0].title
            && AddLectures(db, courseId, specs, next) == AddLectures(db1, courseId, specs[1..], next + 1)
  {
  }

  /**
   * Appending lectures numbered on from the course's count keeps every
   * course's order indices 1..n.
   */
  lemma {:induction false} AddLecturesContiguous(db: Db, courseId: int, specs: seq<LectureSpec>, next: int)
    requires Contiguous(db) && next == CourseLectureCount(db, courseId) + 1
    ensures Contiguous(AddLectures(db, courseId, specs, next).db)
    decreases |specs|
  {
    if |specs| == 0 {
      assert AddLectures(db, courseId, specs, next).db == db;
    } else {
      var r := InsertLecture(db, courseId, next, specs[0].kind, specs[0].title, specs[0].content);
      if r.Ok? {
        AddLectureStep(db, courseId, specs, next);
        AddLecturesContiguous(r.value.0, courseId, specs[1..], next + 1);
      } else {
        assert AddLectures(db, courseId, specs, next).db == db;
      }
    }
  }

  /** One step of `AddLectures`: the first lecture goes in at the next index, keeping the numbering. */
  lemma AddLectureStep(db: Db, courseId: int, specs: seq<LectureSpec>, next: int)
    requires Contiguous(db) && next == CourseLectureCount(db, courseId) + 1 && |specs| > 0
    requires InsertLecture(db, courseId, next, specs[0].kind, specs[0].title, specs[0].content).Ok?
    ensures var db1 := InsertLecture(db, courseId, next, specs[0].kind, specs[0].title, specs[0].content).value.0;
            && Contiguous(db1)
            && next + 1 == CourseLectureCount(db1, courseId) + 1
            && AddLectures(db, courseId, specs, next) == AddLectures(db1, courseId, specs[1..], next + 1)
  {
    var db1 := InsertLecture(db, courseId, next, specs[0].kind, specs[0].title, specs[0].content).value.0;
    var row := db1.lectures[|db.lectures|];
    assert db1.lectures == db.lectures + [row];
    ContiguousAfterAppend(db, db1, row);
    CountAfterAppend(db, db1, row);
  }

  /** The lectures of a new course, numbered from 1, the last one followed by its questions. */
  function SeedLectures(db: Db, courseId: int, texts: CourseTexts): (run: Run)
    ensures run.db.users == db.users && run.db.courses == db.courses && run.db.progress == db.progress
    ensures |db.lectures| <= |run.db.lectures| && run.db.lectures[..|db.lectures|] == db.lectures
    ensures Valid(db) ==> Valid(run.db)
    ensures Valid(db) && CourseExists(db, courseId) && (forall l :: l in db.lectures ==> l.courseId != courseId) ==>
              run.ok && |run.db.lectures| == |db.lectures| + |texts.lectures|
  {
    var run := AddLectures(db, courseId, texts.lectures, 1);
    if !run.ok || |texts.lectures| == 0 then run
    else
      var last := run.db.lectures[|run.db.lectures| - 1];
      assert LectureExists(run.db, last.id) by {
        assert last in run.db.lectures;
      }
      var run2 := SeedQuiz(run.db, last.id, texts.questions);
      run2
  }

  /** One topic: its course, owned by the instructor, and the course's lectures. */
  function SeedCourse(db: Db, instructorId: int, t: Topic, texts: CourseTexts): (run: Run)
    ensures run.db.users == db.users && run.db.progress == db.progress
    ensures |db.courses| <= |run.db.courses| <= |db.courses| + 1 && run.db.courses[..|db.courses|] == db.courses
    ensures |db.lectures| <= |run.db.lectures| && run.db.lectures[..|db.lectures|] == db.lectures
    ensures Valid(db) ==> Valid(run.db)
    ensures !UserExists(db, instructorId) ==> run == Run(db, false)
    ensures Valid(db) && UserExists(db, instructorId) ==>
              && run.ok && |run.db.courses| == |db.courses| + 1
              && var c := run.db.courses[|db.courses|];
              && c.title == t.title && c.description == t.description && c.instructorId == instructorId
              && |run.db.lectures| == |db.lectures| + |texts.lectures|
  {
    match InsertCourse(db, t.title, t.description, instructorId)
    case Err(_) => Run(db, false)
    case Ok((db1, courseId)) =>
      assert CourseExists(db1, courseId) by {
        assert db1.courses[|db.courses|] in db1.courses;
      }
      assert Valid(db) ==> forall l :: l in db1.lectures ==> l.courseId != courseId by {
        if Valid(db) {
          NoLecturesYet(db, courseId);
        }
      }
      var run := SeedLectures(db1, courseId, texts);
      assert run.db.courses[..|db.courses|] == db.courses;
      run
  }

  /** A seeded course's k-th lecture belongs to it and is numbered k + 1. */
  lemma SeedCourseLectures(db: Db, instructorId: int, t: Topic, texts: CourseTexts, k: int)
    requires Valid(db) && UserExists(db, instructorId)
    requires |db.lectures| <= k < |SeedCourse(db, instructorId, t, texts).db.lectures|
    ensures var run := SeedCourse(db, instructorId, t, texts);
            && |run.db.courses| == |db.courses| + 1
            && run.db.lectures[k].courseId == run.db.courses[|db.courses|].id
            && run.db.lectures[k].orderIndex == k - |db.lectures| + 1
  {
    var (db1, courseId) := InsertCourse(db, t.title, t.description, instructorId).value;
    assert SeedCourse(db, instructorId, t, texts) == SeedLectures(db1, courseId, texts);
    var added := AddLectures(db1, courseId, texts.lectures, 1);
    assert SeedLectures(db1, courseId, texts).db.lectures == added.db.lectures;
    AddLecturesRow(db1, courseId, texts.lectures, 1, k);
  }

  /** A course id above every existing one has no lectures yet. */
  lemma NoLecturesYet(db: Db, courseId: int)
    requires Valid(db) && forall c :: c in db.courses ==> c.id < courseId
    ensures forall l :: l in db.lectures ==> l.courseId != courseId
  {
    forall l | l in db.lectures ensures l.courseId != courseId {
      var i :| 0 <= i < |db.lectures| && db.lectures[i] == l;
      assert CourseExists(db, db.lectures[i].courseId);
    }
  }

  /** Seeding a new course's lectures keeps the handlers' invariants. */
  lemma SeedLecturesConsistent(db: Db, courseId: int, texts: CourseTexts)
    requires Valid(db) && Consistent(db)
    requires forall l :: l in db.lectures ==> l.courseId != courseId
    ensures Consistent(SeedLectures(db, courseId, texts).db)
  {
    var added := AddLectures(db, courseId, texts.lectures, 1);
    AddLecturesContiguous(db, courseId, texts.lectures, 1);
    RecordsAfterLectureAppend(db, added.db);
    assert Consistent(added.db);
    var run := SeedLectures(db, courseId, texts);
    ConsistentFrame(added.db, run.db);
  }

  /** Seeding a course keeps the handlers' invariants: its lectures are numbered 1, 2, ... */
  lemma SeedCourseConsistent(db: Db, instructorId: int, t: Topic, texts: CourseTexts)
    requires Valid(db) && Consistent(db)
    ensures Consistent(SeedCourse(db, instructorId, t, texts).db)
  {
    match InsertCourse(db, t.title, t.description, instructorId)
    case Err(_) =>
    case Ok((db1, courseId)) =>
      ConsistentFrame(db, db1);
      NoLecturesYet(db, courseId);
      assert SeedCourse(db, instructorId, t, texts) == SeedLectures(db1, courseId, texts);
      SeedLecturesConsistent(db1, courseId, texts);
  }

  /** The topics in order; the first failing statement ends the loop. */
  function SeedTopics(db: Db, instructorId: int, ts: seq<Topic>, textsOf: Topic -> CourseTexts): (run: Run)
    ensures run.db.users == db.users && run.db.progress == db.progress
    ensures |db.courses| <= |run.db.courses| && run.db.courses[..|db.courses|] == db.courses
    ensures |db.lectures| <= |run.db.lectures| && run.db.lectures[..|db.lectures|] == db.lectures
    ensures Valid(db) ==> Valid(run.db)
    ensures Valid(db) && UserExists(db, instructorId) ==>
              && run.ok && |run.db.courses| == |db.courses| + |ts|
    decreases |ts|
  {
    if |ts| == 0 then Run(db, true)
    else
      var run1 := SeedCourse(db, instructorId, ts[0], textsOf(ts[0]));
      if !run1.ok then run1
      else
        var run := SeedTopics(run1.db, instructorId, ts[1..], textsOf);
        PrefixOfPrefix(db.courses, run1.db.courses, run.db.courses);
        PrefixOfPrefix(db.lectures, run1.db.lectures, run.db.lectures);
        run
  }

  function HasRole(role: Role): User -> bool { (u: User) => u.role == role }

  /** `SELECT id FROM users WHERE role = ? LIMIT 1`, or the user the seed inserts for that role. */
  function EnsureUser(db: Db, role: Role, email: string, passwordHash: string): (r: Result<(Db, int), DbError>)
    ensures r.Ok? ==> exists u :: u in r.value.0.users && u.id == r.value.1 && u.role == role
    ensures r.Ok? ==> r.value.0.courses == db.courses && r.value.0.lectures == db.lectures &&
                      r.value.0.progress == db.progress
    ensures r.Ok? ==> forall u :: u in db.users ==> u in r.value.0.users
    ensures r.Err? <==> (forall u :: u in db.users ==> u.role != role) && exists u :: u in db.users && u.email == email
    ensures (exists u :: u in db.users && u.role == role) ==>
              && r.Ok? && r.value.0 == db
              && exists i :: 0 <= i < |db.users| && db.users[i].role == role && r.value.1 == db.users[i].id &&
                             forall j :: 0 <= j < i ==> db.users[j].role != role
    ensures (forall u :: u in db.users ==> u.role != role) && r.Ok? ==>
              r.value.0.users == db.users + [User(r.value.1, email, passwordHash, role)]
    ensures Valid(db) && r.Ok? ==> Valid(r.value.0)
  {
    match Find(db.users, HasRole(role))
    case Some(u) =>
      assert u in db.users;
      assert exists i :: 0 <= i < |db.users| && db.users[i].role == role && u.id == db.users[i].id &&
                         forall j :: 0 <= j < i ==> db.users[j].role != role by {
        var i :| 0 <= i < |db.users| && db.users[i] == u && HasRole(role)(db.users[i]) &&
                 forall j :: 0 <= j < i ==> !HasRole(role)(db.users[j]);
      }
      Ok((db, u.id))
    case None =>
      match InsertUser(db, email, passwordHash, role)
      case Err(e) => Err(e)
      case Ok((db1, id)) =>
        assert db1.users[|db.users|] in db1.users;
        Ok((db1, id))
  }

  /** `seedIfEmpty()` over a topic list and the texts each topic is seeded with. */
  function SeedWith(db: Db, topics: seq<Topic>, textsOf: Topic -> CourseTexts,
                    instructorHash: string, studentHash: string): (run: Run)
    ensures |db.courses| >= SeedThreshold ==> run == Run(db, true)
    ensures Valid(db) ==> Valid(run.db)
    ensures run.db.progress == db.progress
    ensures |db.courses| <= |run.db.courses| && run.db.courses[..|db.courses|] == db.courses
  {
    if |db.courses| >= SeedThreshold then Run(db, true)
    else
      match EnsureUser(db, Instructor, InstructorEmail, instructorHash)
      case Err(_) => Run(db, false)
      case Ok((db1, instructorId)) =>
        match EnsureUser(db1, Student, StudentEmail, studentHash)
        case Err(_) => Run(db1, false)
        case Ok((db2, _)) =>
          SeedTopics(db2, instructorId, topics, textsOf)
  }

  /** `seedIfEmpty()` with its twenty built-in topics. */
  function SeedIfEmpty(db: Db, instructorHash: string, studentHash: string): (run: Run)
    ensures |db.courses| >= SeedThreshold ==> run == Run(db, true)
    ensures Valid(db) ==> Valid(run.db)
  {
    SeedWith(db, Topics, TopicTexts, instructorHash, studentHash)
  }

  lemma TopicsCount()
    ensures |Topics| == 20
  {
  }

  /** Seeding the topics one after another keeps the handlers' invariants. */
  lemma {:induction false} SeedTopicsConsistent(db: Db, instructorId: int, ts: seq<Topic>,
                                                textsOf: Topic -> CourseTexts)
    requires Valid(db) && Consistent(db)
    ensures Consistent(SeedTopics(db, instructorId, ts, textsOf).db)
    decreases |ts|
  {
    if |ts| > 0 {
      var run1 := SeedCourse(db, instructorId, ts[0], textsOf(ts[0]));
      SeedCourseConsistent(db, instructorId, ts[0], textsOf(ts[0]));
      if run1.ok {
        SeedTopicsConsistent(run1.db, instructorId, ts[1..], textsOf);
      }
    }
  }

  /** The whole seed keeps the handlers' invariants, wherever it stops. */
  lemma SeedWithConsistent(db: Db, topics: seq<Topic>, textsOf: Topic -> CourseTexts,
                           instructorHash: string, studentHash: string)
    requires Valid(db) && Consistent(db)
    ensures Consistent(SeedWith(db, topics, textsOf, instructorHash, studentHash).db)
  {
    if |db.courses| < SeedThreshold {
      match EnsureUser(db, Instructor, InstructorEmail, instructorHash)
      case Err(_) =>
      case Ok((db1, instructorId)) =>
        ConsistentFrame(db, db1);
        match EnsureUser(db1, Student, StudentEmail, studentHash)
        case Err(_) =>
        case Ok((db2, _)) =>
          ConsistentFrame(db1, db2);
          SeedTopicsConsistent(db2, instructorId, topics, textsOf);
    }
  }

  lemma SeedIfEmptyConsistent(db: Db, instructorHash: string, studentHash: string)
    requires Valid(db) && Consistent(db)
    ensures Consistent(SeedIfEmpty(db, instructorHash, studentHash).db)
  {
    SeedWithConsistent(db, Topics, TopicTexts, instructorHash, studentHash);
  }
  /** A role can be provided: some user has it already, or its seed email is free. */
  predicate Provides(db: Db, role: Role, email: string) {
    (exists u :: u in db.users && u.role == role) || forall u :: u in db.users ==> u.email != email
  }

  /**
   * Below the threshold, when both roles can be provided, the seed adds all
   * twenty topics, whatever number of courses was there before, and leaves
   * an instructor and a student behind.
   */
  lemma SeedWithSeeds(db: Db, topics: seq<Topic>, textsOf: Topic -> CourseTexts,
                      instructorHash: string, studentHash: string)
    requires Valid(db) && |db.courses| < SeedThreshold
    requires Provides(db, Instructor, InstructorEmail) && Provides(db, Student, StudentEmail)
    ensures var run := SeedWith(db, topics, textsOf, instructorHash, studentHash);
            && run.ok && |run.db.courses| == |db.courses| + |topics|
            && (exists u :: u in run.db.users && u.role == Instructor)
            && (exists u :: u in run.db.users && u.role == Student)
  {
    ProvidedUsers(db, instructorHash, studentHash);
    SeedWithUnfold(db, topics, textsOf, instructorHash, studentHash);
  }

  /** Below the threshold and with both users in place, the seed is the topics loop. */
  lemma SeedWithUnfold(db: Db, topics: seq<Topic>, textsOf: Topic -> CourseTexts,
                       instructorHash: string, studentHash: string)
    requires |db.courses| < SeedThreshold
    requires EnsureUser(db, Instructor, InstructorEmail, instructorHash).Ok?
    requires EnsureUser(EnsureUser(db, Instructor, InstructorEmail, instructorHash).value.0,
                        Student, StudentEmail, studentHash).Ok?
    ensures var r1 := EnsureUser(db, Instructor, InstructorEmail, instructorHash);
            var r2 := EnsureUser(r1.value.0, Student, StudentEmail, studentHash);
            SeedWith(db, topics, textsOf, instructorHash, studentHash) == SeedTopics(r2.value.0, r1.value.1, topics, textsOf)
  {
  }

  /** When both roles can be provided, both lookups succeed and leave an instructor and a student. */
  lemma ProvidedUsers(db: Db, instructorHash: string, studentHash: string)
    requires Valid(db)
    requires Provides(db, Instructor, InstructorEmail) && Provides(db, Student, StudentEmail)
    ensures var r1 := EnsureUser(db, Instructor, InstructorEmail, instructorHash);
            && r1.Ok?
            && var r2 := EnsureUser(r1.value.0, Student, StudentEmail, studentHash);
            && r2.Ok? && Valid(r2.value.0) && UserExists(r2.value.0, r1.value.1)
            && r2.value.0.courses == db.courses
            && (exists u :: u in r2.value.0.users && u.role == Instructor)
            && (exists u :: u in r2.value.0.users && u.role == Student)
  {
    InstructorProvided(db, instructorHash);
    var (db1, instructorId) := EnsureUser(db, Instructor, InstructorEmail, instructorHash).value;
    StudentProvided(db1, studentHash, instructorId);
  }

  /** The instructor lookup succeeds, and the student's email stays as it was. */
  lemma InstructorProvided(db: Db, instructorHash: string)
    requires Valid(db) && Provides(db, Instructor, InstructorEmail) && Provides(db, Student, StudentEmail)
    ensures var r1 := EnsureUser(db, Instructor, InstructorEmail, instructorHash);
            && r1.Ok? && Valid(r1.value.0) && UserExists(r1.value.0, r1.value.1)
            && Provides(r1.value.0, Student, StudentEmail)
            && (exists u :: u in r1.value.0.users && u.role == Instructor)
  {
    var (db1, instructorId) := EnsureUser(db, Instructor, InstructorEmail, instructorHash).value;
    assert forall u :: u in db1.users && u !in db.users ==> u.email == InstructorEmail && u.role == Instructor;
  }

  /** The student lookup succeeds and keeps the instructor. */
  lemma StudentProvided(db1: Db, studentHash: string, instructorId: int)
    requires Valid(db1) && UserExists(db1, instructorId) && Provides(db1, Student, StudentEmail)
    requires exists u :: u in db1.users && u.role == Instructor
    ensures var r2 := EnsureUser(db1, Student, StudentEmail, studentHash);
            && r2.Ok? && Valid(r2.value.0) && UserExists(r2.value.0, instructorId)
            && r2.value.0.courses == db1.courses
            && (exists u :: u in r2.value.0.users && u.role == Instructor)
            && (exists u :: u in r2.value.0.users && u.role == Student)
  {
    var u :| u in db1.users && u.role == Instructor;
    var v :| v in db1.users && v.id == instructorId;
  }

  /** With the built-in topics: twenty new courses. */
  lemma SeedIfEmptySeeds(db: Db, instructorHash: string, studentHash: string)
    requires Valid(db) && |db.courses| < SeedThreshold
    requires Provides(db, Instructor, InstructorEmail) && Provides(db, Student, StudentEmail)
    ensures var run := SeedIfEmpty(db, instructorHash, studentHash);
            run.ok && |run.db.courses| == |db.courses| + 20
  {
    SeedWithSeeds(db, Topics, TopicTexts, instructorHash, studentHash);
    TopicsCount();
  }

  /**
   * With no instructor and a student already holding the instructor seed
   * email, the insert hits UNIQUE(email) and nothing is seeded.
   */
  lemma SeedBlockedByTakenEmail(db: Db, instructorHash: string, studentHash: string)
    requires |db.courses| < SeedThreshold
    requires forall u :: u in db.users ==> u.role != Instructor
    requires exists u :: u in db.users && u.email == InstructorEmail
    ensures SeedIfEmpty(db, instructorHash, studentHash) == Run(db, false)
  {
    assert EnsureUser(db, Instructor, InstructorEmail, instructorHash).Err?;
  }
}
