/**
 * The relational state of the server (server/src/db.js): six tables held as
 * sequences of rows in insertion order, plus the AUTOINCREMENT counters SQLite
 * keeps for them. The column CHECK constraints (role, lecture type, progress
 * status, 0/1 flags) hold by construction of the enumerations and booleans
 * below; the UNIQUE and FOREIGN KEY constraints are the predicate `Valid`,
 * and every insert primitive refuses a row that would break one, as SQLite
 * does.
 */
module Schema {
  import opened Wrappers
  import opened Rows

  datatype Role = Instructor | Student
  datatype LectureType = Reading | Quiz
  datatype ProgressStatus = Completed | PassedQuiz

  /** The text stored in the `role` column. */
  function RoleName(r: Role): string {
    match r
    case Instructor => "instructor"
    case Student => "student"
  }

  /** Reads a role the way `['instructor','student'].includes(role)` accepts it. */
  function ParseRole(s: string): (r: Option<Role>)
    ensures r.Some? ==> RoleName(r.value) == s
    ensures r.None? ==> forall role: Role :: RoleName(role) != s
  {
    if s == "instructor" then Some(Instructor)
    else if s == "student" then Some(Student)
    else None
  }

  /** The text stored in the `type` column. */
  function TypeName(t: LectureType): string {
    match t
    case Reading => "reading"
    case Quiz => "quiz"
  }

  /** Reads a lecture type the way `['reading','quiz'].includes(type)` accepts it. */
  function ParseLectureType(s: string): (r: Option<LectureType>)
    ensures r.Some? ==> TypeName(r.value) == s
    ensures r.None? ==> forall t: LectureType :: TypeName(t) != s
  {
    if s == "reading" then Some(Reading)
    else if s == "quiz" then Some(Quiz)
    else None
  }

  datatype User = User(id: int, email: string, passwordHash: string, role: Role)
  datatype Course = Course(id: int, title: string, description: string, instructorId: int)
  /** `content` is NULL (None) for quiz lectures. */
  datatype Lecture = Lecture(id: int, courseId: int, orderIndex: int, kind: LectureType,
                             title: string, content: Option<string>)
  datatype Question = Question(id: int, lectureId: int, text: string)
  datatype AnswerOption = AnswerOption(id: int, questionId: int, text: string, isCorrect: bool)
  /** `score`, `total` and `passed` are NULL (None) on rows written for reading lectures. */
  datatype Progress = Progress(id: int, userId: int, courseId: int, lectureId: int,
                               status: ProgressStatus, score: Option<int>,
                               total: Option<int>, passed: Option<bool>)

  /** The largest id each table has handed out (SQLite's `sqlite_sequence`). */
  datatype Counters = Counters(users: nat, courses: nat, lectures: nat,
                               questions: nat, options: nat, progress: nat)

  datatype Db = Db(users: seq<User>, courses: seq<Course>, lectures: seq<Lecture>,
                   questions: seq<Question>, options: seq<AnswerOption>,
                   progress: seq<Progress>, counters: Counters)

  const EmptyDb := Db([], [], [], [], [], [], Counters(0, 0, 0, 0, 0, 0))

  /** The error SQLite raises for a statement that would break a constraint. */
  datatype DbError = UniqueViolation | ForeignKeyViolation

  // Keys of the UNIQUE constraints, as named functions so that every use denotes the same key.
  function UserId(u: User): int { u.id }
  function UserEmail(u: User): string { u.email }
  function CourseId(c: Course): int { c.id }
  function LectureId(l: Lecture): int { l.id }
  /** UNIQUE(course_id, order_index). */
  function LectureSlot(l: Lecture): (int, int) { (l.courseId, l.orderIndex) }
  function QuestionId(q: Question): int { q.id }
  function OptionId(o: AnswerOption): int { o.id }
  function ProgressId(p: Progress): int { p.id }
  /** UNIQUE(user_id, lecture_id). */
  function ProgressPair(p: Progress): (int, int) { (p.userId, p.lectureId) }

  predicate UserExists(db: Db, id: int) { exists u :: u in db.users && u.id == id }
  predicate CourseExists(db: Db, id: int) { exists c :: c in db.courses && c.id == id }
  predicate LectureExists(db: Db, id: int) { exists l :: l in db.lectures && l.id == id }
  predicate QuestionExists(db: Db, id: int) { exists q :: q in db.questions && q.id == id }

  /** Every id lies in 1..counter: ids come from the AUTOINCREMENT counter. */
  ghost predicate Numbered<T>(s: seq<T>, key: T -> int, counter: nat) {
    forall i :: 0 <= i < |s| ==> 1 <= key(s[i]) <= counter
  }

  /** Appending the row numbered one past the counter keeps the numbering, below the new id. */
  lemma NumberedSnoc<T>(s: seq<T>, x: T, key: T -> int, counter: nat)
    requires Numbered(s, key, counter) && key(x) == counter + 1
    ensures Numbered(s + [x], key, counter + 1)
    ensures forall i :: 0 <= i < |s| ==> key(s[i]) < key(x)
  {
  }

  /** Primary keys are distinct and below their table's counter. */
  ghost predicate KeysValid(db: Db) {
    && Numbered(db.users, UserId, db.counters.users) && Unique(db.users, UserId)
    && Numbered(db.courses, CourseId, db.counters.courses) && Unique(db.courses, CourseId)
    && Numbered(db.lectures, LectureId, db.counters.lectures) && Unique(db.lectures, LectureId)
    && Numbered(db.questions, QuestionId, db.counters.questions) && Unique(db.questions, QuestionId)
    && Numbered(db.options, OptionId, db.counters.options) && Unique(db.options, OptionId)
    && Numbered(db.progress, ProgressId, db.counters.progress) && Unique(db.progress, ProgressId)
  }

  /** The UNIQUE columns of db.js. */
  ghost predicate UniquesValid(db: Db) {
    && Unique(db.users, UserEmail)
    && Unique(db.lectures, LectureSlot)
    && Unique(db.progress, ProgressPair)
  }

  /** The FOREIGN KEY references of db.js (enforced, since `foreign_keys = ON`). */
  ghost predicate ForeignKeysValid(db: Db) {
    && (forall i :: 0 <= i < |db.courses| ==> UserExists(db, db.courses[i].instructorId))
    && (forall i :: 0 <= i < |db.lectures| ==> CourseExists(db, db.lectures[i].courseId))
    && (forall i :: 0 <= i < |db.questions| ==> LectureExists(db, db.questions[i].lectureId))
    && (forall i :: 0 <= i < |db.options| ==> QuestionExists(db, db.options[i].questionId))
    && (forall i :: 0 <= i < |db.progress| ==>
          UserExists(db, db.progress[i].userId) && CourseExists(db, db.progress[i].courseId) &&
          LectureExists(db, db.progress[i].lectureId))
  }

  /** Every constraint of the schema holds. */
  ghost predicate Valid(db: Db) {
    KeysValid(db) && UniquesValid(db) && ForeignKeysValid(db)
  }

  lemma EmptyDbValid()
    ensures Valid(EmptyDb)
  {
  }

  // Lookups by primary key (`SELECT ... WHERE id = ?` with `.get()`).

  function UserWithId(id: int): User -> bool { (u: User) => u.id == id }
  function UserWithEmail(email: string): User -> bool { (u: User) => u.email == email }
  function CourseWithId(id: int): Course -> bool { (c: Course) => c.id == id }
  function LectureWithId(id: int): Lecture -> bool { (l: Lecture) => l.id == id }

  function FindUser(db: Db, id: int): (r: Option<User>)
    ensures r.Some? ==> r.value in db.users && r.value.id == id
    ensures r.None? <==> !UserExists(db, id)
  {
    Find(db.users, UserWithId(id))
  }

  function FindUserByEmail(db: Db, email: string): (r: Option<User>)
    ensures r.Some? ==> r.value in db.users && r.value.email == email
    ensures r.None? <==> forall u :: u in db.users ==> u.email != email
  {
    Find(db.users, UserWithEmail(email))
  }

  function FindCourse(db: Db, id: int): (r: Option<Course>)
    ensures r.Some? ==> r.value in db.courses && r.value.id == id
    ensures r.None? <==> !CourseExists(db, id)
  {
    Find(db.courses, CourseWithId(id))
  }

  function FindLecture(db: Db, id: int): (r: Option<Lecture>)
    ensures r.Some? ==> r.value in db.lectures && r.value.id == id
    ensures r.None? <==> !LectureExists(db, id)
  {
    Find(db.lectures, LectureWithId(id))
  }

  /** In a valid state a lecture id names exactly one row, and the lookup returns it. */
  lemma FindLectureRow(db: Db, l: Lecture)
    requires Valid(db) && l in db.lectures
    ensures FindLecture(db, l.id) == Some(l)
  {
    var i :| 0 <= i < |db.lectures| && db.lectures[i] == l;
    assert Unique(db.lectures, LectureId);
    FindOnly(db.lectures, LectureWithId(l.id), i);
  }

  /** In a valid state an email names at most one user, and the lookup returns it. */
  lemma FindUserByEmailRow(db: Db, u: User)
    requires Valid(db) && u in db.users
    ensures FindUserByEmail(db, u.email) == Some(u)
  {
    var i :| 0 <= i < |db.users| && db.users[i] == u;
    assert Unique(db.users, UserEmail);
    FindOnly(db.users, UserWithEmail(u.email), i);
  }

  // Insert primitives: the row gets the next AUTOINCREMENT id, or SQLite refuses it.

  /** `INSERT INTO users`; refused when the email is taken. */
  function InsertUser(db: Db, email: string, passwordHash: string, role: Role): (r: Result<(Db, int), DbError>)
    ensures r.Ok? <==> forall u :: u in db.users ==> u.email != email
    ensures r.Ok? ==> var (db', id) := r.value;
      && db'.users == db.users + [User(id, email, passwordHash, role)]
      && db'.courses == db.courses && db'.lectures == db.lectures && db'.questions == db.questions
      && db'.options == db.options && db'.progress == db.progress
    ensures Valid(db) && r.Ok? ==> Valid(r.value.0) && forall u :: u in db.users ==> u.id < r.value.1
  {
    if exists u :: u in db.users && u.email == email then Err(UniqueViolation)
    else
      var id := db.counters.users + 1;
      var db' := db.(users := db.users + [User(id, email, passwordHash, role)],
                     counters := db.counters.(users := id));
      assert Valid(db) ==> Valid(db') && forall u :: u in db.users ==> u.id < id by {
        if Valid(db) { UserAppendValid(db, User(id, email, passwordHash, role)); }
      }
      Ok((db', id))
  }

  /** `INSERT INTO courses`; refused when the instructor is not a user. */
  function InsertCourse(db: Db, title: string, description: string, instructorId: int): (r: Result<(Db, int), DbError>)
    ensures r.Ok? <==> UserExists(db, instructorId)
    ensures r.Ok? ==> var (db', id) := r.value;
      && db'.courses == db.courses + [Course(id, title, description, instructorId)]
      && db'.users == db.users && db'.lectures == db.lectures && db'.questions == db.questions
      && db'.options == db.options && db'.progress == db.progress
    ensures Valid(db) && r.Ok? ==> Valid(r.value.0) && forall c :: c in db.courses ==> c.id < r.value.1
  {
    if !UserExists(db, instructorId) then Err(ForeignKeyViolation)
    else
      var id := db.counters.courses + 1;
      var db' := db.(courses := db.courses + [Course(id, title, description, instructorId)],
                     counters := db.counters.(courses := id));
      assert Valid(db) ==> Valid(db') && forall c :: c in db.courses ==> c.id < id by {
        if Valid(db) { CourseAppendValid(db, Course(id, title, description, instructorId)); }
      }
      Ok((db', id))
  }

  /** `INSERT INTO lectures`; refused when the course is missing or the (course, order index) slot is taken. */
  function InsertLecture(db: Db, courseId: int, orderIndex: int, kind: LectureType,
                         title: string, content: Option<string>): (r: Result<(Db, int), DbError>)
    ensures r.Ok? <==> CourseExists(db, courseId) &&
                       forall l :: l in db.lectures && l.courseId == courseId ==> l.orderIndex != orderIndex
    ensures r.Ok? ==> var (db', id) := r.value;
      && db'.lectures == db.lectures + [Lecture(id, courseId, orderIndex, kind, title, content)]
      && db'.users == db.users && db'.courses == db.courses && db'.questions == db.questions
      && db'.options == db.options && db'.progress == db.progress
    ensures Valid(db) && r.Ok? ==> Valid(r.value.0) && forall l :: l in db.lectures ==> l.id < r.value.1
  {
    if !CourseExists(db, courseId) then Err(ForeignKeyViolation)
    else if exists l :: l in db.lectures && l.courseId == courseId && l.orderIndex == orderIndex then
      Err(UniqueViolation)
    else
      var id := db.counters.lectures + 1;
      var row := Lecture(id, courseId, orderIndex, kind, title, content);
      var db' := db.(lectures := db.lectures + [row], counters := db.counters.(lectures := id));
      assert Valid(db) ==> Valid(db') && forall l :: l in db.lectures ==> l.id < id by {
        if Valid(db) { LectureAppendValid(db, row); }
      }
      Ok((db', id))
  }

  /** `INSERT INTO questions`; refused when the lecture is missing. */
  function InsertQuestion(db: Db, lectureId: int, text: string): (r: Result<(Db, int), DbError>)
    ensures r.Ok? <==> LectureExists(db, lectureId)
    ensures r.Ok? ==> var (db', id) := r.value;
      && db'.questions == db.questions + [Question(id, lectureId, text)]
      && db'.users == db.users && db'.courses == db.courses && db'.lectures == db.lectures
      && db'.options == db.options && db'.progress == db.progress
    ensures Valid(db) && r.Ok? ==> Valid(r.value.0) && forall q :: q in db.questions ==> q.id < r.value.1
  {
    if !LectureExists(db, lectureId) then Err(ForeignKeyViolation)
    else
      var id := db.counters.questions + 1;
      var db' := db.(questions := db.questions + [Question(id, lectureId, text)],
                     counters := db.counters.(questions := id));
      assert Valid(db) ==> Valid(db') && forall q :: q in db.questions ==> q.id < id by {
        if Valid(db) { QuestionAppendValid(db, Question(id, lectureId, text)); }
      }
      Ok((db', id))
  }

  /** `INSERT INTO options`; refused when the question is missing. */
  function InsertOption(db: Db, questionId: int, text: string, isCorrect: bool): (r: Result<(Db, int), DbError>)
    ensures r.Ok? <==> QuestionExists(db, questionId)
    ensures r.Ok? ==> var (db', id) := r.value;
      && db'.options == db.options + [AnswerOption(id, questionId, text, isCorrect)]
      && db'.users == db.users && db'.courses == db.courses && db'.lectures == db.lectures
      && db'.questions == db.questions && db'.progress == db.progress
    ensures Valid(db) && r.Ok? ==> Valid(r.value.0) && forall o :: o in db.options ==> o.id < r.value.1
  {
    if !QuestionExists(db, questionId) then Err(ForeignKeyViolation)
    else
      var id := db.counters.options + 1;
      var db' := db.(options := db.options + [AnswerOption(id, questionId, text, isCorrect)],
                     counters := db.counters.(options := id));
      assert Valid(db) ==> Valid(db') && forall o :: o in db.options ==> o.id < id by {
        if Valid(db) { OptionAppendValid(db, AnswerOption(id, questionId, text, isCorrect)); }
      }
      Ok((db', id))
  }

  /** `INSERT INTO progress`; refused when a referenced row is missing or the (user, lecture) pair already has a row. */
  function InsertProgress(db: Db, userId: int, courseId: int, lectureId: int, status: ProgressStatus,
                          score: Option<int>, total: Option<int>, passed: Option<bool>): (r: Result<(Db, int), DbError>)
    ensures r.Ok? <==> UserExists(db, userId) && CourseExists(db, courseId) && LectureExists(db, lectureId) &&
                       forall p :: p in db.progress ==> ProgressPair(p) != (userId, lectureId)
    ensures r.Ok? ==> var (db', id) := r.value;
      && db'.progress == db.progress + [Progress(id, userId, courseId, lectureId, status, score, total, passed)]
      && db'.users == db.users && db'.courses == db.courses && db'.lectures == db.lectures
      && db'.questions == db.questions && db'.options == db.options
    ensures Valid(db) && r.Ok? ==> Valid(r.value.0)
  {
    if !UserExists(db, userId) || !CourseExists(db, courseId) || !LectureExists(db, lectureId) then
      Err(ForeignKeyViolation)
    else if exists p :: p in db.progress && ProgressPair(p) == (userId, lectureId) then Err(UniqueViolation)
    else
      var id := db.counters.progress + 1;
      var row := Progress(id, userId, courseId, lectureId, status, score, total, passed);
      var db' := db.(progress := db.progress + [row], counters := db.counters.(progress := id));
      assert Valid(db) ==> Valid(db') by {
        if Valid(db) { ProgressAppendValid(db, row); }
      }
      Ok((db', id))
  }

  // Each insert keeps the schema's constraints: the new id is fresh, its UNIQUE columns are
  // new, and every row it references exists; the references of the other rows survive the append.

  lemma UserAppendValid(db: Db, row: User)
    requires Valid(db) && row.id == db.counters.users + 1
    requires forall u :: u in db.users ==> u.email != row.email
    ensures Valid(db.(users := db.users + [row], counters := db.counters.(users := row.id)))
    ensures forall u :: u in db.users ==> u.id < row.id
  {
    UserAppendKeys(db, row);
    var db' := db.(users := db.users + [row], counters := db.counters.(users := row.id));
    assert forall x :: x in db.users ==> x in db'.users;
    assert ForeignKeysValid(db');
  }

  lemma UserAppendKeys(db: Db, row: User)
    requires KeysValid(db) && UniquesValid(db) && row.id == db.counters.users + 1
    requires forall u :: u in db.users ==> u.email != row.email
    ensures var db' := db.(users := db.users + [row], counters := db.counters.(users := row.id));
            KeysValid(db') && UniquesValid(db')
    ensures forall u :: u in db.users ==> u.id < row.id
  {
    NumberedSnoc(db.users, row, UserId, db.counters.users);
    UniqueSnoc(db.users, row, UserId);
    forall i | 0 <= i < |db.users| ensures UserEmail(db.users[i]) != UserEmail(row) {
      assert db.users[i] in db.users;
    }
    UniqueSnoc(db.users, row, UserEmail);
  }

  lemma CourseAppendValid(db: Db, row: Course)
    requires Valid(db) && row.id == db.counters.courses + 1
    requires UserExists(db, row.instructorId)
    ensures Valid(db.(courses := db.courses + [row], counters := db.counters.(courses := row.id)))
    ensures forall c :: c in db.courses ==> c.id < row.id
  {
    CourseAppendKeys(db, row);
    var db' := db.(courses := db.courses + [row], counters := db.counters.(courses := row.id));
    assert forall i :: 0 <= i < |db'.courses| ==> UserExists(db', db'.courses[i].instructorId);
    forall i | 0 <= i < |db.lectures| ensures CourseExists(db', db.lectures[i].courseId) {
      assert CourseExists(db, db.lectures[i].courseId);
      var c :| c in db.courses && c.id == db.lectures[i].courseId;
      assert c in db'.courses;
    }
    forall i | 0 <= i < |db.progress| ensures CourseExists(db', db.progress[i].courseId) {
      assert CourseExists(db, db.progress[i].courseId);
      var c :| c in db.courses && c.id == db.progress[i].courseId;
      assert c in db'.courses;
    }
    assert ForeignKeysValid(db');
  }

  lemma CourseAppendKeys(db: Db, row: Course)
    requires KeysValid(db) && UniquesValid(db) && row.id == db.counters.courses + 1
    ensures var db' := db.(courses := db.courses + [row], counters := db.counters.(courses := row.id));
            KeysValid(db') && UniquesValid(db')
    ensures forall c :: c in db.courses ==> c.id < row.id
  {
    NumberedSnoc(db.courses, row, CourseId, db.counters.courses);
    UniqueSnoc(db.courses, row, CourseId);
  }

  lemma LectureAppendValid(db: Db, row: Lecture)
    requires Valid(db) && row.id == db.counters.lectures + 1
    requires CourseExists(db, row.courseId)
    requires forall l :: l in db.lectures && l.courseId == row.courseId ==> l.orderIndex != row.orderIndex
    ensures Valid(db.(lectures := db.lectures + [row], counters := db.counters.(lectures := row.id)))
    ensures forall l :: l in db.lectures ==> l.id < row.id
  {
    LectureAppendKeys(db, row);
    var db' := db.(lectures := db.lectures + [row], counters := db.counters.(lectures := row.id));
    assert forall x :: x in db.lectures ==> x in db'.lectures;
    assert ForeignKeysValid(db');
  }

  lemma LectureAppendKeys(db: Db, row: Lecture)
    requires KeysValid(db) && UniquesValid(db) && row.id == db.counters.lectures + 1
    requires forall l :: l in db.lectures && l.courseId == row.courseId ==> l.orderIndex != row.orderIndex
    ensures var db' := db.(lectures := db.lectures + [row], counters := db.counters.(lectures := row.id));
            KeysValid(db') && UniquesValid(db')
    ensures forall l :: l in db.lectures ==> l.id < row.id
  {
    NumberedSnoc(db.lectures, row, LectureId, db.counters.lectures);
    UniqueSnoc(db.lectures, row, LectureId);
    forall i | 0 <= i < |db.lectures| ensures LectureSlot(db.lectures[i]) != LectureSlot(row) {
      assert db.lectures[i] in db.lectures;
    }
    UniqueSnoc(db.lectures, row, LectureSlot);
  }

  lemma QuestionAppendValid(db: Db, row: Question)
    requires Valid(db) && row.id == db.counters.questions + 1
    requires LectureExists(db, row.lectureId)
    ensures Valid(db.(questions := db.questions + [row], counters := db.counters.(questions := row.id)))
    ensures forall q :: q in db.questions ==> q.id < row.id
  {
    QuestionAppendKeys(db, row);
    var db' := db.(questions := db.questions + [row], counters := db.counters.(questions := row.id));
    assert forall x :: x in db.questions ==> x in db'.questions;
    assert ForeignKeysValid(db');
  }

  lemma QuestionAppendKeys(db: Db, row: Question)
    requires KeysValid(db) && UniquesValid(db) && row.id == db.counters.questions + 1
    ensures var db' := db.(questions := db.questions + [row], counters := db.counters.(questions := row.id));
            KeysValid(db') && UniquesValid(db')
    ensures forall q :: q in db.questions ==> q.id < row.id
  {
    NumberedSnoc(db.questions, row, QuestionId, db.counters.questions);
    UniqueSnoc(db.questions, row, QuestionId);
  }

  lemma OptionAppendValid(db: Db, row: AnswerOption)
    requires Valid(db) && row.id == db.counters.options + 1
    requires QuestionExists(db, row.questionId)
    ensures Valid(db.(options := db.options + [row], counters := db.counters.(options := row.id)))
    ensures forall o :: o in db.options ==> o.id < row.id
  {
    OptionAppendKeys(db, row);
    var db' := db.(options := db.options + [row], counters := db.counters.(options := row.id));
    assert ForeignKeysValid(db');
  }

  lemma OptionAppendKeys(db: Db, row: AnswerOption)
    requires KeysValid(db) && UniquesValid(db) && row.id == db.counters.options + 1
    ensures var db' := db.(options := db.options + [row], counters := db.counters.(options := row.id));
            KeysValid(db') && UniquesValid(db')
    ensures forall o :: o in db.options ==> o.id < row.id
  {
    NumberedSnoc(db.options, row, OptionId, db.counters.options);
    UniqueSnoc(db.options, row, OptionId);
  }

  lemma ProgressAppendValid(db: Db, row: Progress)
    requires Valid(db) && row.id == db.counters.progress + 1
    requires UserExists(db, row.userId) && CourseExists(db, row.courseId) && LectureExists(db, row.lectureId)
    requires forall p :: p in db.progress ==> ProgressPair(p) != ProgressPair(row)
    ensures Valid(db.(progress := db.progress + [row], counters := db.counters.(progress := row.id)))
  {
    ProgressAppendKeys(db, row);
    var db' := db.(progress := db.progress + [row], counters := db.counters.(progress := row.id));
    assert ForeignKeysValid(db');
  }

  lemma ProgressAppendKeys(db: Db, row: Progress)
    requires KeysValid(db) && UniquesValid(db) && row.id == db.counters.progress + 1
    requires forall p :: p in db.progress ==> ProgressPair(p) != ProgressPair(row)
    ensures var db' := db.(progress := db.progress + [row], counters := db.counters.(progress := row.id));
            KeysValid(db') && UniquesValid(db')
  {
    NumberedSnoc(db.progress, row, ProgressId, db.counters.progress);
    UniqueSnoc(db.progress, row, ProgressId);
    forall i | 0 <= i < |db.progress| ensures ProgressPair(db.progress[i]) != ProgressPair(row) {
      assert db.progress[i] in db.progress;
    }
    UniqueSnoc(db.progress, row, ProgressPair);
  }

  /** The row written for the pair by `UPDATE progress SET score=?, total=?, passed=? WHERE user_id=? AND lecture_id=?`. */
  function Rescored(p: Progress, userId: int, lectureId: int, score: int, total: int, passed: bool): Progress {
    if p.userId == userId && p.lectureId == lectureId
    then p.(score := Some(score), total := Some(total), passed := Some(passed))
    else p
  }

  /** The UPDATE statement: the matching rows take the new score, total and flag; nothing else changes. */
  function UpdateProgress(db: Db, userId: int, lectureId: int, score: int, total: int, passed: bool): (db': Db)
    ensures |db'.progress| == |db.progress|
    ensures forall i :: 0 <= i < |db.progress| ==>
      && db'.progress[i].id == db.progress[i].id
      && ProgressPair(db'.progress[i]) == ProgressPair(db.progress[i])
      && db'.progress[i].courseId == db.progress[i].courseId
      && db'.progress[i].status == db.progress[i].status
    ensures forall i :: 0 <= i < |db.progress| && ProgressPair(db.progress[i]) == (userId, lectureId) ==>
      db'.progress[i].score == Some(score) && db'.progress[i].total == Some(total) &&
      db'.progress[i].passed == Some(passed)
    ensures forall i :: 0 <= i < |db.progress| && ProgressPair(db.progress[i]) != (userId, lectureId) ==>
      db'.progress[i] == db.progress[i]
    ensures db'.users == db.users && db'.courses == db.courses && db'.lectures == db.lectures
    ensures db'.questions == db.questions && db'.options == db.options && db'.counters == db.counters
    ensures Valid(db) ==> Valid(db')
  {
    var rows := seq(|db.progress|, i requires 0 <= i < |db.progress| =>
                      Rescored(db.progress[i], userId, lectureId, score, total, passed));
    var db' := db.(progress := rows);
    assert forall i :: 0 <= i < |rows| ==> ProgressId(rows[i]) == ProgressId(db.progress[i]);
    assert forall i :: 0 <= i < |rows| ==> ProgressPair(rows[i]) == ProgressPair(db.progress[i]);
    RescoredValid(db, db');
    db'
  }

  /** Rewriting score columns keeps every key, so it keeps every constraint. */
  lemma RescoredValid(db: Db, db': Db)
    requires db'.users == db.users && db'.courses == db.courses && db'.lectures == db.lectures
    requires db'.questions == db.questions && db'.options == db.options && db'.counters == db.counters
    requires |db'.progress| == |db.progress|
    requires forall i :: 0 <= i < |db.progress| ==>
      ProgressId(db'.progress[i]) == ProgressId(db.progress[i]) &&
      ProgressPair(db'.progress[i]) == ProgressPair(db.progress[i]) &&
      db'.progress[i].courseId == db.progress[i].courseId
    ensures Valid(db) ==> Valid(db')
  {
    if Valid(db) {
      assert KeysValid(db');
      assert UniquesValid(db');
      assert ForeignKeysValid(db') by {
        forall i | 0 <= i < |db'.progress|
          ensures UserExists(db', db'.progress[i].userId) && CourseExists(db', db'.progress[i].courseId) &&
                  LectureExists(db', db'.progress[i].lectureId)
        {
          assert ProgressPair(db'.progress[i]) == ProgressPair(db.progress[i]);
        }
      }
    }
  }
}
