# Online Learning Platform — a Dafny model of the progress engine

This project models the logic of a small online-learning platform. Instructors create courses made of reading and quiz
lectures. Students read, take quizzes and track their progress. The server is an Express application over SQLite. The
client is a single-page script.

The model covers three parts of the system:
- **The server's route handlers and seed routine** (`server/src/app.js`), as pure functions from a database state to a
  new state and a response.
- **The schema and query helpers** (`server/src/db.js`). The six tables are sequences of immutable rows. Each table has an
  AUTOINCREMENT counter. The insert primitives refuse exactly what SQLite's UNIQUE and FOREIGN KEY constraints refuse.
- **The client's pure helpers** (`client/src/main.js`): `ellipsize`, the slug `normalize`, the initials label of
  `imageForTitle`, the `h` template interleaver, the sequential-unlock rule of `viewCourse` and `viewLecture`, `router`'s
  hash parsing and dispatch, and the quiz form's answer extraction.

Modules:
- `Wrappers`: `Option` and `Result`.
- `Text`: ASCII case mapping, JavaScript's `split` and `slice`.
- `Http`: failures with their status codes.
- `Rows`: filtering, lookup and uniqueness over row sequences.
- `Schema`: rows, constraints and inserts.
- `Queries`: the db.js helpers and the handlers' invariants.
- Handler modules: `Auth`, `Authoring`, `Browse`, `Tracking`, `Grading`, `Seed`.
- Client modules: `ClientText`, `ClientViews`.

Two invariants carry the proofs:
- **`Schema.Valid`**: the schema's constraints hold. Ids are unique and come from the counters. Emails are unique.
  `(course_id, order_index)` and `(user_id, lecture_id)` are unique. Every foreign key resolves. The CHECK constraints on
  role, type, status, `is_correct` and `passed` hold by construction, because those columns are enumerations and booleans.
- **`Queries.Consistent`**: the invariants the handlers keep beyond the schema.
  - Every progress row copies its lecture's course and has the shape of its lecture's kind.
  - Every course's order indices are exactly 1..n in table order.

Every handler and the seed routine preserve both invariants.

Behaviour worth knowing, all modelled as written:
- A quiz submission records a `passed_quiz` row even when the quiz is failed. The client unlocks the next lecture on any
  progress row. So a failed quiz still unlocks what follows it (`ClientViews.SubmittedQuizUnlocksNext`).
- The server never enforces the sequential-unlock rule. Only the client does.
- Lecture creation validates a quiz payload only after inserting the lecture row. It validates each question's options
  after inserting them. A rejected quiz therefore leaves rows behind, although the
  400 answer tells the client that nothing was created. The model follows the code. See "## Findings".
- `imageForTitle` looks the slug up in an object literal, so the slug 'constructor' finds the inherited
  `Object.prototype.constructor` and returns it in place of an image. See "## Findings".

## Model

| member | source | states |
|---|---|---|
| Schema.ParseRole | server/src/db.js:19 | a role string is accepted exactly when it is 'instructor' or 'student', and then names that role |
| Schema.ParseLectureType | server/src/db.js:36 | a lecture type string is accepted exactly when it is 'reading' or 'quiz' |
| Schema.EmptyDbValid | server/src/db.js:13-81 | the freshly created empty database satisfies every constraint of the schema |
| Schema.FindUser | server/src/db.js:16 | the lookup by primary key finds a stored user with that id, and finds none exactly when no user has it |
| Schema.FindUserByEmail | server/src/app.js:49 | the lookup by email finds a stored user with that email, and finds none exactly when no user has it |
| Schema.FindCourse | server/src/app.js:85 | the lookup by course id finds a stored course with that id, and finds none exactly when none exists |
| Schema.FindLecture | server/src/app.js:136 | the lookup by lecture id finds a stored lecture with that id, and finds none exactly when none exists |
| Schema.FindLectureRow | server/src/db.js:33 | in a valid state, looking up a stored lecture's id returns that very lecture |
| Schema.FindUserByEmailRow | server/src/db.js:17 | in a valid state, looking up a stored user's email returns that very user |
| Schema.InsertUser | server/src/db.js:15-21 | the insert succeeds exactly when the email is new; it appends one row under a fresh id larger than every existing id, leaves the other tables alone and keeps the schema valid |
| Schema.InsertCourse | server/src/db.js:23-30 | the insert succeeds exactly when the instructor exists; it appends one row under a fresh id and keeps the schema valid |
| Schema.InsertLecture | server/src/db.js:32-42 | the insert succeeds exactly when the course exists and the order index is free in that course; it appends one row under a fresh id and keeps the schema valid |
| Schema.InsertQuestion | server/src/db.js:44-49 | the insert succeeds exactly when the lecture exists; it appends one row under a fresh id and keeps the schema valid |
| Schema.InsertOption | server/src/db.js:51-57 | the insert succeeds exactly when the question exists; it appends one row under a fresh id and keeps the schema valid |
| Schema.InsertProgress | server/src/db.js:59-73 | the insert succeeds exactly when user, course and lecture exist and the (user, lecture) pair is new; it appends one row and keeps the schema valid |
| Schema.UserAppendValid | server/src/db.js:15-21 | appending a user with the next counter id and a new email keeps every constraint |
| Schema.CourseAppendValid | server/src/db.js:23-30 | appending a course whose instructor exists keeps every constraint, foreign keys included |
| Schema.LectureAppendValid | server/src/db.js:32-42 | appending a lecture in an existing course at a free order index keeps every constraint |
| Schema.QuestionAppendValid | server/src/db.js:44-49 | appending a question on an existing lecture keeps every constraint |
| Schema.OptionAppendValid | server/src/db.js:51-57 | appending an option on an existing question keeps every constraint |
| Schema.ProgressAppendValid | server/src/db.js:59-73 | appending a progress row whose references resolve and whose (user, lecture) pair is new keeps every constraint |
| Schema.UpdateProgress | server/src/app.js:187-188 | the UPDATE rewrites score, total and passed on the rows of the (user, lecture) pair, leaves every other row and column unchanged, and keeps the schema valid |
| Schema.RescoredValid | server/src/db.js:59-73 | rewriting only non-key columns of progress rows keeps every constraint |
| Queries.LecturesOf | server/src/db.js:89 | the lectures of a course are exactly the stored lectures with that course id |
| Queries.NextLectureOrderIndex | server/src/db.js:83-86 | the next order index is above every order index in the course, is 1 for a course without lectures, and is otherwise one more than an existing index |
| Queries.CourseLectureCount | server/src/db.js:88-91 | the lecture count is zero exactly when the course has no lectures |
| Queries.CourseLectureCountDistinct | server/src/db.js:88-91 | in a valid state the lecture count is the number of distinct lecture ids in the course |
| Queries.ProgressOf | server/src/db.js:94 | the rows counted are exactly the stored rows of that user in that course |
| Queries.UserProgressCount | server/src/db.js:93-96 | the progress count is zero exactly when the user has no row in the course |
| Queries.UserProgressCountDistinct | server/src/db.js:72 | by UNIQUE(user_id, lecture_id), the progress count is the number of distinct lectures the user has rows for in the course |
| Queries.ProgressOfUnique | server/src/db.js:72 | in a valid state, no two of a user's rows in a course name the same lecture |
| Queries.HasCompletedLecture | server/src/db.js:98-101 | the check holds exactly when some progress row has that user and that lecture |
| Queries.EmptyDbConsistent | server/src/db.js:13-81 | the empty database satisfies the handlers' invariants |
| Queries.ConsistentFrame | server/src/app.js:52-53 | a change that touches neither lectures nor progress keeps the handlers' invariants |
| Queries.NextIsCountPlusOne | server/src/db.js:83-91 | when a course's order indices are 1..n, the next index is the lecture count plus one |
| Queries.ContiguousAfterAppend | server/src/app.js:93-95 | appending a lecture numbered count+1 keeps every course's order indices 1..n |
| Queries.AppendedOrderIndex | server/src/app.js:93-95 | after that append, the k-th lecture of any course has order index k+1 |
| Queries.LecturesOfSnoc | server/src/db.js:89 | after an append, a course's lectures are its old lectures plus the new row when it belongs to the course |
| Queries.CountAfterAppend | server/src/db.js:88-91 | appending a lecture raises its course's lecture count by one |
| Queries.RecordsAfterLectureAppend | server/src/db.js:59-73 | adding lectures keeps every progress row matched to its lecture |
| Queries.RowCourse | server/src/app.js:158-159 | in a consistent state, a progress row carries its lecture's course and the shape of its lecture's kind |
| Queries.CompletedWithinTotal | server/src/app.js:196-197 | in a consistent state, a user's progress count in a course never exceeds the course's lecture count |
| Auth.BearerToken | server/src/app.js:25-27 | a token is found only when the header is the 'Bearer ' prefix followed by a non-empty token |
| Auth.BearerTokenRoundTrip | server/src/app.js:25-26 | prefixing a non-empty token with 'Bearer ' and extracting gives the token back |
| Auth.Authenticate | server/src/app.js:24-34 | a 'Bearer ' header with a non-empty token the verifier accepts admits the caller with the verifier's claims; a token it rejects is 401 'Invalid token'; a missing token is 401 'Missing token'; nothing else is admitted |
| Auth.RequireRole | server/src/app.js:36-41 | the role check passes exactly when the caller has the role, and otherwise fails with 403 'Forbidden' |
| Auth.Guard | server/src/app.js:75 | the guarded route admits exactly an authenticated caller with the role; an authentication failure passes through unchanged; a 403 means the token was good but the role was wrong |
| Auth.Register | server/src/app.js:44-57 | 400 exactly when email, password or role is missing or invalid; 409 exactly when the lower-cased email is taken; every other request succeeds and appends one user with the lower-cased email and the given role; a failure writes nothing |
| Auth.Login | server/src/app.js:59-68 | 400 exactly when email or password is empty; success names a stored user with the lower-cased email whose hash matches the password; an unknown email is 401 'Invalid credentials' |
| Auth.LoginSucceeds | server/src/app.js:62-67 | in a valid state, a stored user's lower-cased email with a password that matches their hash logs that user in |
| Auth.LoginAfterRegister | server/src/app.js:44-68 | logging in with the credentials just registered returns the registered user |
| Authoring.CreateCourse | server/src/app.js:75-81 | a non-instructor gets 403 and a missing title or description 400, with no write; it succeeds exactly for an instructor who is stored, with a title and a description; success appends one course owned by the caller and keeps both invariants |
| Authoring.TypedPrefix | server/src/app.js:105-108 | the number of options inserted before the first one with a wrong-typed text or flag |
| Authoring.AddOptions | server/src/app.js:105-108 | the option loop inserts the well-typed leading options in order, each stored with its question, text and flag, and answers 400 'invalid option' exactly when it stops early |
| Authoring.QuestionsError | server/src/app.js:102-110 | the question loop reports no error exactly when every question is well formed |
| Authoring.AddQuestions | server/src/app.js:100-110 | the question loop only appends questions on the lecture and options, keeps earlier rows and keeps the schema valid |
| Authoring.AddQuestionsOutcome | server/src/app.js:102-110 | the loop's response is the first question's error, if any; on success it inserted one question per payload question |
| Authoring.WriteLecture | server/src/app.js:93-113 | the lecture row is appended with the next order index, the payload's kind and title, and content kept only for readings (empty when absent) |
| Authoring.CreateLecture | server/src/app.js:83-114 | with no write: a non-instructor gets 403 'Forbidden', an unknown course 404 'Course not found', someone else's course 403 'Not your course', a type other than reading or quiz 400 and a missing title 400 'title required'; an admitted request is the lecture write |
| Authoring.CreateLectureOutcome | server/src/app.js:93-113 | an admitted request always adds one lecture at the next order index; the response is the quiz payload's first error, or the created lecture |
| Authoring.WriteQuizUnfold | server/src/app.js:94-111 | a quiz with questions is the lecture insert followed by the question loop on the new lecture id |
| Authoring.WriteLectureConsistent | server/src/app.js:93-96 | writing a lecture at the next index keeps every course numbered 1..n and every progress row matched |
| Authoring.CreateLectureConsistent | server/src/app.js:83-114 | lecture creation keeps the handlers' invariants, whichever way it ends |
| Authoring.CreatedOrderIndex | server/src/app.js:93 | in a consistent state a created lecture's order index is the course's lecture count plus one |
| Authoring.AddQuestionsKeepsPartialRows | server/src/app.js:102-110 | a good question followed by one with no correct option is answered 400 with both questions inserted |
| Authoring.PartialRowsOnRejectedQuiz | server/src/app.js:94-110 | as written: a rejected quiz payload leaves the lecture row and the accepted questions in the database |
| Authoring.CreateLectureAtomic | server/src/app.js:83-114 | corrected: same responses as the route, but a rejection writes nothing, and success writes what the route writes |
| Browse.ListingOf | server/src/app.js:118-121 | a course is listed exactly when its instructor exists, with its fields, its instructor's email and its lecture count |
| Browse.ListCourses | server/src/app.js:117-124 | the listing has at most one entry per course |
| Browse.ListCoursesSound | server/src/app.js:118-121 | every listed entry is the join of some stored course with its instructor |
| Browse.InstructorsPresent | server/src/db.js:29 | in a valid state every course's instructor exists, so the inner join drops nothing |
| Browse.ListCoursesComplete | server/src/app.js:117-124 | in a valid state every course is listed once, newest first, with its lecture count |
| Browse.ListedAt | server/src/app.js:118-121 | the k-th entry is the k-th newest course joined with its instructor |
| Browse.ListCoursesJoined | server/src/app.js:117-124 | when every instructor exists, the listing has one entry per course, newest first, with its lecture count |
| Browse.InsertByOrder | server/src/app.js:130 | inserting a lecture into a list adds exactly that lecture |
| Browse.InsertSorted | server/src/app.js:130 | inserting into a list sorted by order index keeps it sorted |
| Browse.SortByOrder | server/src/app.js:130 | ORDER BY order_index gives a sorted permutation of its input |
| Browse.SortSorted | server/src/app.js:130 | sorting a list already in order leaves it unchanged |
| Browse.CourseDetail | server/src/app.js:126-132 | an unknown course is 404 'Course not found'; otherwise the course's lectures, sorted by order index |
| Browse.CourseDetailInOrder | server/src/app.js:126-132 | in a consistent state the detail lists the course's lectures in table order, the k-th with order index k+1 |
| Browse.LectureDetail | server/src/app.js:134-149 | an unknown lecture is 404; otherwise the view shows the found lecture's id, course, order index, kind, title and content, with questions exactly for quizzes, one per question of the lecture |
| Browse.LectureDetailShowsStored | server/src/app.js:136 | in a valid state the detail of a stored lecture shows that lecture's own columns |
| Browse.QuizShowsOwnOptions | server/src/app.js:139-145 | the k-th shown question is the lecture's k-th question with the projections of its own options |
| Browse.ViewsBlind | server/src/app.js:144 | the projection of a filter that ignores correctness does not change when every flag is cleared |
| Browse.BlindFilter | server/src/app.js:140 | filtering then clearing flags equals clearing flags then filtering, for a filter that ignores correctness |
| Browse.ViewsOfBlind | server/src/app.js:144 | the projection never shows the correctness flag |
| Browse.LectureDetailHidesAnswers | server/src/app.js:134-149 | the lecture detail is the same whatever the options' correctness flags are, so it never reveals answers |
| Tracking.Complete | server/src/app.js:152-161 | an unknown lecture is 404 and a non-reading one 400, neither writing; a first completion appends one 'completed' row with the lecture's course; afterwards the caller has a row for the lecture |
| Tracking.CompleteSucceeds | server/src/app.js:156-160 | for a known user on a reading lecture the answer is 'already_completed' exactly when a row exists, else 'completed' |
| Tracking.CompleteIdempotent | server/src/app.js:157 | completing again returns 'already_completed' and changes nothing |
| Tracking.CompleteConsistent | server/src/app.js:158-159 | completion keeps the handlers' invariants |
| Tracking.CompleteCounts | server/src/app.js:158-159 | a first completion raises the caller's progress count in that course by one |
| Tracking.Ratio | server/src/app.js:198 | the ratio times the total is the completed count, is 0 for no lectures, lies in [0, 1] when completed is at most total, and is 1 exactly when all are completed |
| Tracking.ProgressSummary | server/src/app.js:194-199 | completed is the number of the caller's rows in the course and total the number of the course's lectures; each is zero exactly when there are none, and the ratio is their quotient |
| Tracking.SummaryCounts | server/src/app.js:196-197 | in a valid state completed counts the distinct lectures the caller has rows for in the course, and total the distinct lectures of the course |
| Tracking.DoneWithinCourse | server/src/app.js:158-159 | in a consistent state the lectures a user has rows for in a course are lectures of that course |
| Tracking.SummaryRatioBounds | server/src/app.js:196-198 | in a consistent state the summary ratio lies in [0, 1] |
| Tracking.FullCountCoversCourse | server/src/db.js:93-96 | a progress count equal to the lecture count means every lecture of the course has a row |
| Tracking.CourseWithinDone | server/src/db.js:93-96 | a user with a row for every lecture of the course has rows naming all of them |
| Tracking.CoveredCourseFullCount | server/src/db.js:88-96 | a row for every lecture makes the progress count equal to the lecture count |
| Tracking.SummaryCompleteIff | server/src/app.js:194-199 | the ratio is 1 exactly when the course has lectures and the caller has a row for each of them |
| Tracking.CompletedLectureIds | server/src/app.js:202-206 | the list has one entry per row of the caller in the course, and contains exactly those rows' lecture ids |
| Tracking.CompletedLectureIdsDistinct | server/src/db.js:72 | in a valid state the completed list has no repeated lecture id |
| Tracking.ListedIffCompleted | server/src/app.js:202-206 | a lecture of the course is in the completed list exactly when the caller has a row for it |
| Grading.QuestionsOf | server/src/app.js:172 | the graded questions are exactly the stored questions of the lecture |
| Grading.FindOption | server/src/app.js:177 | the option lookup finds a stored option with that id on that question, and finds none exactly when there is none |
| Grading.SameOptionId | server/src/db.js:52 | in a valid state two options with the same id are the same option |
| Grading.Credit | server/src/app.js:175-178 | a question counts exactly when its answer is non-zero and names a correct option of that same question; a missing or foreign answer counts nothing and raises no error |
| Grading.Score | server/src/app.js:173-179 | the score never exceeds the number of questions |
| Grading.ScoreCounts | server/src/app.js:173-179 | the score is the number of questions answered with one of their correct options |
| Grading.ScoreFullIff | server/src/app.js:173-179 | the score is full exactly when every question earns credit |
| Grading.ScoreZeroIff | server/src/app.js:173-179 | the score is zero exactly when no question earns credit |
| Grading.PassedIsRatio | server/src/app.js:180 | for a non-empty quiz the integer test 10·score ≥ 7·total agrees with score/total ≥ 0.7 |
| Grading.Grade | server/src/app.js:172-180 | total is the lecture's question count, score is the number of its questions answered with a correct option of their own, and passed holds exactly under the 0.7 rule |
| Grading.EmptyQuizPasses | server/src/app.js:180 | a quiz without questions grades as score 0, total 0, passed |
| Grading.Record | server/src/app.js:182-190 | recording answers with the grade, touches only progress, and keeps the schema valid |
| Grading.RecordSucceeds | server/src/app.js:182-189 | the upsert fails only where its INSERT would break a foreign key: it succeeds exactly when the pair has a row already, or the user, course and lecture all exist |
| Grading.SubmitSucceeds | server/src/app.js:164-190 | in a valid state a stored user's submission to a quiz with an answers object is always graded and recorded, whatever the answers are |
| Grading.SubmitQuiz | server/src/app.js:164-191 | an unknown lecture is 404, a reading 400, missing answers 400, none writing; otherwise the grade is recorded and returned |
| Grading.AtMostOneRow | server/src/db.js:72 | in a valid state a (user, lecture) pair has at most one progress row |
| Grading.RecordFirstAppends | server/src/app.js:183-185 | a first submission appends one 'passed_quiz' row with the lecture's course and the grade, pass or fail |
| Grading.RecordAgainRescores | server/src/app.js:186-189 | a resubmission rewrites score, total and passed on the pair's row and leaves status, ids and every other row unchanged |
| Grading.RecordedRowsHoldGrade | server/src/app.js:182-189 | after recording, every row of the pair holds the latest grade |
| Grading.RecordLeavesRow | server/src/app.js:182-189 | after recording, the pair has a progress row |
| Grading.RecordRecordsLatest | server/src/app.js:182-189 | in a valid state, after recording there is exactly one row for the pair and it holds the latest grade |
| Grading.SubmitRecordsLatest | server/src/app.js:164-191 | after any successful submission there is exactly one row for the pair, holding the returned grade |
| Grading.ScoreFrame | server/src/app.js:177 | grading depends on the options table only |
| Grading.RecordIdempotent | server/src/app.js:182-189 | recording the same grade twice gives the state of recording it once |
| Grading.SubmitIdempotent | server/src/app.js:164-191 | resubmitting the same answers returns the same grade and leaves the state as it was |
| Grading.RecordConsistent | server/src/app.js:182-189 | recording a valid grade on a quiz keeps the handlers' invariants |
| Grading.RecordFirstConsistent | server/src/app.js:184-185 | the appended row copies the quiz's course and has the quiz row shape |
| Grading.RecordAgainConsistent | server/src/app.js:187-188 | the rescored rows still match their lectures |
| Grading.RescoredRowMatches | server/src/app.js:187-188 | each row stays matched to its lecture after the rescoring UPDATE |
| Grading.SubmitConsistent | server/src/app.js:164-191 | quiz submission keeps the handlers' invariants |
| Seed.TopicTextsShape | server/src/app.js:268-294 | each topic gets two readings then a quiz with three questions of four options, exactly the second of each correct |
| Seed.SeedOptions | server/src/app.js:279-294 | the option inserts of a question all succeed when the question exists, adding one row per option |
| Seed.SeedOptionsStored | server/src/app.js:279-294 | the k-th seeded option is stored on the question with its text and correctness |
| Seed.SeedQuiz | server/src/app.js:277-294 | on an existing lecture every seeded question is inserted |
| Seed.AddLectures | server/src/app.js:267-275 | lectures numbered on from an index above the course's existing ones are all inserted |
| Seed.AddLecturesRow | server/src/app.js:267-275 | each seeded lecture belongs to the course, carries its spec and is numbered on from the start |
| Seed.AddLecturesContiguous | server/src/app.js:267-275 | numbering from the lecture count plus one keeps every course numbered 1..n |
| Seed.SeedLectures | server/src/app.js:267-294 | a course without lectures receives all its seeded lectures |
| Seed.SeedCourse | server/src/app.js:265-294 | a topic becomes one course owned by the instructor with the topic's title and description, plus its lectures; with no such instructor nothing is written |
| Seed.SeedCourseLectures | server/src/app.js:265-275 | the seeded lectures of a new course belong to it and are numbered 1, 2, 3, … |
| Seed.NoLecturesYet | server/src/db.js:24 | a fresh course id has no lectures, since ids only grow |
| Seed.SeedLecturesConsistent | server/src/app.js:267-294 | seeding a fresh course's lectures keeps the handlers' invariants |
| Seed.SeedCourseConsistent | server/src/app.js:265-294 | seeding one topic keeps the handlers' invariants |
| Seed.SeedTopics | server/src/app.js:264-295 | with an existing instructor, every topic becomes one new course |
| Seed.EnsureUser | server/src/app.js:220-233 | when a user has the role, the first such user in table order is reused and nothing is written; otherwise the default user is appended with the role; it fails exactly when no user has the role and the default email is taken |
| Seed.SeedWith | server/src/app.js:214-301 | with at least 20 courses nothing happens; the seed keeps the schema valid and only adds courses |
| Seed.SeedIfEmpty | server/src/app.js:214-301 | with at least 20 courses nothing happens; the seed keeps the schema valid |
| Seed.TopicsCount | server/src/app.js:235-256 | the seed has twenty topics |
| Seed.SeedTopicsConsistent | server/src/app.js:264-295 | seeding the topics keeps the handlers' invariants |
| Seed.SeedWithConsistent | server/src/app.js:214-301 | the seed routine keeps the handlers' invariants |
| Seed.SeedIfEmptyConsistent | server/src/app.js:214-301 | the seed at start-up keeps the handlers' invariants |
| Seed.SeedWithSeeds | server/src/app.js:216-295 | below the threshold, when the default accounts can be provided, every topic is seeded and an instructor and a student exist |
| Seed.ProvidedUsers | server/src/app.js:219-233 | when the default accounts can be provided, both lookups-or-inserts succeed and leave both roles present |
| Seed.InstructorProvided | server/src/app.js:220-226 | the instructor step succeeds and leaves the student step possible |
| Seed.StudentProvided | server/src/app.js:227-233 | the student step succeeds and keeps the instructor |
| Seed.SeedIfEmptySeeds | server/src/app.js:214-295 | below 20 courses, when the default accounts can be provided, the seed adds exactly 20 courses |
| Seed.SeedBlockedByTakenEmail | server/src/app.js:220-226 | with no instructor and 'instructor@example.com' taken by a student, the insert fails and the seed writes nothing |
| Text.Split | client/src/main.js:382 | splitting gives at least one part, and no part contains the separator |
| Text.JoinSplit | client/src/main.js:382 | joining the parts of a split with the separator gives the string back |
| Text.SplitNoSep | client/src/main.js:382 | a string without the separator splits into itself alone |
| Text.SplitCons | client/src/main.js:382 | a separator-free head and a separator split into the head followed by the tail's parts |
| Text.SliceBound | client/src/main.js:18 | a slice bound is clamped into the string, and an in-range bound is kept |
| ClientText.Ellipsize | client/src/main.js:18 | a missing string gives ''; a string within the bound is returned unchanged; a longer one becomes its first max-1 characters plus '…', exactly max long |
| ClientText.EllipsizeIdempotent | client/src/main.js:18 | for a positive bound the result fits the bound, so ellipsizing twice is ellipsizing once |
| ClientText.SkipRun | client/src/main.js:22 | skipping a run leaves a suffix that starts with a slug character, and drops only non-slug characters |
| ClientText.Collapse | client/src/main.js:22 | after replacing runs outside [a-z0-9] by '-', only [a-z0-9-] remain, with no two adjacent '-' |
| ClientText.TrimDashes | client/src/main.js:22 | trimming the edge dashes only removes characters |
| ClientText.Normalize | client/src/main.js:22 | the slug holds only [a-z0-9-], has no leading or trailing '-' and never two '-' in a row |
| ClientText.LowerSlug | client/src/main.js:22 | a slug is already lower case |
| ClientText.CollapseSlugChars | client/src/main.js:22 | collapsing a string that already has the slug shape leaves it unchanged |
| ClientText.NormalizeSlug | client/src/main.js:22 | a slug is its own normal form |
| ClientText.NormalizeIdempotent | client/src/main.js:22 | normalizing a slug gives the same slug |
| ClientText.KeptSkipRun | client/src/main.js:22 | skipping a run keeps every letter and digit |
| ClientText.KeptCollapse | client/src/main.js:22 | collapsing runs keeps every letter and digit, in order |
| ClientText.KeptDropLastDash | client/src/main.js:22 | dropping a trailing '-' keeps every letter and digit |
| ClientText.NormalizeKeeps | client/src/main.js:22 | the slug keeps exactly the lower-cased title's letters and digits, in order |
| ClientText.Heads | client/src/main.js:91 | the initials have at most one character per word |
| ClientText.HeadsSplit | client/src/main.js:91 | the initials of the space-separated words are the first characters of the non-empty words |
| ClientText.FallbackLabel | client/src/main.js:91 | the fallback label is at most three characters long |
| ClientText.FallbackLabelInitials | client/src/main.js:91 | the fallback label is the first three initials of the words, upper-cased |
| ClientText.ImageForTitle | client/src/main.js:88-93 | a photo is chosen exactly when the title's slug has one; the slug 'constructor' returns the inherited `Object.prototype` member instead of an image; a generated badge's caption is the title, or 'undefined' when the title is missing |
| ClientText.ConstructorTitleGetsPrototypeMember | client/src/main.js:89-90 | as written: the title 'constructor' yields the inherited `constructor` member of `IMG_MAP` |
| ClientText.ImageForTitleOwn | client/src/main.js:88-93 | corrected with an own-key lookup: never an inherited member, and the same image as `imageForTitle` for every other slug |
| ClientText.ConfiguredBadgesUnused | client/src/main.js:23-93 | every configured badge slug also has a photo, so a generated image always shows the initials label with the default colours |
| ClientText.H | client/src/main.js:95-102 | the loop builds the interleaving of the strings with the values |
| ClientText.InterleaveDropsExtraValues | client/src/main.js:98-99 | values beyond the strings are ignored |
| ClientText.InterleaveTemplate | client/src/main.js:95-102 | with one more string than values, the last string is appended alone |
| ClientViews.FirstUnlocked | client/src/main.js:205 | the first lecture is always unlocked |
| ClientViews.UnlockedOnlyByPredecessor | client/src/main.js:204-205 | whether lecture i > 0 is unlocked depends only on whether lecture i-1 is in the completed list |
| ClientViews.CourseViewUnlockedIff | client/src/main.js:203-205 | on the server's data, lecture i is unlocked exactly when it is first or the caller has a row for lecture i-1 |
| ClientViews.UnlockedByRow | client/src/main.js:203-205 | a row for the previous lecture unlocks the next |
| ClientViews.SubmittedQuizUnlocksNext | client/src/main.js:203-205 | any successful quiz submission, failed or passed, unlocks the lecture after the quiz |
| ClientViews.SubmitLeavesRow | server/src/app.js:182-189 | after a successful submission the caller has a row for the lecture, and lectures and courses are unchanged |
| ClientViews.LectureCourseExists | server/src/db.js:40 | in a valid state a lecture's course exists |
| ClientViews.CompletedReadingUnlocksNext | client/src/main.js:203-205 | completing a reading unlocks the lecture after it |
| ClientViews.IndexOf | client/src/main.js:228 | findIndex gives -1 exactly for an absent id, and otherwise the first position holding it |
| ClientViews.LectureGateAgrees | client/src/main.js:224-234 | for a signed-in user whose lecture is found, the lecture gate agrees with the course-view rule; anonymous users and failed fetches are let through |
| ClientViews.LectureGateOpensOnMiss | client/src/main.js:224-234 | a lecture missing from its course's list, or a failed course fetch, leaves the lecture unlocked |
| ClientViews.RoutePath | client/src/main.js:381 | the path is the hash without '#', or '/' when that is empty |
| ClientViews.Dispatch | client/src/main.js:387-408 | the instructor page appears only for instructors and 'Forbidden' only for others; no route segment is 'Not found' |
| ClientViews.Route | client/src/main.js:380-409 | the routed page is the instructor form only for instructors, and 'Forbidden' only for others |
| ClientViews.EmptyHashIsHome | client/src/main.js:381-389 | an empty hash, '#' and '#/' all show the home view |
| ClientViews.SplitRoute | client/src/main.js:382 | a path with extra segments splits into '', route, param and the rest's parts |
| ClientViews.SplitRouteParam | client/src/main.js:382 | '/route/param' splits into '', route and param |
| ClientViews.RouteOfSegments | client/src/main.js:381-382 | the route is the second '/'-segment and the param the third |
| ClientViews.RouteIgnoresExtraSegments | client/src/main.js:382 | segments after the param are ignored |
| ClientViews.UnknownRouteNotFound | client/src/main.js:406-407 | an unknown route is 'Not found' |
| ClientViews.NoSlashNotFound | client/src/main.js:381-407 | a non-empty path without '/' is 'Not found' |
| ClientViews.InstructorRouteGated | client/src/main.js:402-403 | the instructor route renders the form exactly for instructors, else 'Forbidden' |
| ClientViews.ToNumber | client/src/main.js:477 | a value converts to a number exactly when it is all digits, and the number is non-negative |
| ClientViews.Decimal | client/src/main.js:477 | a decimal rendering is a non-empty digit string |
| ClientViews.ToNumberDecimal | client/src/main.js:477 | converting a number's decimal rendering gives the number back |
| ClientViews.ExtractAnswersKeys | client/src/main.js:476-478 | an answer key is present exactly when some field key starting with 'q' has it after the 'q' |
| ClientViews.ExtractAnswersLastWins | client/src/main.js:476-478 | the answer for a key is the converted value of the last field with that key |

## Left out

- I/O and UI: fetch and the `api` wrapper, `localStorage`, DOM queries, `alert`, event binding and `innerHTML`. The
  client functions are modelled on the data they compute from.
- bcrypt hashing and comparison are parameters: `Auth.Register` takes the hash and `Auth.Login` a `matches` oracle. JWT
  signing and verification are a `verify` oracle in `Auth.Authenticate`. Only the 'Bearer ' prefix check and the 401
  and 403 outcomes are modelled.
- `created_at` and `ORDER BY c.created_at DESC`: insertion order stands in for creation time. Rows inserted within the
  same second, which SQLite would tie, are listed strictly newest first.
- Floating point: the 0.7 test is the integer test `10 * score >= 7 * total` (with a lemma relating it to real division),
  and the summary ratio is a real. `Math.round` percentages in the client are out.
- Case mapping is ASCII only. Unicode `toLowerCase`/`toUpperCase` and UTF-16 string lengths are not modelled.
- `Number()` coercion: route ids are integers already parsed. Quiz answers are a map from question id to an integer
  option id, with 0 standing for a missing or non-numeric answer. The client's `ToNumber` accepts only digit strings;
  signs, decimals, whitespace and exponents are out.
- JSON bodies of the wrong JSON type are modelled only where the handler checks them: option text and flag types, and an
  `answers` that is not an object. Other fields are assumed to arrive as strings.
- Transactions, concurrency and the request pipeline: each handler is one sequential step. Synchronous exceptions
  inside a handler (for example a constraint violation on an insert the model shows cannot fail) are the
  `InternalError` 500 response.
- `Promise.all` in the learning dashboard, `thumbFor`, the SVG markup and the image URLs: no logic beyond constants.
- Express, morgan and cors wiring, `app.listen` and `/api/me`, which only echoes the token's claims.
- That the twenty seed titles normalize to the twenty photo slugs is not proved. Only the general slug properties of
  `ClientText.Normalize` are.
- Browse.ListCourses: its own contract only bounds the listing's length. The join, the lecture counts and the
  newest-first order are stated by `Browse.ListCoursesSound`, `Browse.ListedAt` and `Browse.ListCoursesComplete`.
- Grading.Score: its own contract only bounds the score. What is counted is stated by `Grading.ScoreCounts`,
  `Grading.ScoreFullIff` and `Grading.ScoreZeroIff`.
- Grading.Record: its own contract states the response and the frame. When it succeeds is stated by
  `Grading.RecordSucceeds`, and the row it leaves by `Grading.RecordFirstAppends`, `Grading.RecordAgainRescores` and
  `Grading.RecordRecordsLatest`.
- Queries.CourseLectureCount and Queries.UserProgressCount: their own contracts state only when the count is zero. The
  count of distinct ids is stated by `Queries.CourseLectureCountDistinct` and `Queries.UserProgressCountDistinct`.
- ClientText.Heads and ClientText.FallbackLabel: their own contracts only bound the length. The initials are stated by
  `ClientText.HeadsSplit` and `ClientText.FallbackLabelInitials`.
- ClientText.TrimDashes: its contract does not state which dashes go. The shape of the whole slug is stated on
  `ClientText.Normalize`.
- Seed.SeedIfEmpty: its own contract covers the threshold and validity only. What is seeded is stated by
  `Seed.SeedIfEmptySeeds` and `Seed.SeedIfEmptyConsistent`.
- Seed.SeedTopics: the course added for the k-th topic is not tied to that topic's title in the contract. Only the
  course count and the per-course facts of `Seed.SeedCourse` are stated.
- Seed.SeedQuiz: the contract counts the inserted questions but does not state that each is attached to the quiz
  lecture.
- The seed's `try`/`catch` and its log lines: a failed seed returns the state reached so far with a failure flag, since
  the rows inserted before the failure stay stored.

## Findings

| source | as written | input that shows it | evidently intended | confidence | as-written member | corrected member |
|---|---|---|---|---|---|---|
| server/src/app.js:94-110 | the lecture row is inserted before the quiz payload is checked, and each question and its options are inserted before the question's correct-option check | a quiz whose first question is valid and whose second has two options, both `is_correct: false`: the answer is 400, yet the lecture and both questions with their options stay stored | a rejected request is answered 400, which tells the client that no lecture was created, so a rejected quiz should write nothing | not executed | Authoring.PartialRowsOnRejectedQuiz | Authoring.CreateLectureAtomic |
| client/src/main.js:90 | `IMG_MAP[key]` reads an object literal, so it also finds members inherited from `Object.prototype` | a course titled "Constructor": the slug is 'constructor', and `IMG_MAP.constructor` is the `Object` function, which is truthy and is returned as the image source | only the twenty photo slugs find a photo; every other title gets a generated badge | not executed | ClientText.ConstructorTitleGetsPrototypeMember | ClientText.ImageForTitleOwn |
