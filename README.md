# Course registration, grading and probation: a Dafny model

This project models the core of a student-records back end for a faculty.

Students are registered on courses within an academic session. A class (cohort) is created for each level from 100 to 600 in every session. Each student has one semester result per (student, session, semester); it holds the course entries of that semester. Scores are entered per course and graded in one of three bands ("regular", "external", "ceutics"). From the grades come:

- the semester GPA;
- the session GPA, on the second-semester record;
- the CGPA, cached on the student.

Two reports flag students for probation: the probation list of a class and the "error students" with more than one probation hit (counted over second-semester results). Two maintenance passes reconcile the store: one tidies student names, the other re-derives result levels from course codes. A small set of editing endpoints removes semesters, sessions and courses, and sets a student's mode of entry.

## Structure

- `common.dfy` (`Common`): generic sequence helpers.
  - `Filter` and `FirstWhere`.
  - The queue-then-write pair `Pending`/`Overwrite`, used by the two maintenance passes.
- `records.dfy` (`Records`): the stored documents, the whole store as a value `Db`, the store invariant `Db.Valid`, the ledger invariant `LedgerValid`, and the `findOne`-style lookups.
- `database.dfy` (`Database`): the mutable store.
  - A `class Store` holds one sequence per collection and a fresh-id counter.
  - The controllers' answers are an `Outcome`.
- `grade_utils.dfy` (`GradeUtils`): `calculateGrade`, `get_gpa`, `get_session_gpa` and `get_cgpa`.
- `class_registration.dfy` (`ClassRegistration`): `register_students` and `register_external`.
- `registration_laws.dfy` (`RegistrationLaws`): what registration promises, and the two counterexamples for `register_external`.
- `class_scores.dfy` (`ClassScores`): `add_score`.
- `class_analytics.dfy` (`ClassAnalytics`): `probation_list` and `error_students`.
- `class_maintenance.dfy` (`ClassMaintenance`): `cleanStudentNames` and `updateSemesterLevels`.
- `student_controller.dfy` (`StudentController`): `get_results_by_session`, `removeSemester`, `removeSession`, `removeCourseFromSemester` and `updateMoe`.
- `auth_controller.dfy` (`AuthController`): `register_session`.

## How each operation is modelled

Every controller that writes is a module-level method that takes `db: Store` and declares `modifies db`. Its contract says two more things:

- it keeps `db.Valid()`;
- its new store and its answer are those of a function of the old store, for example `RegisterStudentsSpec`.

The properties are lemmas about those functions. The read-only reports (`ProbationList`, `ErrorStudents`, `ResultsBySession`) have no `modifies` clause. Each returns exactly what its specification function gives.

### Representation

- A document's `_id` is an index or a `nat` handed out by the `nextId` counter.
- A semester result is identified by its position in the result collection.
- A null session GPA is `None`.

### Numbers

- Scores are `real`.
- Grade points, unit loads and ids are `nat`.
- Every GPA value is a whole number of hundredths (450 stands for 4.50). The source divides the points by the units, keeps two decimals with `toFixed(2)` and stores the number back. Here that is the round-half-up of `100 * points / units`, on the exact rational value.

### Read-time inputs that become parameters

- `professionals`, the curriculum dictionary, is a parameter `set<string>`: the module is not part of this model.
- The course score that the level-100 probation rules average is the accessor `score: Course -> real`. The course-entry schema has no `score` field.

### Two rules worth stating

- **Grade cut-offs.** The grade of a total is found by comparing it with 70, 60, 50, 45 and 40, as `calculateGrade` does (utils/grade_utils.js:5-23).
- **Scoring a missing course.** A score row whose course the semester result does not hold is skipped, and the batch carries on (controllers/class.js:331-336).

## Model

| member | source | states |
|---|---|---|
| GradeUtils.CalculateGrade | utils/grade_utils.js:4-24 | a grade point exists exactly for the three known grade types (otherwise the "Invalid grade type" error), and it is at most 5 |
| GradeUtils.GradeMonotone | utils/grade_utils.js:4-24 | within one grade type a higher total never earns a lower grade point |
| GradeUtils.BandOrder | utils/grade_utils.js:4-24 | at every score, ceutics ≤ regular ≤ external |
| GradeUtils.BandsAsCutOffsOfExternal | utils/grade_utils.js:5-20 | regular agrees with external from 50 and gives 0 below it; ceutics agrees with external from 60 and gives 0 below it |
| GradeUtils.ExternalCountsCutOffs | utils/grade_utils.js:10-16 | the external grade point is the number of cut-offs 40, 45, 50, 60, 70 that the total reaches |
| GradeUtils.Hundredths | utils/grade_utils.js:36 | the two-decimal value is 100·points/units rounded half up: the exact bracketing inequality |
| GradeUtils.HundredthsBounds | utils/grade_utils.js:36 | the rounded mean of grade points between 1 and 5 stays between 1.00 and 5.00 |
| GradeUtils.HundredthsScale | utils/grade_utils.js:36 | scaling points and units by the same factor leaves the GPA unchanged |
| GradeUtils.SumsAppend | utils/grade_utils.js:44-49 | points and units add over concatenated course lists |
| GradeUtils.PointsAtMostFiveUnits | utils/grade_utils.js:31-34 | with grades at most 5, total points are at most 5 × total units |
| GradeUtils.GpaRange | utils/grade_utils.js:27-37 | with grades at most 5 the GPA is at most 5.00 |
| GradeUtils.EqualUnitSums | utils/grade_utils.js:31-34 | with equal unit loads, points are the unit load times the sum of grades |
| GradeUtils.EqualUnitsMean | utils/grade_utils.js:27-37 | with equal unit loads the GPA is the rounded mean grade point |
| GradeUtils.NoUnitsNoPoints | utils/grade_utils.js:31-34 | courses with no units carry no points |
| GradeUtils.GetGpa | utils/grade_utils.js:27-37 | the accumulation loop returns the unit-weighted GPA of the record's courses: 0 without units, at most 5.00 when grades are |
| GradeUtils.SessionOfTwoSemesters | utils/grade_utils.js:44-49 | the session GPA weighs the concatenation of both semesters' courses |
| GradeUtils.UnitlessSemesterIsNeutral | utils/grade_utils.js:40-52 | a second semester without units leaves the session GPA at the first semester's GPA |
| GradeUtils.GetSessionGpa | utils/grade_utils.js:40-52 | the nested loop, which skips missing records, returns the GPA of all the session's courses, and 0 without units |
| GradeUtils.GetCgpa | utils/grade_utils.js:55-84 | 0 without records; otherwise the GPA of the courses with non-zero grade and non-zero unit load |
| GradeUtils.FilteredPoints | utils/grade_utils.js:73-79 | skipping grade-0 or unit-0 courses loses no points but may drop units |
| GradeUtils.CgpaKeepsAllPoints | utils/grade_utils.js:66-81 | the CGPA's courses carry all the points of every record and at most their units |
| GradeUtils.CgpaCoursesProperties | utils/grade_utils.js:73-76 | every course counted in the CGPA has a non-zero grade and unit load, and keeps grade ≤ 5 |
| GradeUtils.PointsAtLeastUnits | utils/grade_utils.js:78-79 | courses with grade at least 1 carry at least as many points as units |
| GradeUtils.CgpaRange | utils/grade_utils.js:55-84 | the CGPA is 0 or lies between 1.00 and 5.00: failed courses are left out of it entirely |
| GradeUtils.FailedCourseScenario | utils/grade_utils.js:73-79 | a semester of a passed 3-unit and a failed 2-unit course has GPA 3.00, but its CGPA is 5.00 |
| Records.FindStudent | controllers/class.js:56 | the first student with the registration number, or none has it |
| Records.FindRecord | controllers/class.js:67-71 | the first result of the (student, session, semester) triple, or none exists |
| Records.FindSession | controllers/class.js:33 | the first session with the name, or none has it |
| Records.FindCohort | controllers/class.js:485 | the first class with the id, or none has it |
| Records.RecordsOf | utils/grade_utils.js:56 | every result of the student, in store order |
| Records.SessionRecordsOf | controllers/class.js:320-323 | every result of the student for the session, in store order |
| ClassRegistration.NewCourse | controllers/class.js:93-99 | a pushed course entry carries the requested code and unit load, a corrected unit load equal to the unit load (set in the pushed literal; not kept by the schema, and nothing here reads it), and zero scores and grade |
| ClassRegistration.CohortForLevel | controllers/class.js:39 | a class found for the level is one of the session's classes and has that level |
| ClassRegistration.GetOrCreateCohort | controllers/class.js:39-44 | the returned class has the level; students, results and catalog are untouched |
| ClassRegistration.GetOrCreateStudent | controllers/class.js:56-64 | the student upsert touches only students and the id counter |
| ClassRegistration.AddToRoster | controllers/class.js:109-112 | the roster gains exactly the student, if absent |
| ClassRegistration.UpsertStudent | controllers/class.js:56-64 | the store after the lookup and save is the upsert of the specification |
| ClassRegistration.Enrol | controllers/class.js:67-101 | the store after the record lookup and course push is the enrolment of the specification |
| ClassRegistration.EnsureCohort | controllers/class.js:38-44 | the store after the class lookup and creation is the get-or-create of the specification |
| ClassRegistration.RegisterBatch | controllers/class.js:50-117 | the batch loop ends in the specification's store and roster, and collects one external descriptor per complete entry |
| ClassRegistration.RegisterStudents | controllers/class.js:16-158 | the store and the answer are those of `RegisterStudentsSpec`, and it stays valid |
| ClassRegistration.FindLevelRecord | controllers/class.js:197-202 | the first result of (student, session, level, semester), or none |
| ClassRegistration.FindCatalogEntry | controllers/class.js:240 | the catalog row of (session, code), or none |
| ClassRegistration.RegisterExternal | controllers/class.js:160-284 | the store and the answer are those of `RegisterExternalSpec`, and it stays valid |
| ClassRegistration.EnrolStudentAtLevel | controllers/class.js:196-236 | the ledger afterwards is `EnrolAtLevel` of the old ledger and nothing else changes |
| ClassRegistration.RegisterExternalPreservesValid | controllers/class.js:160-284 | `register_external` keeps the store invariant |
| ClassRegistration.GetOrCreateCohortPreservesValid | controllers/class.js:38-44 | creating a class keeps the store invariant |
| ClassRegistration.GetOrCreateStudentPreservesValid | controllers/class.js:56-64 | the upsert keeps the store invariant and returns an already issued id |
| ClassRegistration.RegisterEntryPreservesValid | controllers/class.js:50-112 | one entry keeps the store invariant and a roster without repeats |
| ClassRegistration.RegisterAllPreservesValid | controllers/class.js:50-117 | the batch keeps the store invariant and a roster without repeats |
| ClassRegistration.RegisterStudentsPreservesValid | controllers/class.js:16-158 | registration keeps the store invariant: unique registration numbers, no student twice on a roster |
| RegistrationLaws.EnrolCourseEffect | controllers/class.js:67-101 | enrolment alters at most one result, pushes only the requested course when no code matches in any letter case, and leaves the student enrolled |
| RegistrationLaws.EnrolCoursePreservesLedger | controllers/class.js:67-101 | enrolment keeps one result per (student, session, semester) and one entry per case-insensitive code |
| RegistrationLaws.HasCodeCiPushed | controllers/class.js:88-99 | after the push, the course is found in any letter case |
| RegistrationLaws.GainsCompose | controllers/class.js:50-117 | "gains at most the course" composes over successive entries |
| RegistrationLaws.RegisterEntryEffect | controllers/class.js:50-112 | one entry alters results only by the requested course |
| RegistrationLaws.RegisterAllEffect | controllers/class.js:50-117 | a batch alters results only by the requested course |
| RegistrationLaws.RegisterStudentsAddsOnlyTheCourse | controllers/class.js:87-101 | `register_students` never alters or removes course entries: an old result is unchanged or gains the one course it lacked, and a new result holds only that course |
| RegistrationLaws.RegisterEntryPreservesLedger | controllers/class.js:66-101 | one entry keeps the ledger invariant |
| RegistrationLaws.RegisterAllPreservesLedger | controllers/class.js:50-117 | a batch keeps the ledger invariant |
| RegistrationLaws.RegisterStudentsPreservesLedger | controllers/class.js:16-158 | registration keeps one result per triple and case-insensitively distinct codes |
| RegistrationLaws.IncompleteEntriesIgnored | controllers/class.js:52-54 | entries with an empty registration number or name make no difference to the batch |
| RegistrationLaws.CountCompleteIsFilterLength | controllers/class.js:103-106 | as many externals are recorded as there are complete entries |
| RegistrationLaws.EnrolledStable | controllers/class.js:67-101 | a student enrolled stays enrolled as the ledger grows |
| RegistrationLaws.SettledStable | controllers/class.js:50-117 | a settled entry stays settled through later entries |
| RegistrationLaws.RegisterEntryGrows | controllers/class.js:50-112 | one entry keeps students in place and only extends the ledger and roster |
| RegistrationLaws.RegisterEntrySettles | controllers/class.js:50-112 | after a complete entry its student exists at the level, is on the roster and is enrolled in the course |
| RegistrationLaws.RegisterAllSettles | controllers/class.js:50-117 | after the batch every complete entry's student exists at the level, is on the roster and is enrolled |
| RegistrationLaws.SettledEntryIsNoOp | controllers/class.js:56-112 | an entry that is already settled changes nothing |
| RegistrationLaws.SettledBatchIsNoOp | controllers/class.js:50-117 | a batch of settled entries changes nothing |
| RegistrationLaws.CohortForLevelKeys | controllers/class.js:39 | the class lookup depends only on class ids and levels |
| RegistrationLaws.CohortForLevelExtend | controllers/class.js:39 | a class outside the session does not change the lookup |
| RegistrationLaws.CohortForLevelSnoc | controllers/class.js:40-43 | a class pushed onto the session is found at its level when none was |
| RegistrationLaws.GetOrCreateCohortFinds | controllers/class.js:39-44 | right after get-or-create, the session's lookup at that level finds the returned class |
| RegistrationLaws.RegisterStudentsIdempotent | controllers/class.js:16-158 | registering the same batch twice changes no student, result, class or counter the second time, only re-lists an external course on the session, and nothing at all for an internal one |
| RegistrationLaws.RegisterExternalEffect | controllers/class.js:160-253 | 404, 404 and 500 leave the store unchanged; 404 exactly when the session or its class of the level is missing; the catalog keeps one row per (session, code); on success the student holds the course under exactly its code |
| RegistrationLaws.EnrolAtLevelHolds | controllers/class.js:196-236 | after the record step the result of the requested session, level and semester exists and holds the requested code |
| RegistrationLaws.RegisterExternalDuplicatesResult | controllers/class.js:197-220 | as written: a valid ledger whose student already has a result for (session, semester) at another level gains a second result for that triple |
| RegistrationLaws.RegisterExternalDuplicatesCode | controllers/class.js:223-225 | as written: a result holding "mth201" gains a second entry "MTH201", breaking case-insensitive uniqueness |
| RegistrationLaws.RegisterExternalCorrected | controllers/class.js:196-236 | the corrected operation answers exactly as the original |
| RegistrationLaws.RegisterExternalCorrectedKeepsLedger | controllers/class.js:196-236 | corrected: the ledger invariant is kept, and on success the student is enrolled in the course |
| ClassScores.Band | controllers/class.js:342-348 | the band of a course code is always a valid grade type |
| ClassScores.BandRule | controllers/class.js:342-348 | ceutics exactly for the two listed codes in any letter case; regular exactly for other codes whose lower-case form is professional; external for all others |
| ClassScores.FindCourse | controllers/class.js:327-329 | the first course entry with exactly the code, or none has it |
| ClassScores.NullIfZero | controllers/class.js:365 | `session_gpa \|\| null`: a zero session GPA is written as null, any other value as itself |
| ClassScores.ScoreStepEffect | controllers/class.js:297-369 | a row is skipped exactly when its student, its result or its exact course code is missing; otherwise only that course changes: its CA, exam and total = CA + exam, and the grade of the total in the code's band; GPA = GPA of the new course list; the semester-2 session-GPA rule |
| ClassScores.ScoreStepSkips | controllers/class.js:297-336 | a row is skipped exactly when its student, its result or a course with exactly its code is missing |
| ClassScores.ScoreStepWrites | controllers/class.js:338-369 | a row that is not skipped rewrites only the course found, with the CA, exam, total and graded band, and recomputes the GPA and the session GPA |
| ClassScores.ScoreAllKeepsCodes | controllers/class.js:338-369 | score writes keep each record's course codes, and of a student only the CGPA changes |
| ClassScores.ScoreUpdatesKeepCodes | controllers/class.js:338-369 | every queued write targets a record that exists and keeps its course codes |
| ClassScores.ScoreStudentsKeepFields | controllers/class.js:350-356 | of each student the batch changes the CGPA only |
| ClassScores.ApplyAllKeepsCodes | controllers/class.js:358-379 | the bulk write keeps every record's key and course codes |
| ClassScores.LedgerFromCodes | controllers/class.js:358-379 | a write that keeps keys and codes keeps the ledger invariant |
| ClassScores.ScoreRow | controllers/class.js:297-369 | one row's step is the specification's step, and the CGPA saved is that of the student's records as read |
| ClassScores.ScoreRows | controllers/class.js:297-375 | the students saved row by row and the queued writes are those of `ScoreAll` over the store as it was; nothing else changes |
| ClassScores.AddScore | controllers/class.js:286-386 | the store afterwards is `AddScoreSpec` of the old store, it stays valid, and the answer is always 200 |
| ClassScores.BulkWrite | controllers/class.js:377-379 | the pending writes are applied to the ledger in order and nothing else changes |
| ClassScores.AddScorePreservesValid | controllers/class.js:286-386 | score entry keeps both invariants and changes no key, class, session or catalog |
| ClassScores.StaleReads | controllers/class.js:320-351 | in the scenario the aggregates read before the write are 0, and the session GPA is written as null |
| ClassScores.StaleAfter | controllers/class.js:338-379 | in the scenario the store afterwards has the course graded, GPA 5.00 and a null session GPA |
| ClassScores.StaleAfterAggregates | utils/grade_utils.js:40-84 | the stored records after the write give 5.00 for the session GPA and the CGPA |
| ClassScores.AddScoreStaleAggregates | controllers/class.js:320-356 | as written: a student whose only course is scored to grade 5 gets semester GPA 5.00 while the saved CGPA stays 0.00 and the session GPA is null, though the stored records give 5.00 for both |
| ClassScores.StaleScenarioExample | controllers/class.js:286-386 | the scenario occurs in a valid store: one student, one second-semester 3-unit course scored 30 + 45 |
| ClassScores.RecordsOfUpdateOther | utils/grade_utils.js:56 | writing another student's record leaves a student's records unchanged |
| ClassScores.FreshStepKeepsCurrent | controllers/class.js:350-356 | corrected, per row: every saved CGPA is the CGPA of the student's records in the store |
| ClassScores.WriteKeepsCurrent | controllers/class.js:350-356 | writing one of a student's records and recomputing that student's CGPA from the new records keeps every saved CGPA current |
| ClassScores.AddScoreCorrectedCgpasCurrent | controllers/class.js:350-356 | corrected: after the whole batch every saved CGPA is the CGPA of the student's records as stored |
| ClassScores.SessionCoursesIgnoreSessionGpa | utils/grade_utils.js:40-52 | the courses a session GPA is taken over do not depend on the session GPAs stored on the records |
| ClassScores.FreshStepSessionGpaCurrent | controllers/class.js:351-368 | corrected, per row: for a second-semester request the session GPA written is the GPA of the session's records as stored after the write (a zero as null); otherwise the record keeps its own session GPA |
| ClassScores.AddScoreCorrectedFreshAggregates | controllers/class.js:320-370 | corrected, in the scenario: the course is graded, the semester GPA is 5.00, the session GPA written is 5.00 and the saved CGPA is 5.00 |
| ClassAnalytics.LetterRun | controllers/class.js:589 | the run of ASCII letters that begins a code: every character of it is a letter, and the next is not |
| ClassAnalytics.LeadingLetters | controllers/class.js:589 | `^[a-zA-Z]+` gives a non-empty prefix of the code, and no match exactly when the code is empty or does not start with a letter |
| ClassAnalytics.SubjectPrefix | controllers/class.js:511 | `^([a-zA-Z]+)\d+` captures the leading letters exactly when a digit follows them |
| ClassAnalytics.ProbationKey | controllers/class.js:511-514 | a grouping key is always one of the five subjects mth, phy, chm, bio, gsp |
| ClassAnalytics.SumScores | controllers/class.js:525 | the reduction is the sum of the scores |
| ClassAnalytics.AnyGroupBelow | controllers/class.js:506-527 | filling the groups and testing their averages answers whether some group of the courses has mean below 40 |
| ClassAnalytics.BuildGroups | controllers/class.js:509-521 | every key met maps to exactly its non-empty group of scores, the keys are listed, and no other key has a group |
| ClassAnalytics.ScanGroups | controllers/class.js:524-527 | true exactly when some listed group has a mean below 40; an empty group's average (not a number) compares false |
| ClassAnalytics.GroupWitness | controllers/class.js:510-521 | a non-empty group comes from a course carrying its key |
| ClassAnalytics.MeanBelowIsSumBelow | controllers/class.js:524-527 | a mean below 40 is a sum below 40 per course |
| ClassAnalytics.Present | controllers/class.js:485-492 | the populated roster holds exactly the roster ids whose student exists |
| ClassAnalytics.ProbationList | controllers/class.js:477-553 | the answer is `ProbationListSpec` of the store |
| ClassAnalytics.FlagProbation | controllers/class.js:503-534 | the flagged results are exactly the selected results that meet the rule for the level, in store order |
| ClassAnalytics.ProbationListMembers | controllers/class.js:492-534 | a result is listed exactly when it is a second-semester result of the session at the level, of an existing roster student, meeting the rule for the level |
| ClassAnalytics.Level100Rule | controllers/class.js:504-528 | level 100: some of the five subjects has scores summing to less than 40 per course |
| ClassAnalytics.GroupScoresSkip | controllers/class.js:511-520 | a course without a key changes no group |
| ClassAnalytics.OtherSubjectsIgnored | controllers/class.js:511-520 | courses outside the five subjects do not affect the level-100 rule |
| ClassAnalytics.ProbationKeyRefinesErrorKey | controllers/class.js:511-513 | the probation key is the lower-cased error-report key |
| ClassAnalytics.ErrorScanFails | controllers/class.js:574-634 | once a student's unreadable result throws, the whole report fails |
| ClassAnalytics.CountHits | controllers/class.js:584-623 | one student's pass fails exactly on an unreadable level-100 result (a course code with no leading letters, or whose leading letters name a key `{}` inherits, such as "constructor"), and otherwise counts the probation hits |
| ClassAnalytics.ScanResults | controllers/class.js:584-623 | the loop over one student's second-semester results stops exactly on an unreadable one (the `match(...)[0]` throw, or the `push` on an inherited key of `courseAverages`), and otherwise counts the results that are hits |
| ClassAnalytics.ErrorStudents | controllers/class.js:555-641 | the answer is `ErrorStudentsSpec` of the store |
| ClassAnalytics.ErrorScanNone | controllers/class.js:574-634 | the scan fails exactly when some roster student has an unreadable second-semester result |
| ClassAnalytics.ErrorScanMembers | controllers/class.js:574-634 | a scan that succeeds lists exactly the roster students with more than one probation hit |
| ClassAnalytics.ErrorScanStep | controllers/class.js:574-634 | one more roster student fails the scan on an unreadable result, and is otherwise appended exactly when it has more than one hit |
| ClassAnalytics.ErrorStudentsRule | controllers/class.js:555-641 | 404 exactly for an unknown class, 500 exactly when a roster student has an unreadable level-100 result (no leading letters, or leading letters that are an inherited key of `{}`), otherwise exactly the roster students with more than one probation hit (second-semester result) |
| ClassAnalytics.LettersThenOther | controllers/class.js:589 | a code made of a letter run followed by a non-letter matches `^[a-zA-Z]+` in exactly that run |
| ClassAnalytics.ConstructorCodeThrows | controllers/class.js:586-593 | "constructor101" groups under "constructor", which a plain `{}` already holds, so its grouping throws |
| ClassAnalytics.InheritedKeyIsServerError | controllers/class.js:586-639 | a roster student with a level-100 second-semester course whose leading letters are an inherited key makes the report answer 500 |
| ClassMaintenance.StripToLetter | controllers/class.js:651 | what remains is empty or starts with a letter |
| ClassMaintenance.TrimStart | controllers/class.js:651 | what remains does not start with white space |
| ClassMaintenance.TrimEnd | controllers/class.js:651 | what remains does not end with white space, and keeps its first character |
| ClassMaintenance.CleanNameShape | controllers/class.js:651 | a cleaned name is empty or starts with a letter and has no white space at either end |
| ClassMaintenance.CleanNameFixes | controllers/class.js:651 | a name starting with a letter and ending in non-space is left as it is |
| ClassMaintenance.CleanNameIdempotent | controllers/class.js:651 | cleaning twice is cleaning once |
| ClassMaintenance.CleanAll | controllers/class.js:650-663 | every student's name is replaced by its cleaned form |
| ClassMaintenance.QueueCleanNames | controllers/class.js:650-659 | the queue holds, in order, one update for each student whose cleaned name differs, and the count is the queue's length |
| ClassMaintenance.WriteStudents | controllers/class.js:661-663 | the queued student updates are applied in order and nothing else in the store changes |
| ClassMaintenance.ChangedNames | controllers/class.js:653-658 | the count of updated names never exceeds the number of students |
| ClassMaintenance.NamesQueuedExactly | controllers/class.js:650-659 | a rename is queued for exactly the students whose cleaned name differs, each once and in roster order, so `namesUpdated` counts the names that change |
| ClassMaintenance.CleanStudentNames | controllers/class.js:643-673 | queuing then applying the updates rewrites every name to its cleaned form, nothing else; it reports the number of students and the number of names that differ |
| ClassMaintenance.CleanAllPreservesValid | controllers/class.js:655 | renaming keeps the store invariant |
| ClassMaintenance.CleanTwiceChangesNothing | controllers/class.js:643-673 | a second pass updates no name and leaves the students as they are |
| ClassMaintenance.CodeLevel | controllers/class.js:690-691 | `/\D(\d)/` gives a multiple of 100 no greater than 900, or no match |
| ClassMaintenance.InferredLevel | controllers/class.js:688-698 | no level exactly when no code matches; otherwise the largest level any code shows |
| ClassMaintenance.Relevel | controllers/class.js:700-705 | a result changes exactly when its codes show a level other than its own |
| ClassMaintenance.RelevelAll | controllers/class.js:684-706 | every result is relevelled in place |
| ClassMaintenance.ChangedLevels | controllers/class.js:700-705 | the count of updated levels never exceeds the number of results |
| ClassMaintenance.LevelsQueuedExactly | controllers/class.js:684-706 | a relevel is queued for exactly the results whose inferred level differs, each once and in store order, so `levelsUpdated` counts the levels that change |
| ClassMaintenance.HighestLevel | controllers/class.js:688-698 | the loop returns the `Math.max` of the matching codes' levels |
| ClassMaintenance.UpdateSemesterLevels | controllers/class.js:677-723 | queuing then applying the updates relevels every result and nothing else; it reports the number of results and the number changed |
| ClassMaintenance.QueueRelevels | controllers/class.js:684-706 | the queue holds, in order, one update for each result whose inferred level differs, and the count is the queue's length |
| ClassMaintenance.WriteResults | controllers/class.js:708-710 | the queued result updates are applied in order and nothing else in the store changes |
| ClassMaintenance.RelevelSetsHighest | controllers/class.js:684-706 | afterwards a result with a matching code sits at the highest level its codes show, and the others are untouched |
| ClassMaintenance.RelevelTwiceChangesNothing | controllers/class.js:677-723 | a second pass updates nothing and leaves the results as they are |
| Common.OverwritePending | controllers/class.js:650-663 | writing the queued updates in order gives every element its updated form |
| Common.PendingMembers | controllers/class.js:653-658 | the queue of a pass holds exactly the indices of the elements the pass changes, each once and in increasing order |
| StudentController.FindStudentById | controllers/student.js:49-60 | the student document of the result, or none exists |
| StudentController.SessionTotals | controllers/student.js:82-90 | the nested loops total the points and units of every course of the session's results |
| StudentController.ResultsBySession | controllers/student.js:45-113 | the answer is `ResultsBySessionSpec` of the store |
| StudentController.ResultsBySessionNotFound | controllers/student.js:53-57 | 404 exactly when the student has no result for the session |
| StudentController.SemesterPartition | controllers/student.js:64-79 | a semester's professional and external lists split its courses by curriculum membership, as a multiset |
| StudentController.ResultsBySessionPartition | controllers/student.js:64-79 | for both semesters the view's lists partition that semester's courses, and are empty when the semester has no result |
| StudentController.ResultsBySessionCgpa | controllers/student.js:82-93 | the session CGPA is the GPA of every course of the session's results, at most 5.00, and 0 without units |
| StudentController.RemoveSemester | controllers/student.js:172-188 | the store and the answer are those of `RemoveSemesterSpec` |
| StudentController.RemoveSemesterEffect | controllers/student.js:172-188 | on success the triple's result is gone and every other result kept; otherwise nothing changes; the ledger stays valid |
| StudentController.DeleteKeepsLedger | controllers/student.js:172-188 | deleting one result keeps the ledger invariant |
| StudentController.DeleteRecordOf | controllers/student.js:172-188 | deleting the only result of a triple leaves none for it and keeps every other result |
| StudentController.RemoveSession | controllers/student.js:191-208 | the store and the answer are those of `RemoveSessionSpec` |
| StudentController.KeptAll | controllers/student.js:199 | nothing is deleted exactly when nothing matches |
| StudentController.FilterKeepsLedger | controllers/student.js:195-198 | deleting results keeps the ledger invariant |
| StudentController.RemoveSessionEffect | controllers/student.js:191-208 | the student keeps no result for the session and every other result is kept; 404 exactly when there was none |
| StudentController.FilterIdentity | controllers/student.js:199-203 | a deletion that removes nothing leaves the results as they were |
| StudentController.RemoveCourseFromSemester | controllers/student.js:211-232 | the store and the answer are those of `RemoveCourseSpec` |
| StudentController.FilterKeepsCodes | controllers/student.js:224-226 | removing courses keeps codes distinct |
| StudentController.RemoveCourseEffect | controllers/student.js:211-232 | exactly the entries with a different code stay; the record's key and GPA and every other record are unchanged; the ledger stays valid |
| StudentController.UpdateMoe | controllers/student.js:275-301 | the store and the answer are those of `UpdateMoeSpec` |
| StudentController.UpdateMoeEffect | controllers/student.js:279-291 | 400 exactly when a field is missing, 404 exactly when no student has the number; on success only that student's mode of entry changes |
| AuthController.CohortIds | controllers/auth.js:30-33 | the session lists the created classes' ids, in order |
| AuthController.ClearCurrent | controllers/auth.js:20-22 | every session loses its current flag and nothing else |
| AuthController.RegisterSession | controllers/auth.js:8-44 | the store and the answer are those of `RegisterSessionSpec`, and it stays valid |
| AuthController.ResetCurrent | controllers/auth.js:20-22 | every session's current flag is cleared and nothing else changes |
| AuthController.CreateLevelCohorts | controllers/auth.js:24-30 | six classes for levels 100 to 600 with empty rosters and fresh ids are appended, and their ids are returned in order |
| AuthController.RegisterSessionPreservesValid | controllers/auth.js:19-34 | the store invariant is kept; a new current session is the only current one |
| AuthController.RegisterSessionEffect | controllers/auth.js:8-44 | duplicate exactly when the name is registered, with no change; otherwise six new classes for levels 100 to 600 with empty rosters and fresh ids, the new session lists exactly them, and the old sessions lose their current flag only when the new one is current |

## Left out

- HTTP routing, request parsing, response bodies and status messages: each controller answers an `Outcome` (and, for the reports, the selected records). The JSON projections built for responses are not modelled. These are the populated student lists of `register_students` and `register_external`, the formatted probation list with its "N/A" and the per-session details of the error report.
- Mongoose mechanics: populate, casting, the `_id` type. The store is one sequence per collection and ids come from a counter.
- `sessionData.externals`, whose schema expects object ids, is modelled as a list of course descriptors. `register_students` pushes plain `{course_code, …}` objects onto it (controllers/class.js:125-127). `register_external` pushes the id of the catalog row it has just created (controllers/class.js:242-250); the model pushes `Descriptor(req)`, the content of that same catalog row.
- The cast of those plain objects to object ids is not modelled. Mongoose would most likely reject them when the session is saved, and `register_students` would then answer 500. The roster and the results would already be saved (controllers/class.js:119-123), and the session's list would stay as it was. The model instead answers `Ok` and appends the descriptors.
- Concurrency and atomicity. The batch loops await each store call in turn, and the model runs them in the same order, with one exception. In `register_students` an existing student's level change is started in the loop without an await (`bulkUpdates.push(student.save())`, controllers/class.js:60-63) and awaited only after the loop (controllers/class.js:119-121). `GetOrCreateStudent` applies it at its row. Every row of one request sets the same level, so the store after the `Promise.all` is the one the model gives.
- The unawaited `sessionData.save()` of `register_external` (controllers/class.js:251) is modelled as completed. Races between concurrent requests are not modelled.
- Exceptions inside per-student `try`/`catch` blocks: a row is skipped, as `course_code.toLowerCase()` on a missing code would throw. The model assumes well-typed requests. For `updateMoe`, a missing field is the empty string.
- `Number(...)` conversions that give NaN, and a level sent as a string to `probation_list` (where `level === 100` compares types). Levels and semesters are integers in the model.
- Floating point. Scores are exact reals, and GPAs are exact hundredths rounded half up. JavaScript's `toFixed` on binary doubles can round a tie the other way.
- `String.prototype.toLowerCase` beyond ASCII: `ToLower` folds only A–Z.
- The `in` test on the curriculum dictionary also accepts inherited keys such as "constructor". The dictionary is modelled as a set of its own keys, and the `professionals` module is not part of this model.
- `course.score` is not a field of the course-entry schema, so the level-100 rules take the score as a parameter `score`. Against the real schema every score is undefined, every average is NaN, and no level-100 student is ever flagged. The model states the rule the code spells out.
- ClassAnalytics.ErrorStudents: it returns the ids of the flagged students, not their probation details. The sort by session orders only the details. The `session: { $in: sessions }` filter is always satisfied, because `sessions` lists every session of the roster's second-semester results.
- ClassAnalytics.ProbationList: it returns the flagged results, not the formatted rows.
- `get_class`, `get_students_by_course`, `removeStudent`, the publishing endpoints, the socket layer and the other controllers' reads are outside this model.
- A semester result whose `level` is null is not modelled: `level` is always an integer.

## Findings

| source | as written | input that shows it | evidently intended | confidence | as-written member | corrected member |
|---|---|---|---|---|---|---|
| controllers/class.js:197-236 | `register_external` looks the result up by (student, session, level, semester) and compares course codes with their letter case | a student with a level-100 result for semester 1 of "S", registered at level 200 for semester 1 of "S"; or a result holding "mth201" registered for "MTH201" | one result per (student, session, semester) and one entry per course code in any letter case, as `register_students` keeps them | not executed | RegistrationLaws.RegisterExternalDuplicatesResult | RegistrationLaws.RegisterExternalCorrectedKeepsLedger |
| controllers/class.js:320-356 | `add_score` reads the session's records and computes the CGPA before the new grade is written (the bulk write comes after the loop) | one student whose only course, 3 units in semester 2, is scored 30 + 45 | the session GPA and the CGPA include the grade just entered | not executed | ClassScores.AddScoreStaleAggregates | ClassScores.AddScoreCorrectedCgpasCurrent, ClassScores.FreshStepSessionGpaCurrent, ClassScores.AddScoreCorrectedFreshAggregates |
