# Academic management system: application services in Dafny

This project models the application-service layer of an academic management
system: students, master students, professors, courses with prerequisites,
enrollments and grades, departments, offices, the sequence counters that
issue university index numbers, and two integer reports. Each service call
is a single step over a small relational state, and each returns a
success-or-failure `Result`.

The state is the datatype `Store.State`. It has one map per table, keyed by
entity id (`Guid`, modelled as `nat`), and the counter table keyed by prefix.
The storage keys and unique indexes become the invariant `Store.Valid`:
- unique university indices for students and for professors;
- at most one enrollment per (student, course) pair;
- unique course codes;
- well-formed prerequisite sets;
- unique department names;
- at most one office per professor.

The imperative database context is the class `Store.Database`, with one
mutable field per table.

Every service operation comes in two parts:

- **A step function** `XxxStep(state, inputs…)`. It returns the state the call
  leaves behind and what it returns. Its contract lists the failure cases in
  the order the source checks them, with their messages, and gives an
  if-and-only-if condition for success. It states the whole new state on
  success and that a failure changes nothing.
- **A method** `Xxx(db, inputs…)`. It follows the source statement by
  statement on the `Database` fields and is proved to leave exactly the step
  function's state and result.

Lemmas then relate the steps to each other and to the invariant:
- the steps preserve `Valid`;
- delete undoes create, remove undoes add;
- a run of creates issues consecutive, distinct indices;
- enrolling adds to the reports.

Values the program takes from outside are parameters:
- New ids are parameters with a freshness precondition.
- In the operations that catch exceptions and roll back a transaction, an
  exception from the storage engine is a parameter `fault: Option<string>`.
- In the operations without a try/catch, a constraint violation at
  `SaveChanges` is the `Raised` case of `Store.Response`.

## Model

| member | source | states |
|---|---|---|
| Results.Success | AMS.Application/Common/Models/Result.cs:15-18 | success, `IsFailure` false, error text empty |
| Results.Failure | AMS.Application/Common/Models/Result.cs:20-23 | failure carrying exactly the given error |
| Results.SuccessWith | AMS.Application/Common/Models/Result.cs:35-38 | success carrying the value, empty error |
| Results.FailureOf | AMS.Application/Common/Models/Result.cs:40-43 | failure carrying exactly the given error |
| Results.ValueResult.AsResult | AMS.Application/Common/Models/Result.cs:26-33 | the generic result seen as the base result keeps success and error |
| Results.FailureIsNotSuccess | AMS.Application/Common/Models/Result.cs:13 | `IsFailure` is the negation of `IsSuccess` for both result kinds |
| Text.Trim | AMS.Application/Services/DepartmentService.cs:21 | the result is a slice `s[lo..hi]` with only whitespace cut off before `lo` and after `hi`; empty exactly when the input is blank, otherwise starts and ends with non-whitespace, so nothing more could be cut |
| Text.TrimIdempotent | AMS.Application/Services/DepartmentService.cs:78 | trimming a trimmed name changes nothing |
| Text.ToUpper | AMS.Application/Services/SequenceService.cs:24 | same length, every character upper-cased |
| Text.ToUpperIdempotent | AMS.Application/Services/SequenceService.cs:52 | upper-casing twice equals upper-casing once |
| Text.OrdinalLeTotal | AMS.Application/Services/SequenceService.cs:42 | the text order used for `OrderBy` is total |
| Text.OrdinalLeTransitive | AMS.Application/Services/SequenceService.cs:42 | the text order is transitive |
| Text.OrdinalLeAntisymmetric | AMS.Application/Services/SequenceService.cs:42 | the text order is antisymmetric |
| Text.IsWhiteSpace | AMS.Application/Services/SequenceService.cs:14 | `char.IsWhiteSpace`: the control whitespace U+0009–U+000D, U+0085 and the Unicode space, line and paragraph separators |
| Text.IsBlank | AMS.Application/Services/SequenceService.cs:14 | `string.IsNullOrWhiteSpace` on a non-null string: every character is whitespace (so the empty string is blank) |
| Decimal.FormatInt | AMS.Application/Services/StudentService.cs:30 | `int` printed in decimal; starts with '-' exactly for negatives |
| Decimal.ParseInt32 | AMS.Application/Services/StudentService.cs:70 | `int.TryParse` on a sign and digits; the empty string does not parse |
| Decimal.FormatParseRoundTrip | AMS.Application/Services/StudentService.cs:30-71 | parsing the printed counter value gives it back, for every 32-bit value |
| Decimal.FormatInjective | AMS.Application/Services/StudentService.cs:30 | different values print differently |
| Allocator.Increment | AMS.Application/Services/StudentService.cs:29 | `CurrentValue++`: +1, wrapping from the top of `int` to the bottom |
| Allocator.Decrement | AMS.Application/Services/StudentService.cs:72 | `CurrentValue--`: -1, wrapping from the bottom to the top |
| Allocator.CurrentOrZero | AMS.Application/Services/StudentService.cs:20-27 | the counter's value before an allocation: the stored row, or 0 for the row created when there is none |
| Allocator.Mint | AMS.Application/Services/StudentService.cs:30 | the index text: the prefix followed by the counter value in decimal |
| Allocator.IndexNumber | AMS.Application/Services/StudentService.cs:70 | `int.TryParse(index.Substring(1))`; a number is found only when at least one character follows the prefix letter |
| Allocator.Allocate | AMS.Application/Services/StudentService.cs:20-30 | counter created at 0 if missing, incremented, other counters untouched, index = prefix + new value |
| Allocator.ReleaseIfLast | AMS.Application/Services/StudentService.cs:66-72 | counter stepped back exactly when it exists and the index number parses to its current value; otherwise unchanged |
| Allocator.ReleaseUndoesAllocate | AMS.Application/Services/StudentService.cs:20-72 | releasing the index just allocated restores the counter (0 if it was created), across wrap-around |
| Allocator.ReleaseLastThenAllocate | AMS.Application/Services/StudentService.cs:20-72 | releasing the last-issued index and allocating again reissues it and restores the counters |
| Allocator.ReleaseOfOlderIndexKeepsCounters | AMS.Application/Services/StudentService.cs:69-72 | deleting an older number leaves every counter as it was |
| Allocator.MintInjective | AMS.Application/Services/StudentService.cs:30 | two indices under one prefix are equal only if their numbers are |
| Allocator.AllocateMany | AMS.Application/Services/StudentService.cs:20-30 | n allocations issue n indices |
| Allocator.AllocateManyCounter | AMS.Application/Services/StudentService.cs:20-29 | without wrap-around, n allocations from value v leave the counter at v+n |
| Allocator.AllocatedValuesConsecutive | AMS.Application/Services/StudentService.cs:29 | without wrap-around, the values n allocations take are v+1, …, v+n |
| Allocator.AllocateManyMints | AMS.Application/Services/StudentService.cs:30 | the k-th index issued is the prefix followed by the k-th value taken |
| Allocator.AllocateManyIssuesConsecutive | AMS.Application/Services/StudentService.cs:20-30 | from value v, n allocations issue prefix+(v+1)…prefix+(v+n) and leave v+n |
| Allocator.AllocateManyDistinct | AMS.Application/Services/StudentService.cs:20-30 | without wrap-around, n allocations never issue the same index twice |
| Allocator.DistinctValuesMintDistinct | AMS.Application/Services/StudentService.cs:30 | two different 32-bit values under one prefix give different index texts |
| Listing.SortByKey | AMS.Application/Services/DepartmentService.cs:69 | `OrderBy` on text: every row exactly once, ascending by key |
| Aggregate.ArgMax | AMS.Application/Services/ReportsService.cs:25-26 | `OrderByDescending(...).FirstOrDefault()`: none exactly for no rows, otherwise a row with a maximal value |
| Aggregate.SumOverRemove | AMS.Application/Services/ReportsService.cs:68 | a sum over rows can take any row out first |
| Aggregate.SumOverAdd | AMS.Application/Services/ReportsService.cs:68 | adding a row adds its value to the sum |
| StudentService.CreateStudentStep | AMS.Application/Services/StudentService.cs:13-52 | success iff no fault and the minted index is free; then "S" advances and exactly one student with that index is added; any failure rolls back and reports "Error creating student: …" |
| StudentService.DeleteStudentStep | AMS.Application/Services/StudentService.cs:54-85 | unknown id: "Student with ID … not found."; success removes the student and releases the counter if last; `Substring(1)` on an empty index and faults roll back |
| StudentService.UpdateStudentStep | AMS.Application/Services/StudentService.cs:131-146 | unknown id fails; otherwise only names, year and address of that row change, index and thesis kept |
| StudentService.CreateStudentKeepsValid | AMS.Application/Services/StudentService.cs:37-42 | create keeps university indices unique (and the rest of `Valid`) |
| StudentService.DeleteStudentKeepsValid | AMS.Application/Services/StudentService.cs:74-75 | delete keeps `Valid` |
| StudentService.UpdateStudentKeepsValid | AMS.Application/Services/StudentService.cs:139-144 | update keeps `Valid` |
| StudentService.CreateStudent | AMS.Application/Services/StudentService.cs:13-52 | the method leaves exactly the state and result of `CreateStudentStep` |
| StudentService.DeleteStudent | AMS.Application/Services/StudentService.cs:54-85 | the method leaves exactly the state and result of `DeleteStudentStep` |
| StudentService.UpdateStudent | AMS.Application/Services/StudentService.cs:131-146 | the method leaves exactly the state and result of `UpdateStudentStep` |
| StudentService.CreateThenDeleteRestores | AMS.Application/Services/StudentService.cs:20-75 | create followed by delete of that student restores every table; the counter returns to its old value (0 if created) |
| StudentService.DeleteLastThenCreateReissues | AMS.Application/Services/StudentService.cs:66-72 | deleting the holder of the last number and creating again reissues that very index without a clash |
| StudentService.DeleteOlderKeepsCounter | AMS.Application/Services/StudentService.cs:69-72 | deleting an older number leaves the counter, so the next create issues current+1 and the gap stays |
| StudentService.CreateStudentsRun | AMS.Application/Services/StudentService.cs:13-52 | a run of creates gives one result per request |
| StudentService.RunSucceedsIff | AMS.Application/Services/StudentService.cs:13-52 | a run succeeds create by create exactly when every result it reports is a success |
| StudentService.CreateStudentsRunCounters | AMS.Application/Services/StudentService.cs:20-30 | a fully successful run advances the counters as that many allocations |
| StudentService.CreateStudentsRunIndices | AMS.Application/Services/StudentService.cs:30-37 | the k-th created student holds the k-th allocated index |
| StudentService.CreateStudentsRunKeeps | AMS.Application/Services/StudentService.cs:41 | a run never removes or rewrites an existing student |
| StudentService.CreateStudentsRunIssuesConsecutive | AMS.Application/Services/StudentService.cs:29-30 | N creates from counter value c issue S(c+1)…S(c+N) in order and leave c+N |
| StudentService.CreateStudentsRunDistinct | AMS.Application/Services/StudentService.cs:29-30 | no two students created by such a run share an index |
| ProfessorService.CreateProfessorStep | AMS.Application/Services/ProfessorService.cs:13-56 | as for students, with the "P" counter; failures roll back with "Error creating professor: …" |
| ProfessorService.DeleteProfessorStep | AMS.Application/Services/ProfessorService.cs:58-93 | unknown id: "Professor not found."; success removes the professor and releases "P" if last; faults roll back |
| ProfessorService.UpdateProfessorStep | AMS.Application/Services/ProfessorService.cs:140-155 | unknown id fails; otherwise only names, title and address change |
| ProfessorService.CreateProfessorKeepsValid | AMS.Application/Services/ProfessorService.cs:36-46 | create keeps professor indices unique |
| ProfessorService.DeleteProfessorKeepsValid | AMS.Application/Services/ProfessorService.cs:82-83 | delete keeps `Valid` |
| ProfessorService.UpdateProfessorKeepsValid | AMS.Application/Services/ProfessorService.cs:148-153 | update keeps `Valid` |
| ProfessorService.CreateProfessor | AMS.Application/Services/ProfessorService.cs:13-56 | the method leaves exactly the state and result of `CreateProfessorStep` |
| ProfessorService.DeleteProfessor | AMS.Application/Services/ProfessorService.cs:58-93 | the method leaves exactly the state and result of `DeleteProfessorStep` |
| ProfessorService.UpdateProfessor | AMS.Application/Services/ProfessorService.cs:140-155 | the method leaves exactly the state and result of `UpdateProfessorStep` |
| ProfessorService.CreateThenDeleteRestores | AMS.Application/Services/ProfessorService.cs:21-83 | create followed by delete restores every table and the "P" counter |
| ProfessorService.DeleteLastThenCreateReissues | AMS.Application/Services/ProfessorService.cs:73-80 | deleting the last-numbered professor and creating again reissues that index |
| ProfessorService.DeleteOlderKeepsCounter | AMS.Application/Services/ProfessorService.cs:77-80 | deleting an older number leaves the "P" counter alone |
| MasterStudentService.CreateMasterStudentStep | AMS.Application/Services/MasterStudentService.cs:13-69 | unknown promoter: "Promoter not found." and nothing saved; faults roll back with "Error: …"; success advances "S" and adds one master student with topic and promoter |
| MasterStudentService.DeleteMasterStudentStep | AMS.Application/Services/MasterStudentService.cs:168-203 | only master students are found; success removes it and releases "S" if last; faults roll back |
| MasterStudentService.UpdateMasterStudentStep | AMS.Application/Services/MasterStudentService.cs:132-166 | "Master student not found." then "Promoter not found." (nothing saved); success rewrites fields, topic and promoter (none when absent) |
| MasterStudentService.CreateMasterStudentKeepsValid | AMS.Application/Services/MasterStudentService.cs:44-59 | create keeps student indices unique |
| MasterStudentService.UpdateMasterStudentKeepsValid | AMS.Application/Services/MasterStudentService.cs:141-164 | update keeps `Valid` |
| MasterStudentService.DeleteMasterStudentKeepsValid | AMS.Application/Services/MasterStudentService.cs:183-195 | a master-student delete keeps `Valid` |
| MasterStudentService.CreateMasterStudent | AMS.Application/Services/MasterStudentService.cs:13-69 | the method leaves exactly the state and result of `CreateMasterStudentStep` |
| MasterStudentService.DeleteMasterStudent | AMS.Application/Services/MasterStudentService.cs:168-203 | the method leaves exactly the state and result of `DeleteMasterStudentStep` |
| MasterStudentService.UpdateMasterStudent | AMS.Application/Services/MasterStudentService.cs:132-166 | the method leaves exactly the state and result of `UpdateMasterStudentStep` |
| MasterStudentService.SharedCounter | AMS.Application/Services/MasterStudentService.cs:21-34 | a master student and then a student take consecutive numbers of the one "S" sequence |
| MasterStudentService.UnknownPromoterConsumesNoNumber | AMS.Application/Services/MasterStudentService.cs:36-42 | the failed promoter check consumes no number |
| MasterStudentService.DeleteScopes | AMS.Application/Services/MasterStudentService.cs:176-181 | an ordinary student is never found by the master delete |
| SequenceService.CreateSequenceStep | AMS.Application/Services/SequenceService.cs:12-35 | blank prefix fails, then an existing prefix as typed; an existing upper-cased key raises at save; success adds exactly the upper-cased counter |
| SequenceService.DeleteSequenceStep | AMS.Application/Services/SequenceService.cs:49-63 | found under the upper-cased prefix iff it succeeds; removes exactly that counter, else "Sequence with prefix … not found." |
| SequenceService.AllSequences | AMS.Application/Services/SequenceService.cs:37-47 | one row per counter with its value, distinct prefixes, ascending by prefix |
| SequenceService.CreateSequence | AMS.Application/Services/SequenceService.cs:12-35 | the method leaves exactly the state and response of `CreateSequenceStep` |
| SequenceService.DeleteSequence | AMS.Application/Services/SequenceService.cs:49-63 | the method leaves exactly the state and result of `DeleteSequenceStep` |
| SequenceService.CreatedCounterFeedsAllocator | AMS.Application/Services/SequenceService.cs:22-26 | a counter created at 50 for "T" makes the next allocation issue "T51" |
| SequenceService.LowerCaseDuplicateRaises | AMS.Application/Services/SequenceService.cs:16-31 | under ordinal comparison, creating "x" twice passes the duplicate check the second time and is refused by the key, as an exception |
| SequenceService.CreateThenDeleteRestores | AMS.Application/Services/SequenceService.cs:24-58 | a created counter can be deleted by its prefix as typed, restoring the counters |
| EnrollmentService.EnrollStep | AMS.Application/Services/EnrollmentService.cs:12-40 | fails in order on missing student, missing course, pair already enrolled; success adds exactly one ungraded enrollment with the semester |
| EnrollmentService.GradeStep | AMS.Application/Services/EnrollmentService.cs:42-57 | "Enrollment not found." then "Invalid grade value." outside [2.0, 5.5]; success sets only that grade |
| EnrollmentService.UnenrollStep | AMS.Application/Services/EnrollmentService.cs:59-73 | "Enrollment not found." then a graded enrollment is refused; success removes exactly that enrollment |
| EnrollmentService.StudentEnrollments | AMS.Application/Services/EnrollmentService.cs:75-94 | exactly the student's enrollments, each with its course's name, code and ECTS; a missing course raises |
| EnrollmentService.Row | AMS.Application/Services/EnrollmentService.cs:82-89 | one listing row: the enrollment's id, its course's name, code and ECTS, its semester and grade |
| EnrollmentService.EnrollKeepsUniquePairs | AMS.Application/Services/EnrollmentService.cs:22-37 | enroll keeps each (student, course) pair at most once |
| EnrollmentService.EnrollKeepsValid | AMS.Application/Services/EnrollmentService.cs:22-37 | enroll keeps `Valid` |
| EnrollmentService.GradeAndUnenrollKeepValid | AMS.Application/Services/EnrollmentService.cs:53-71 | grading and unenrolling keep `Valid` |
| EnrollmentService.EnrollTwiceFails | AMS.Application/Services/EnrollmentService.cs:22-26 | enrolling the same pair again fails with "Student is already enrolled in this course." |
| EnrollmentService.EnrollThenUnenrollRestores | AMS.Application/Services/EnrollmentService.cs:28-71 | a fresh enrollment can be withdrawn, restoring the state |
| EnrollmentService.GradedCannotUnenroll | AMS.Application/Services/EnrollmentService.cs:53-68 | after grading, unenroll is refused |
| EnrollmentService.LastGradeWins | AMS.Application/Services/EnrollmentService.cs:53 | grading twice equals grading once with the second grade |
| EnrollmentService.EnrollStudent | AMS.Application/Services/EnrollmentService.cs:12-40 | the method leaves exactly the state and result of `EnrollStep` |
| EnrollmentService.GradeStudent | AMS.Application/Services/EnrollmentService.cs:42-57 | the method leaves exactly the state and result of `GradeStep` |
| EnrollmentService.UnenrollStudent | AMS.Application/Services/EnrollmentService.cs:59-73 | the method leaves exactly the state and result of `UnenrollStep` |
| CourseService.CreateCourseStep | AMS.Application/Services/CourseService.cs:12-45 | fails in order on missing department, missing lecturer, code already used; success adds exactly one course without prerequisites |
| CourseService.UpdateCourseStep | AMS.Application/Services/CourseService.cs:47-63 | "Course not found." then a code held by another course; success changes only name, code and ECTS |
| CourseService.DeleteCourseStep | AMS.Application/Services/CourseService.cs:65-80 | "Course not found.", then refused with enrollments; a course another course requires raises at save; otherwise only that course goes |
| CourseService.AddPrerequisiteStep | AMS.Application/Services/CourseService.cs:127-151 | self-reference first, then missing course or prerequisite, then duplicate; success adds exactly one element |
| CourseService.RemovePrerequisiteStep | AMS.Application/Services/CourseService.cs:153-170 | "Course not found." then "Prerequisite not found in this course."; success removes exactly one element |
| CourseService.CreateCourseKeepsValid | AMS.Application/Services/CourseService.cs:28-42 | create keeps course codes unique |
| CourseService.UpdateCourseKeepsValid | AMS.Application/Services/CourseService.cs:53-61 | update keeps course codes unique (own code excluded from the check) |
| CourseService.DeleteCourseKeepsValid | AMS.Application/Services/CourseService.cs:72-78 | delete never leaves a dangling prerequisite |
| CourseService.PrerequisiteEditsKeepValid | AMS.Application/Services/CourseService.cs:130-166 | adding and removing prerequisites keep them existing courses other than the course itself |
| CourseService.AddThenRemoveRestores | AMS.Application/Services/CourseService.cs:147-166 | add then remove of one prerequisite restores the state |
| CourseService.AddTwiceFails | AMS.Application/Services/CourseService.cs:144-147 | adding the same prerequisite again fails with "This prerequisite is already added." |
| CourseService.UpdateKeepingOwnCodeSucceeds | AMS.Application/Services/CourseService.cs:53-55 | an update keeping the course's own code is not refused as a duplicate |
| CourseService.CreateSameCodeTwiceFails | AMS.Application/Services/CourseService.cs:28-30 | a second course with a code just used is refused |
| CourseService.CreateCourse | AMS.Application/Services/CourseService.cs:12-45 | the method leaves exactly the state and result of `CreateCourseStep` |
| CourseService.UpdateCourse | AMS.Application/Services/CourseService.cs:47-63 | the method leaves exactly the state and result of `UpdateCourseStep` |
| CourseService.DeleteCourse | AMS.Application/Services/CourseService.cs:65-80 | the method leaves exactly the state and response of `DeleteCourseStep` |
| CourseService.AddPrerequisite | AMS.Application/Services/CourseService.cs:127-151 | the method leaves exactly the state and result of `AddPrerequisiteStep` |
| CourseService.RemovePrerequisite | AMS.Application/Services/CourseService.cs:153-170 | the method leaves exactly the state and result of `RemovePrerequisiteStep` |
| OfficeService.CreateOfficeStep | AMS.Application/Services/OfficeService.cs:12-31 | a taken (building, room) fails; success adds exactly one unoccupied office |
| OfficeService.UpdateOfficeStep | AMS.Application/Services/OfficeService.cs:33-43 | unknown id fails; success changes only building and room, no uniqueness check |
| OfficeService.DeleteOfficeStep | AMS.Application/Services/OfficeService.cs:45-53 | unknown id fails; success removes only that office |
| OfficeService.AssignStep | AMS.Application/Services/OfficeService.cs:72-95 | "Office not found.", then occupied by another professor (named); an unknown professor raises at save; success vacates the professor's other office and sets the target |
| OfficeService.Vacated | AMS.Application/Services/OfficeService.cs:84-89 | the professor's other offices lose their occupant; nothing else changes |
| OfficeService.AssignLeavesOneHolder | AMS.Application/Services/OfficeService.cs:84-91 | after assignment the professor holds exactly the target office; other offices keep location and other occupants |
| OfficeService.AssignKeepsValid | AMS.Application/Services/OfficeService.cs:84-91 | assignment keeps every professor in at most one office |
| OfficeService.AssignVacatesAtMostOne | AMS.Application/Services/OfficeService.cs:84-89 | with one office per professor, at most one office besides the target changes |
| OfficeService.ReassignSameOfficeUnchanged | AMS.Application/Services/OfficeService.cs:81-91 | assigning a professor to the office they occupy succeeds and changes nothing |
| OfficeService.CreateOfficeKeepsValid | AMS.Application/Services/OfficeService.cs:21-28 | create keeps one office per professor |
| OfficeService.UpdateOfficeKeepsValid | AMS.Application/Services/OfficeService.cs:38-41 | update keeps one office per professor |
| OfficeService.DeleteOfficeKeepsValid | AMS.Application/Services/OfficeService.cs:50-51 | delete keeps `Valid` |
| OfficeService.UpdateCanDuplicateLocation | AMS.Application/Services/OfficeService.cs:35-42 | moving one office onto another's location succeeds, leaving two offices at one location |
| OfficeService.CreateOffice | AMS.Application/Services/OfficeService.cs:12-31 | the method leaves exactly the state and result of `CreateOfficeStep` |
| OfficeService.UpdateOffice | AMS.Application/Services/OfficeService.cs:33-43 | the method leaves exactly the state and result of `UpdateOfficeStep` |
| OfficeService.DeleteOffice | AMS.Application/Services/OfficeService.cs:45-53 | the method leaves exactly the state and result of `DeleteOfficeStep` |
| OfficeService.AssignProfessorToOffice | AMS.Application/Services/OfficeService.cs:72-95 | the method leaves exactly the state and response of `AssignStep` |
| DepartmentService.CreateDepartmentStep | AMS.Application/Services/DepartmentService.cs:76-92 | a trimmed name already used fails; success adds exactly one department with the trimmed name |
| DepartmentService.UpdateDepartmentStep | AMS.Application/Services/DepartmentService.cs:12-34 | unknown id fails first, then a trimmed name held by another department; success sets only that name, trimmed |
| DepartmentService.DeleteDepartmentStep | AMS.Application/Services/DepartmentService.cs:36-49 | unknown id fails; the save raises when a course of the department still has an enrollment or is a prerequisite of a course outside it; otherwise the department and exactly its courses are removed |
| DepartmentService.CoursesOf | AMS.Domain/Entities/Course.cs:10-11 | the courses whose required `DepartmentId` is the department: exactly the rows the delete cascades to |
| DepartmentService.CascadeHitsPrerequisite | AMS.Infrastructure/Persistence/Configurations/CourseConfiguration.cs:23-26 | the Restrict rule on `PrerequisiteId`: a course outside the department still requires one of its courses |
| DepartmentService.CascadeHitsEnrollment | AMS.Domain/Entities/Enrollment.cs:10 | the optional `CourseId` of an enrollment, with no delete action, still refers to a course of the department |
| DepartmentService.AllDepartments | AMS.Application/Services/DepartmentService.cs:64-74 | one row per department with its name, distinct ids, ascending by name |
| DepartmentService.CreateDepartmentKeepsValid | AMS.Application/Services/DepartmentService.cs:78-91 | create keeps department names unique |
| DepartmentService.UpdateDepartmentKeepsValid | AMS.Application/Services/DepartmentService.cs:21-31 | update keeps department names unique |
| DepartmentService.DeleteDepartmentKeepsValid | AMS.Application/Services/DepartmentService.cs:45-46 | a delete that goes through leaves no prerequisite pointing at a deleted course, so it keeps `Valid` |
| DepartmentService.RequiredCourseBlocksDelete | AMS.Application/Services/DepartmentService.cs:45-46 | a department with a course another department's course requires is not deleted: the save raises and nothing changes |
| DepartmentService.AttendedCourseBlocksDelete | AMS.Application/Services/DepartmentService.cs:45-46 | a department with a course that has an enrollment is not deleted: the save raises and nothing changes |
| DepartmentService.CreateTrimmedDuplicateFails | AMS.Application/Services/DepartmentService.cs:78-84 | after a create, any name trimming to the same value is refused |
| DepartmentService.RenameToOwnNameUnchanged | AMS.Application/Services/DepartmentService.cs:21-31 | renaming a department to its own stored name succeeds and changes nothing |
| DepartmentService.StoredNamesAreTrimmed | AMS.Application/Services/DepartmentService.cs:30-86 | every name create or update stores is already trimmed |
| DepartmentService.CreateDepartment | AMS.Application/Services/DepartmentService.cs:76-92 | the method leaves exactly the state and result of `CreateDepartmentStep` |
| DepartmentService.UpdateDepartment | AMS.Application/Services/DepartmentService.cs:12-34 | the method leaves exactly the state and result of `UpdateDepartmentStep` |
| DepartmentService.DeleteDepartment | AMS.Application/Services/DepartmentService.cs:36-49 | the method leaves exactly the state and response of `DeleteDepartmentStep` |
| ReportsService.MostPopularProfessor | AMS.Application/Services/ReportsService.cs:11-37 | fails with no professors; otherwise a professor's row whose TotalStudents no professor exceeds |
| ReportsService.LecturedEnrollments | AMS.Application/Services/ReportsService.cs:20-22 | the enrollments of the courses the professor lectures |
| ReportsService.TotalStudents | AMS.Application/Services/ReportsService.cs:20-23 | `TotalStudents`: how many such enrollments there are |
| Store.TitleName | AMS.Application/Services/ReportsService.cs:34 | `AcademicTitle.ToString()`: the enum member's name |
| Store.TitleNameInjective | AMS.Application/Services/ReportsService.cs:34 | different titles print differently |
| ReportsService.HardestPlanStudent | AMS.Application/Services/ReportsService.cs:58-93 | fails with no students; otherwise a student maximising CurrentEcts + PrerequisitesEcts, TotalDifficultyScore = that sum |
| ReportsService.EnrollmentEcts | AMS.Application/Services/ReportsService.cs:68 | the ECTS of an enrollment's course |
| ReportsService.CurrentEcts | AMS.Application/Services/ReportsService.cs:68 | `CurrentEcts`: the ECTS summed over the student's enrollments |
| ReportsService.PrerequisiteEctsValues | AMS.Application/Services/ReportsService.cs:70-73 | the distinct ECTS values of the prerequisites of the student's courses |
| ReportsService.PrerequisitesEcts | AMS.Application/Services/ReportsService.cs:70-74 | `PrerequisitesEcts`: the sum of those distinct values |
| ReportsService.EnrollCountsForLecturer | AMS.Application/Services/ReportsService.cs:20-23 | an enrollment raises the lecturer's TotalStudents by one and no one else's |
| ReportsService.EnrollAddsCourseEcts | AMS.Application/Services/ReportsService.cs:68 | an enrollment adds the course's ECTS to that student's CurrentEcts only |
| ReportsService.SharedEctsCountedOnce | AMS.Application/Services/ReportsService.cs:70-74 | prerequisites sharing one ECTS value v contribute v once, however many there are |

## Left out

- Storage, transactions and concurrency are not modelled. Each call is one atomic step over the state. Cancellation tokens and `async` are dropped.
- Storage exceptions have no fixed text here. `Store.DuplicateKeyViolation` and `Store.ForeignKeyViolation` stand for the engine's messages. A fault inside a try/catch is the `fault` parameter, and the model fixes only the message prefix the service adds.
- Referential cascades are modelled only where they decide the result. A department delete removes the department's courses, and the database refuses it when a course still has an enrollment or is required by another department's course. A course delete is refused by the Restrict rule on the prerequisite join table. The other cascades are not modelled; those deletes remove only the named row:
  - a deleted professor's office and thesis promoter are set to null;
  - a deleted professor's courses are removed;
  - a deleted student's enrollments are removed.
  
  Professor and student deletes catch any exception the save raises; the `fault` parameter stands for it.
- Text comparisons use exact (ordinal) equality and order. The database's default collation compares without regard to case. This affects duplicate names, codes and prefixes, and the listing order.
- SequenceService.LowerCaseDuplicateRaises: holds under ordinal comparison only. Under the database's case-insensitive collation the second create of "x" finds "X" and fails with "Sequence for prefix 'x' already exists." instead of raising.
- The read-only projections are not modelled, since they only map rows to DTOs and format text. These are:
  - `GetById` and `GetAll` for students, professors and master students;
  - `GetAllCourses`, `GetCourseDetails`, `GetAllOffices` and `GetDepartmentById`;
  - `GetProfessorFullName`.
- `GetCoursesGpaByDepartmentAsync` is not modelled: it averages floating-point grades. Grades are `real` and are used only for the [2.0, 5.5] check.
- Column lengths and required-column rules of the mapping are not enforced.
- Text.ToUpper: upper-cases ASCII letters only; culture-dependent casing of other letters is not modelled.
- Decimal.ParseInt32: accepts only an optional sign followed by ASCII digits in range. Surrounding whitespace and other forms `int.TryParse` accepts are not modelled.
- Store.GuidText: a `Guid` is a natural number, and its text in messages is its decimal digits rather than the 36-character form.
- EnrollmentService.StudentEnrollments: returns the rows as a set; the list order of the query is not modelled.
- ReportsService.MostPopularProfessor: with tied counts, the row the database returns first is not fixed, so the contract allows any maximal professor. The same holds for ReportsService.HardestPlanStudent.
- ReportsService.HardestPlanStudent: `int` overflow of the sums is not modelled. An enrollment whose course row is missing counts 0 ECTS; the foreign key rules that state out.
- OfficeService.AssignStep: an unknown professor raises whenever the target is free or is already that professor's. The case where nothing is written and the save therefore does not check the key is not distinguished.
- OfficeService.Vacated: clears every other office the professor holds, while the source clears the first one it finds. Under one office per professor these are the same (see OfficeService.AssignVacatesAtMostOne).
- StudentService.CreateStudentsRun: runs of creates are stated for students only. Professors and master students allocate through the same `Allocator.Allocate`.
- Listing.SortByKey and Aggregate.ArgMax are ghost: they name an order and a maximum without computing them.
