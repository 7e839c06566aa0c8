/** ReportsService: the two integer reports, the most popular professor and
    the student with the hardest plan. Both are pure aggregations over the
    tables; the GPA report (floating-point averages) is not modelled. */
module ReportsService {
  import opened Results
  import opened Store
  import opened Aggregate
  import EnrollmentService

  datatype TopProfessorDto = TopProfessorDto(fullName: string, academicTitle: string, totalStudentsCount: int)

  datatype HardestPlanStudentDto = HardestPlanStudentDto(
    fullName: string,
    indexNumber: string,
    semester: int,
    currentEcts: int,
    prerequisitesEcts: int,
    totalDifficultyScore: int)

  const NoProfessors: string := "Brak danych o profesorach lub studentach."
  const NoStudents: string := "Brak studentów w bazie."

  /** The enrollments in courses that `p` lectures; an enrollment whose
      course row is gone joins no course. */
  function LecturedEnrollments(s: State, p: Guid): set<Guid> {
    set e | e in s.enrollments && s.enrollments[e].courseId in s.courses
                               && s.courses[s.enrollments[e].courseId].lecturerId == p
  }

  /** TotalStudents: the enrollments across all courses `p` lectures. */
  function TotalStudents(s: State, p: Guid): nat {
    |LecturedEnrollments(s, p)|
  }

  function TopProfessorRow(s: State, p: Guid): TopProfessorDto
    requires p in s.professors
  {
    var prof := s.professors[p];
    TopProfessorDto(prof.firstName + " " + prof.lastName, TitleName(prof.title), TotalStudents(s, p))
  }

  /** GetMostPopularProfessorAsync: fails when there is no professor;
      otherwise reports a professor whose TotalStudents no other professor
      exceeds (ties: any of them). */
  ghost function MostPopularProfessor(s: State): (r: ValueResult<TopProfessorDto>)
    ensures r.IsFailure() <==> s.professors == map[]
    ensures r.IsFailure() ==> r == FailureOf(NoProfessors)
    ensures r.IsSuccess() ==>
      exists p :: p in s.professors && r.value == TopProfessorRow(s, p)
                  && forall q :: q in s.professors ==> TotalStudents(s, q) <= TotalStudents(s, p)
  {
    match ArgMax(s.professors.Keys, p => TotalStudents(s, p))
    case None => FailureOf(NoProfessors)
    case Some(p) => SuccessWith(TopProfessorRow(s, p))
  }

  /** The enrollments of student `st`. */
  function EnrollmentsOf(s: State, st: Guid): set<Guid> {
    set e | e in s.enrollments && s.enrollments[e].studentId == st
  }

  /** The ECTS of an enrollment's course (0 when the course row is gone). */
  function EnrollmentEcts(s: State, e: Guid): int {
    if e in s.enrollments && s.enrollments[e].courseId in s.courses
    then s.courses[s.enrollments[e].courseId].ects else 0
  }

  /** CurrentEcts: the ECTS summed over the student's enrollments. */
  ghost function CurrentEcts(s: State, st: Guid): int {
    SumOver(EnrollmentsOf(s, st), e => EnrollmentEcts(s, e))
  }

  /** The distinct ECTS values among the prerequisites of the courses the
      student is enrolled in. */
  function PrerequisiteEctsValues(s: State, st: Guid): set<int> {
    set e, p | e in s.enrollments && s.enrollments[e].studentId == st && s.enrollments[e].courseId in s.courses
               && p in s.courses[s.enrollments[e].courseId].prerequisites && p in s.courses :: s.courses[p].ects
  }

  /** PrerequisitesEcts: the sum of the distinct ECTS values (not of the
      distinct courses) among those prerequisites. */
  ghost function PrerequisitesEcts(s: State, st: Guid): int {
    SumOver(PrerequisiteEctsValues(s, st), v => v)
  }

  ghost function DifficultyScore(s: State, st: Guid): int {
    CurrentEcts(s, st) + PrerequisitesEcts(s, st)
  }

  ghost function HardestPlanRow(s: State, st: Guid): HardestPlanStudentDto
    requires st in s.students
  {
    var student := s.students[st];
    var current := CurrentEcts(s, st);
    var prerequisites := PrerequisitesEcts(s, st);
    HardestPlanStudentDto(student.firstName + " " + student.lastName, student.universityIndex, student.yearOfStudy,
                          current, prerequisites, current + prerequisites)
  }

  /** GetStudentWithHardestPlanAsync: fails when there is no student;
      otherwise reports a student maximising CurrentEcts + PrerequisitesEcts,
      with TotalDifficultyScore equal to that sum. */
  ghost function HardestPlanStudent(s: State): (r: ValueResult<HardestPlanStudentDto>)
    ensures r.IsFailure() <==> s.students == map[]
    ensures r.IsFailure() ==> r == FailureOf(NoStudents)
    ensures r.IsSuccess() ==> r.value.totalDifficultyScore == r.value.currentEcts + r.value.prerequisitesEcts
    ensures r.IsSuccess() ==>
      exists st :: st in s.students && r.value == HardestPlanRow(s, st)
                   && forall o :: o in s.students ==> DifficultyScore(s, o) <= r.value.totalDifficultyScore
  {
    match ArgMax(s.students.Keys, st => DifficultyScore(s, st))
    case None => FailureOf(NoStudents)
    case Some(st) => SuccessWith(HardestPlanRow(s, st))
  }

  /** Adding one enrollment adds it to its course's lecturer's
      enrollments and to no one else's. */
  lemma LecturedAfterAdd(s: State, newId: Guid, en: Enrollment, p: Guid)
    requires newId !in s.enrollments
    ensures var added := en.courseId in s.courses && s.courses[en.courseId].lecturerId == p;
      LecturedEnrollments(s.(enrollments := s.enrollments[newId := en]), p)
        == LecturedEnrollments(s, p) + (if added then {newId} else {})
  {
  }

  /** A successful enrollment counts once more for the course's lecturer
      and for no other professor. */
  lemma EnrollCountsForLecturer(s: State, dto: EnrollmentService.EnrollStudentDto, newId: Guid)
    requires newId !in s.enrollments
    requires EnrollmentService.EnrollStep(s, dto, newId).result.IsSuccess()
    ensures var after := EnrollmentService.EnrollStep(s, dto, newId).after;
      var lecturer := s.courses[dto.courseId].lecturerId;
      && TotalStudents(after, lecturer) == TotalStudents(s, lecturer) + 1
      && forall p :: p != lecturer ==> TotalStudents(after, p) == TotalStudents(s, p)
  {
    var en := Enrollment(dto.studentId, dto.courseId, dto.semester, None);
    var after := s.(enrollments := s.enrollments[newId := en]);
    assert EnrollmentService.EnrollStep(s, dto, newId).after == after;
    var lecturer := s.courses[dto.courseId].lecturerId;
    LecturedAfterAdd(s, newId, en, lecturer);
    assert newId !in LecturedEnrollments(s, lecturer);
    forall p | p != lecturer ensures TotalStudents(after, p) == TotalStudents(s, p) {
      LecturedAfterAdd(s, newId, en, p);
    }
  }

  /** A successful enrollment adds the course's ECTS to the student's
      CurrentEcts and leaves every other student's CurrentEcts as it was. */
  lemma EnrollAddsCourseEcts(s: State, dto: EnrollmentService.EnrollStudentDto, newId: Guid, st: Guid)
    requires newId !in s.enrollments
    requires EnrollmentService.EnrollStep(s, dto, newId).result.IsSuccess()
    ensures var after := EnrollmentService.EnrollStep(s, dto, newId).after;
      CurrentEcts(after, st) == CurrentEcts(s, st) + (if st == dto.studentId then s.courses[dto.courseId].ects else 0)
  {
    var after := EnrollmentService.EnrollStep(s, dto, newId).after;
    var f := e => EnrollmentEcts(after, e);
    var g := e => EnrollmentEcts(s, e);
    var old_ := EnrollmentsOf(s, st);
    SumOverCongruent(old_, f, g);
    if st == dto.studentId {
      assert EnrollmentsOf(after, st) == old_ + {newId};
      SumOverAdd(old_, f, newId);
    } else {
      assert EnrollmentsOf(after, st) == old_;
    }
  }

  /** ECTS values are summed once each: when every prerequisite of the
      student's courses carries the same ECTS value v, the prerequisites add
      v, however many of them there are. */
  lemma SharedEctsCountedOnce(s: State, st: Guid, e: Guid, p: Guid, v: int)
    requires e in s.enrollments && s.enrollments[e].studentId == st && s.enrollments[e].courseId in s.courses
    requires p in s.courses[s.enrollments[e].courseId].prerequisites && p in s.courses
    requires forall x :: x in PrerequisiteEctsValues(s, st) ==> x == v
    requires s.courses[p].ects == v
    ensures PrerequisitesEcts(s, st) == v
  {
    var values := PrerequisiteEctsValues(s, st);
    assert v in values;
    assert values == {v};
    SumOverRemove(values, x => x, v);
    assert values - {v} == {};
  }
}
