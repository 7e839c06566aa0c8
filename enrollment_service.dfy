/** EnrollmentService: enrolling a student in a course, grading, unenrolling,
    and the per-student enrollment listing. */
module EnrollmentService {
  import opened Results
  import opened Store

  datatype EnrollStudentDto = EnrollStudentDto(studentId: Guid, courseId: Guid, semester: string)

  datatype UpdateGradeDto = UpdateGradeDto(enrollmentId: Guid, grade: real)

  /** One row of a student's enrollment listing. */
  datatype EnrollmentDto = EnrollmentDto(
    id: Guid, courseName: string, courseCode: string, ects: int, semester: string, grade: Option<real>)

  const StudentNotFound: string := "Student not found."
  const CourseNotFound: string := "Course not found."
  const AlreadyEnrolled: string := "Student is already enrolled in this course."
  const EnrollmentNotFound: string := "Enrollment not found."
  const InvalidGrade: string := "Invalid grade value."
  const AlreadyGraded: string := "Cannot unenroll student who has already been graded."
  /** What reading a missing course's ECTS (SQL NULL) into an `int` raises. */
  const NullValue: string := "Nullable object must have a value."

  const MinGrade: real := 2.0
  const MaxGrade: real := 5.5

  predicate ValidGrade(g: real) { MinGrade <= g <= MaxGrade }

  /** EnrollStudentAsync: fails, in this order, on an unknown student, an
      unknown course, or a (student, course) pair already enrolled; otherwise
      adds exactly one ungraded enrollment for the given semester. */
  function EnrollStep(s: State, dto: EnrollStudentDto, newId: Guid): (t: Transition<ValueResult<Guid>>)
    requires newId !in s.enrollments
    ensures dto.studentId !in s.students ==> t == Transition(s, FailureOf(StudentNotFound))
    ensures dto.studentId in s.students && dto.courseId !in s.courses ==> t == Transition(s, FailureOf(CourseNotFound))
    ensures dto.studentId in s.students && dto.courseId in s.courses && Enrolled(s.enrollments, dto.studentId, dto.courseId) ==>
      t == Transition(s, FailureOf(AlreadyEnrolled))
    ensures t.result.IsSuccess() <==>
      dto.studentId in s.students && dto.courseId in s.courses && !Enrolled(s.enrollments, dto.studentId, dto.courseId)
    ensures t.result.IsSuccess() ==>
      && t.result.value == newId
      && t.after == s.(enrollments := s.enrollments[newId := Enrollment(dto.studentId, dto.courseId, dto.semester, None)])
  {
    if dto.studentId !in s.students then Transition(s, FailureOf(StudentNotFound))
    else if dto.courseId !in s.courses then Transition(s, FailureOf(CourseNotFound))
    else if Enrolled(s.enrollments, dto.studentId, dto.courseId) then Transition(s, FailureOf(AlreadyEnrolled))
    else Transition(s.(enrollments := s.enrollments[newId := Enrollment(dto.studentId, dto.courseId, dto.semester, None)]),
                    SuccessWith(newId))
  }

  /** GradeStudentAsync: "Enrollment not found." first, then "Invalid grade
      value." outside [2.0, 5.5]; otherwise only that enrollment's grade is
      set (an earlier grade is overwritten). */
  function GradeStep(s: State, dto: UpdateGradeDto): (t: Transition<Result>)
    ensures dto.enrollmentId !in s.enrollments ==> t == Transition(s, Failure(EnrollmentNotFound))
    ensures dto.enrollmentId in s.enrollments && !ValidGrade(dto.grade) ==> t == Transition(s, Failure(InvalidGrade))
    ensures t.result.IsSuccess() <==> dto.enrollmentId in s.enrollments && ValidGrade(dto.grade)
    ensures t.result.IsSuccess() ==>
      t.after == s.(enrollments := s.enrollments[dto.enrollmentId := s.enrollments[dto.enrollmentId].(grade := Some(dto.grade))])
  {
    if dto.enrollmentId !in s.enrollments then Transition(s, Failure(EnrollmentNotFound))
    else if dto.grade < MinGrade || dto.grade > MaxGrade then Transition(s, Failure(InvalidGrade))
    else
      var e := s.enrollments[dto.enrollmentId];
      Transition(s.(enrollments := s.enrollments[dto.enrollmentId := e.(grade := Some(dto.grade))]), Success())
  }

  /** UnenrollStudentAsync: "Enrollment not found.", then a graded enrollment
      is refused; otherwise exactly that enrollment is removed. */
  function UnenrollStep(s: State, enrollmentId: Guid): (t: Transition<Result>)
    ensures enrollmentId !in s.enrollments ==> t == Transition(s, Failure(EnrollmentNotFound))
    ensures enrollmentId in s.enrollments && s.enrollments[enrollmentId].grade.Some? ==>
      t == Transition(s, Failure(AlreadyGraded))
    ensures t.result.IsSuccess() <==> enrollmentId in s.enrollments && s.enrollments[enrollmentId].grade.None?
    ensures t.result.IsSuccess() ==> t.after == s.(enrollments := s.enrollments - {enrollmentId})
  {
    if enrollmentId !in s.enrollments then Transition(s, Failure(EnrollmentNotFound))
    else if s.enrollments[enrollmentId].grade.Some? then Transition(s, Failure(AlreadyGraded))
    else Transition(s.(enrollments := s.enrollments - {enrollmentId}), Success())
  }

  predicate OfStudent(s: State, e: Guid, studentId: Guid) {
    e in s.enrollments && s.enrollments[e].studentId == studentId
  }

  function Row(s: State, e: Guid): EnrollmentDto
    requires e in s.enrollments && s.enrollments[e].courseId in s.courses
  {
    var en := s.enrollments[e];
    var c := s.courses[en.courseId];
    EnrollmentDto(e, c.name, c.code, c.ects, en.semester, en.grade)
  }

  /** GetStudentEnrollmentsAsync: the rows of exactly the enrollments whose
      StudentId matches, each with its course's name, code and ECTS. The
      query joins the course; an enrollment whose course is gone yields NULL
      for the non-nullable ECTS, which raises. */
  function StudentEnrollments(s: State, studentId: Guid): (r: Response<set<EnrollmentDto>>)
    ensures r.Raised? <==> exists e :: OfStudent(s, e, studentId) && s.enrollments[e].courseId !in s.courses
    ensures r.Returned? ==>
      && (forall row :: row in r.value ==> OfStudent(s, row.id, studentId) && row == Row(s, row.id))
      && (forall e :: OfStudent(s, e, studentId) ==> Row(s, e) in r.value)
  {
    if exists e :: e in s.enrollments && s.enrollments[e].studentId == studentId && s.enrollments[e].courseId !in s.courses
    then Raised(NullValue)
    else Returned(set e | e in s.enrollments && s.enrollments[e].studentId == studentId :: Row(s, e))
  }

  /** Enroll keeps every (student, course) pair enrolled at most once. */
  lemma EnrollKeepsUniquePairs(s: State, dto: EnrollStudentDto, newId: Guid)
    requires newId !in s.enrollments && UniqueEnrollmentPairs(s.enrollments)
    ensures UniqueEnrollmentPairs(EnrollStep(s, dto, newId).after.enrollments)
  {
    var t := EnrollStep(s, dto, newId);
    if t.result.IsSuccess() {
      var es := t.after.enrollments;
      forall a, b | a in es && b in es && a != b
        ensures es[a].studentId != es[b].studentId || es[a].courseId != es[b].courseId
      {
        if a == newId {
          assert b in s.enrollments;
        } else if b == newId {
          assert a in s.enrollments;
        }
      }
    }
  }

  lemma EnrollKeepsValid(s: State, dto: EnrollStudentDto, newId: Guid)
    requires newId !in s.enrollments && Valid(s)
    ensures Valid(EnrollStep(s, dto, newId).after)
  {
    EnrollKeepsUniquePairs(s, dto, newId);
  }

  /** Grading and unenrolling keep the pairs unique: they never add a pair. */
  lemma GradeAndUnenrollKeepValid(s: State, dto: UpdateGradeDto, enrollmentId: Guid)
    requires Valid(s)
    ensures Valid(GradeStep(s, dto).after) && Valid(UnenrollStep(s, enrollmentId).after)
  {
    var t := GradeStep(s, dto);
    if t.result.IsSuccess() {
      var es := t.after.enrollments;
      forall a, b | a in es && b in es && a != b
        ensures es[a].studentId != es[b].studentId || es[a].courseId != es[b].courseId
      {
        assert es[a].studentId == s.enrollments[a].studentId && es[a].courseId == s.enrollments[a].courseId;
        assert es[b].studentId == s.enrollments[b].studentId && es[b].courseId == s.enrollments[b].courseId;
      }
    }
  }

  /** Enrolling twice in the same course fails the second time. */
  lemma EnrollTwiceFails(s: State, dto: EnrollStudentDto, id1: Guid, id2: Guid)
    requires id1 !in s.enrollments && id2 !in s.enrollments && id1 != id2
    requires EnrollStep(s, dto, id1).result.IsSuccess()
    ensures var t := EnrollStep(s, dto, id1);
      EnrollStep(t.after, dto, id2) == Transition(t.after, FailureOf(AlreadyEnrolled))
  {
    var t := EnrollStep(s, dto, id1);
    assert t.after.enrollments[id1].studentId == dto.studentId && t.after.enrollments[id1].courseId == dto.courseId;
  }

  /** A fresh enrollment can be withdrawn, which restores the state. */
  lemma EnrollThenUnenrollRestores(s: State, dto: EnrollStudentDto, newId: Guid)
    requires newId !in s.enrollments
    requires EnrollStep(s, dto, newId).result.IsSuccess()
    ensures UnenrollStep(EnrollStep(s, dto, newId).after, newId) == Transition(s, Success())
  {
    var t := EnrollStep(s, dto, newId);
    assert t.after.enrollments - {newId} == s.enrollments;
  }

  /** Once graded, an enrollment can no longer be withdrawn. */
  lemma GradedCannotUnenroll(s: State, dto: UpdateGradeDto)
    requires GradeStep(s, dto).result.IsSuccess()
    ensures var t := GradeStep(s, dto);
      UnenrollStep(t.after, dto.enrollmentId) == Transition(t.after, Failure(AlreadyGraded))
  {
  }

  /** Grading twice: the last valid grade wins. */
  lemma LastGradeWins(s: State, id: Guid, g1: real, g2: real)
    requires ValidGrade(g1) && ValidGrade(g2) && id in s.enrollments
    ensures GradeStep(GradeStep(s, UpdateGradeDto(id, g1)).after, UpdateGradeDto(id, g2)) == GradeStep(s, UpdateGradeDto(id, g2))
  {
    var t1 := GradeStep(s, UpdateGradeDto(id, g1));
    assert t1.after.enrollments[id := s.enrollments[id].(grade := Some(g2))] == s.enrollments[id := s.enrollments[id].(grade := Some(g2))];
  }

  method EnrollStudent(db: Database, dto: EnrollStudentDto, newId: Guid) returns (r: ValueResult<Guid>)
    requires newId !in db.enrollments
    modifies db
    ensures var t := EnrollStep(old(db.Snapshot()), dto, newId);
      db.Snapshot() == t.after && r == t.result
  {
    var studentExists := dto.studentId in db.students;
    if !studentExists {
      return FailureOf(StudentNotFound);
    }
    var courseExists := dto.courseId in db.courses;
    if !courseExists {
      return FailureOf(CourseNotFound);
    }
    var alreadyEnrolled := Enrolled(db.enrollments, dto.studentId, dto.courseId);
    if alreadyEnrolled {
      return FailureOf(AlreadyEnrolled);
    }
    var enrollment := Enrollment(dto.studentId, dto.courseId, dto.semester, None);
    db.enrollments := db.enrollments[newId := enrollment];
    r := SuccessWith(newId);
  }

  method GradeStudent(db: Database, dto: UpdateGradeDto) returns (r: Result)
    modifies db
    ensures var t := GradeStep(old(db.Snapshot()), dto);
      db.Snapshot() == t.after && r == t.result
  {
    if dto.enrollmentId !in db.enrollments {
      return Failure(EnrollmentNotFound);
    }
    var enrollment := db.enrollments[dto.enrollmentId];
    if dto.grade < 2.0 || dto.grade > 5.5 {
      return Failure(InvalidGrade);
    }
    enrollment := enrollment.(grade := Some(dto.grade));
    db.enrollments := db.enrollments[dto.enrollmentId := enrollment];
    r := Success();
  }

  method UnenrollStudent(db: Database, enrollmentId: Guid) returns (r: Result)
    modifies db
    ensures var t := UnenrollStep(old(db.Snapshot()), enrollmentId);
      db.Snapshot() == t.after && r == t.result
  {
    if enrollmentId !in db.enrollments {
      return Failure(EnrollmentNotFound);
    }
    if db.enrollments[enrollmentId].grade.Some? {
      return Failure(AlreadyGraded);
    }
    db.enrollments := db.enrollments - {enrollmentId};
    r := Success();
  }
}
