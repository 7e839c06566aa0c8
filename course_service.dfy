/** CourseService: creating, updating and deleting courses, and editing a
    course's prerequisite set. */
module CourseService {
  import opened Results
  import opened Store

  datatype CreateCourseDto = CreateCourseDto(name: string, code: string, ects: int, departmentId: Guid, lecturerId: Guid)

  datatype UpdateCourseDto = UpdateCourseDto(id: Guid, name: string, code: string, ects: int)

  const DepartmentNotFound: string := "Department not found."
  const LecturerNotFound: string := "Lecturer not found."
  const CourseNotFound: string := "Course not found."
  const HasEnrollments: string := "Cannot delete course with active enrollments."
  const SelfPrerequisite: string := "A course cannot be a prerequisite for itself."
  const CourseOrPrerequisiteNotFound: string := "Course or Prerequisite not found."
  const PrerequisiteAlreadyAdded: string := "This prerequisite is already added."
  const PrerequisiteNotInCourse: string := "Prerequisite not found in this course."

  function CodeExists(code: string): string {
    "Course with code '" + code + "' already exists."
  }

  function CodeAlreadyTaken(code: string): string {
    "Code '" + code + "' is already taken."
  }

  /** Some enrollment refers to the course. */
  predicate Attended(enrollments: map<Guid, Enrollment>, courseId: Guid) {
    exists e :: e in enrollments && enrollments[e].courseId == courseId
  }

  /** Some course lists `courseId` among its prerequisites. */
  predicate RequiredByAnother(courses: map<Guid, Course>, courseId: Guid) {
    exists c :: c in courses && courseId in courses[c].prerequisites
  }

  /** CreateCourseAsync: fails, in this order, on an unknown department, an
      unknown lecturer, or a code some course already has; otherwise adds
      exactly one course, without prerequisites, under the new id. */
  function CreateCourseStep(s: State, dto: CreateCourseDto, newId: Guid): (t: Transition<ValueResult<Guid>>)
    requires newId !in s.courses
    ensures dto.departmentId !in s.departments ==> t == Transition(s, FailureOf(DepartmentNotFound))
    ensures dto.departmentId in s.departments && dto.lecturerId !in s.professors ==>
      t == Transition(s, FailureOf(LecturerNotFound))
    ensures dto.departmentId in s.departments && dto.lecturerId in s.professors && CodeTaken(s.courses, dto.code, None) ==>
      t == Transition(s, FailureOf(CodeExists(dto.code)))
    ensures t.result.IsSuccess() <==>
      dto.departmentId in s.departments && dto.lecturerId in s.professors && !CodeTaken(s.courses, dto.code, None)
    ensures t.result.IsSuccess() ==>
      && t.result.value == newId
      && t.after == s.(courses := s.courses[newId := Course(dto.name, dto.code, dto.ects, dto.departmentId, dto.lecturerId, {})])
  {
    if dto.departmentId !in s.departments then Transition(s, FailureOf(DepartmentNotFound))
    else if dto.lecturerId !in s.professors then Transition(s, FailureOf(LecturerNotFound))
    else if CodeTaken(s.courses, dto.code, None) then Transition(s, FailureOf(CodeExists(dto.code)))
    else
      var course := Course(dto.name, dto.code, dto.ects, dto.departmentId, dto.lecturerId, {});
      Transition(s.(courses := s.courses[newId := course]), SuccessWith(newId))
  }

  /** UpdateCourseAsync: "Course not found." first, then a code held by a
      different course; the course's own code does not count. A success
      changes only that course's name, code and ECTS. */
  function UpdateCourseStep(s: State, dto: UpdateCourseDto): (t: Transition<Result>)
    ensures dto.id !in s.courses ==> t == Transition(s, Failure(CourseNotFound))
    ensures dto.id in s.courses && CodeTaken(s.courses, dto.code, Some(dto.id)) ==>
      t == Transition(s, Failure(CodeAlreadyTaken(dto.code)))
    ensures t.result.IsSuccess() <==> dto.id in s.courses && !CodeTaken(s.courses, dto.code, Some(dto.id))
    ensures t.result.IsSuccess() ==>
      t.after == s.(courses := s.courses[dto.id := s.courses[dto.id].(name := dto.name, code := dto.code, ects := dto.ects)])
  {
    if dto.id !in s.courses then Transition(s, Failure(CourseNotFound))
    else if CodeTaken(s.courses, dto.code, Some(dto.id)) then Transition(s, Failure(CodeAlreadyTaken(dto.code)))
    else
      var c := s.courses[dto.id];
      Transition(s.(courses := s.courses[dto.id := c.(name := dto.name, code := dto.code, ects := dto.ects)]), Success())
  }

  /** DeleteCourseAsync: "Course not found.", then a course with any
      enrollment is refused. Its own prerequisite rows go with it (cascade on
      the course side of the join table), but the join table restricts
      deleting a course that another course requires: the save then raises
      and nothing changes. Otherwise exactly that course is removed. */
  function DeleteCourseStep(s: State, id: Guid): (t: Transition<Response<Result>>)
    ensures id !in s.courses ==> t == Transition(s, Returned(Failure(CourseNotFound)))
    ensures id in s.courses && Attended(s.enrollments, id) ==> t == Transition(s, Returned(Failure(HasEnrollments)))
    ensures id in s.courses && !Attended(s.enrollments, id) && RequiredByAnother(s.courses, id) ==>
      t == Transition(s, Raised(ForeignKeyViolation))
    ensures t.result == Returned(Success()) <==>
      id in s.courses && !Attended(s.enrollments, id) && !RequiredByAnother(s.courses, id)
    ensures t.result == Returned(Success()) ==> t.after == s.(courses := s.courses - {id})
  {
    if id !in s.courses then Transition(s, Returned(Failure(CourseNotFound)))
    else if Attended(s.enrollments, id) then Transition(s, Returned(Failure(HasEnrollments)))
    else if RequiredByAnother(s.courses, id) then Transition(s, Raised(ForeignKeyViolation))
    else Transition(s.(courses := s.courses - {id}), Returned(Success()))
  }

  /** AddPrerequisiteAsync: self-reference is refused before any lookup, then
      a missing course or prerequisite, then a prerequisite already present.
      A success adds exactly that one element to the course's prerequisite
      set. No cycle check is made. */
  function AddPrerequisiteStep(s: State, courseId: Guid, prerequisiteId: Guid): (t: Transition<Result>)
    ensures courseId == prerequisiteId ==> t == Transition(s, Failure(SelfPrerequisite))
    ensures courseId != prerequisiteId && (courseId !in s.courses || prerequisiteId !in s.courses) ==>
      t == Transition(s, Failure(CourseOrPrerequisiteNotFound))
    ensures courseId != prerequisiteId && courseId in s.courses && prerequisiteId in s.courses
            && prerequisiteId in s.courses[courseId].prerequisites ==>
      t == Transition(s, Failure(PrerequisiteAlreadyAdded))
    ensures t.result.IsSuccess() <==>
      courseId != prerequisiteId && courseId in s.courses && prerequisiteId in s.courses
      && prerequisiteId !in s.courses[courseId].prerequisites
    ensures t.result.IsSuccess() ==>
      && t.after == s.(courses := s.courses[courseId := s.courses[courseId].(prerequisites := s.courses[courseId].prerequisites + {prerequisiteId})])
      && |t.after.courses[courseId].prerequisites| == |s.courses[courseId].prerequisites| + 1
  {
    if courseId == prerequisiteId then Transition(s, Failure(SelfPrerequisite))
    else if courseId !in s.courses || prerequisiteId !in s.courses then Transition(s, Failure(CourseOrPrerequisiteNotFound))
    else
      var c := s.courses[courseId];
      if prerequisiteId in c.prerequisites then Transition(s, Failure(PrerequisiteAlreadyAdded))
      else Transition(s.(courses := s.courses[courseId := c.(prerequisites := c.prerequisites + {prerequisiteId})]), Success())
  }

  /** RemovePrerequisiteAsync: "Course not found.", then a prerequisite not
      in the course's set; a success removes exactly that one element. */
  function RemovePrerequisiteStep(s: State, courseId: Guid, prerequisiteId: Guid): (t: Transition<Result>)
    ensures courseId !in s.courses ==> t == Transition(s, Failure(CourseNotFound))
    ensures courseId in s.courses && prerequisiteId !in s.courses[courseId].prerequisites ==>
      t == Transition(s, Failure(PrerequisiteNotInCourse))
    ensures t.result.IsSuccess() <==> courseId in s.courses && prerequisiteId in s.courses[courseId].prerequisites
    ensures t.result.IsSuccess() ==>
      && t.after == s.(courses := s.courses[courseId := s.courses[courseId].(prerequisites := s.courses[courseId].prerequisites - {prerequisiteId})])
      && |t.after.courses[courseId].prerequisites| == |s.courses[courseId].prerequisites| - 1
  {
    if courseId !in s.courses then Transition(s, Failure(CourseNotFound))
    else
      var c := s.courses[courseId];
      if prerequisiteId !in c.prerequisites then Transition(s, Failure(PrerequisiteNotInCourse))
      else Transition(s.(courses := s.courses[courseId := c.(prerequisites := c.prerequisites - {prerequisiteId})]), Success())
  }

  /** Creating a course keeps the codes unique and the prerequisite sets
      well formed (the new course requires nothing). */
  lemma CreateCourseKeepsValid(s: State, dto: CreateCourseDto, newId: Guid)
    requires newId !in s.courses && Valid(s)
    ensures Valid(CreateCourseStep(s, dto, newId).after)
  {
    var t := CreateCourseStep(s, dto, newId);
    if t.result.IsSuccess() {
      var cs := t.after.courses;
      forall a, b | a in cs && b in cs && a != b ensures cs[a].code != cs[b].code {
        if a == newId {
          assert b in s.courses;
        } else if b == newId {
          assert a in s.courses;
        }
      }
    }
  }

  /** Updating a course keeps the codes unique: the code check excludes only
      the course itself; prerequisites are untouched. */
  lemma UpdateCourseKeepsValid(s: State, dto: UpdateCourseDto)
    requires Valid(s)
    ensures Valid(UpdateCourseStep(s, dto).after)
  {
    var t := UpdateCourseStep(s, dto);
    if t.result.IsSuccess() {
      var cs := t.after.courses;
      forall a, b | a in cs && b in cs && a != b ensures cs[a].code != cs[b].code {
        if a == dto.id {
          assert b in s.courses && s.courses[b].code != dto.code;
        } else if b == dto.id {
          assert a in s.courses && s.courses[a].code != dto.code;
        }
      }
    }
  }

  /** Deleting a course never leaves a dangling prerequisite: the deletion
      only goes through when no other course requires it. */
  lemma DeleteCourseKeepsValid(s: State, id: Guid)
    requires Valid(s)
    ensures Valid(DeleteCourseStep(s, id).after)
  {
    var t := DeleteCourseStep(s, id);
    if t.result == Returned(Success()) {
      var cs := t.after.courses;
      forall c | c in cs ensures c !in cs[c].prerequisites && cs[c].prerequisites <= cs.Keys {
        assert c in s.courses && id !in s.courses[c].prerequisites;
      }
    }
  }

  /** Adding and removing prerequisites keeps them existing courses other
      than the course itself. */
  lemma PrerequisiteEditsKeepValid(s: State, courseId: Guid, prerequisiteId: Guid)
    requires Valid(s)
    ensures Valid(AddPrerequisiteStep(s, courseId, prerequisiteId).after)
    ensures Valid(RemovePrerequisiteStep(s, courseId, prerequisiteId).after)
  {
    var t := AddPrerequisiteStep(s, courseId, prerequisiteId);
    if t.result.IsSuccess() {
      var cs := t.after.courses;
      forall a, b | a in cs && b in cs && a != b ensures cs[a].code != cs[b].code {
        assert cs[a].code == s.courses[a].code && cs[b].code == s.courses[b].code;
      }
    }
    var u := RemovePrerequisiteStep(s, courseId, prerequisiteId);
    if u.result.IsSuccess() {
      var cs := u.after.courses;
      forall a, b | a in cs && b in cs && a != b ensures cs[a].code != cs[b].code {
        assert cs[a].code == s.courses[a].code && cs[b].code == s.courses[b].code;
      }
    }
  }

  /** Adding a prerequisite and removing it again restores the state. */
  lemma AddThenRemoveRestores(s: State, courseId: Guid, prerequisiteId: Guid)
    requires AddPrerequisiteStep(s, courseId, prerequisiteId).result.IsSuccess()
    ensures RemovePrerequisiteStep(AddPrerequisiteStep(s, courseId, prerequisiteId).after, courseId, prerequisiteId)
      == Transition(s, Success())
  {
    var c := s.courses[courseId];
    assert c.prerequisites + {prerequisiteId} - {prerequisiteId} == c.prerequisites;
    assert s.courses[courseId := c] == s.courses;
  }

  /** Adding the same prerequisite twice fails the second time. */
  lemma AddTwiceFails(s: State, courseId: Guid, prerequisiteId: Guid)
    requires AddPrerequisiteStep(s, courseId, prerequisiteId).result.IsSuccess()
    ensures var t := AddPrerequisiteStep(s, courseId, prerequisiteId);
      AddPrerequisiteStep(t.after, courseId, prerequisiteId) == Transition(t.after, Failure(PrerequisiteAlreadyAdded))
  {
  }

  /** An update that keeps the course's own code is never refused as a
      duplicate, in a state whose codes are unique. */
  lemma UpdateKeepingOwnCodeSucceeds(s: State, dto: UpdateCourseDto)
    requires UniqueCourseCodes(s.courses) && dto.id in s.courses && dto.code == s.courses[dto.id].code
    ensures UpdateCourseStep(s, dto).result == Success()
  {
    assert !CodeTaken(s.courses, dto.code, Some(dto.id)) by {
      forall c | c in s.courses && c != dto.id ensures s.courses[c].code != dto.code {
      }
    }
  }

  /** A second course cannot be created with a code just used. */
  lemma CreateSameCodeTwiceFails(s: State, dto: CreateCourseDto, id1: Guid, id2: Guid)
    requires id1 !in s.courses && id2 !in s.courses && id1 != id2
    requires CreateCourseStep(s, dto, id1).result.IsSuccess()
    ensures var t := CreateCourseStep(s, dto, id1);
      CreateCourseStep(t.after, dto, id2) == Transition(t.after, FailureOf(CodeExists(dto.code)))
  {
    var t := CreateCourseStep(s, dto, id1);
    assert t.after.courses[id1].code == dto.code;
  }

  method CreateCourse(db: Database, dto: CreateCourseDto, newId: Guid) returns (r: ValueResult<Guid>)
    requires newId !in db.courses
    modifies db
    ensures var t := CreateCourseStep(old(db.Snapshot()), dto, newId);
      db.Snapshot() == t.after && r == t.result
  {
    var departmentExists := dto.departmentId in db.departments;
    if !departmentExists {
      return FailureOf(DepartmentNotFound);
    }
    var lecturerExists := dto.lecturerId in db.professors;
    if !lecturerExists {
      return FailureOf(LecturerNotFound);
    }
    var exists_ := CodeTaken(db.courses, dto.code, None);
    if exists_ {
      return FailureOf(CodeExists(dto.code));
    }
    var course := Course(dto.name, dto.code, dto.ects, dto.departmentId, dto.lecturerId, {});
    db.courses := db.courses[newId := course];
    r := SuccessWith(newId);
  }

  method UpdateCourse(db: Database, dto: UpdateCourseDto) returns (r: Result)
    modifies db
    ensures var t := UpdateCourseStep(old(db.Snapshot()), dto);
      db.Snapshot() == t.after && r == t.result
  {
    if dto.id !in db.courses {
      return Failure(CourseNotFound);
    }
    var course := db.courses[dto.id];
    var codeTaken := CodeTaken(db.courses, dto.code, Some(dto.id));
    if codeTaken {
      return Failure(CodeAlreadyTaken(dto.code));
    }
    course := course.(name := dto.name);
    course := course.(code := dto.code);
    course := course.(ects := dto.ects);
    db.courses := db.courses[dto.id := course];
    r := Success();
  }

  method DeleteCourse(db: Database, id: Guid) returns (r: Response<Result>)
    modifies db
    ensures var t := DeleteCourseStep(old(db.Snapshot()), id);
      db.Snapshot() == t.after && r == t.result
  {
    if id !in db.courses {
      return Returned(Failure(CourseNotFound));
    }
    if Attended(db.enrollments, id) {
      return Returned(Failure(HasEnrollments));
    }
    // SaveChanges: the PrerequisiteId side of the join table is Restrict.
    if RequiredByAnother(db.courses, id) {
      return Raised(ForeignKeyViolation);
    }
    db.courses := db.courses - {id};
    r := Returned(Success());
  }

  method AddPrerequisite(db: Database, courseId: Guid, prerequisiteId: Guid) returns (r: Result)
    modifies db
    ensures var t := AddPrerequisiteStep(old(db.Snapshot()), courseId, prerequisiteId);
      db.Snapshot() == t.after && r == t.result
  {
    if courseId == prerequisiteId {
      return Failure(SelfPrerequisite);
    }
    if courseId !in db.courses || prerequisiteId !in db.courses {
      return Failure(CourseOrPrerequisiteNotFound);
    }
    var course := db.courses[courseId];
    if prerequisiteId in course.prerequisites {
      return Failure(PrerequisiteAlreadyAdded);
    }
    course := course.(prerequisites := course.prerequisites + {prerequisiteId});
    db.courses := db.courses[courseId := course];
    r := Success();
  }

  method RemovePrerequisite(db: Database, courseId: Guid, prerequisiteId: Guid) returns (r: Result)
    modifies db
    ensures var t := RemovePrerequisiteStep(old(db.Snapshot()), courseId, prerequisiteId);
      db.Snapshot() == t.after && r == t.result
  {
    if courseId !in db.courses {
      return Failure(CourseNotFound);
    }
    var course := db.courses[courseId];
    if prerequisiteId !in course.prerequisites {
      return Failure(PrerequisiteNotInCourse);
    }
    course := course.(prerequisites := course.prerequisites - {prerequisiteId});
    db.courses := db.courses[courseId := course];
    r := Success();
  }
}
