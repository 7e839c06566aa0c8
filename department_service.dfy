/** DepartmentService: departments with unique, trimmed names, and their
    listing ordered by name. */
module DepartmentService {
  import opened Results
  import opened Text
  import opened Store
  import opened Listing

  datatype CreateDepartmentDto = CreateDepartmentDto(name: string)

  datatype UpdateDepartmentDto = UpdateDepartmentDto(id: Guid, name: string)

  /** One row of the listing. */
  datatype DepartmentDto = DepartmentDto(id: Guid, name: string)

  function DoesNotExist(id: Guid): string {
    "Department with ID " + GuidText(id) + " does not exist."
  }

  function AlreadyExists(name: string): string {
    "Department \"" + name + "\" already exists."
  }

  function NameAlreadyTaken(name: string): string {
    "Department name \"" + name + "\" is already taken."
  }

  /** CreateDepartmentAsync: the name is trimmed first; fails when a
      department already has the trimmed name, otherwise adds exactly one
      department under the new id, holding the trimmed name. */
  function CreateDepartmentStep(s: State, dto: CreateDepartmentDto, newId: Guid): (t: Transition<ValueResult<Guid>>)
    requires newId !in s.departments
    ensures NameTaken(s.departments, Trim(dto.name), None) ==>
      t == Transition(s, FailureOf(AlreadyExists(Trim(dto.name))))
    ensures t.result.IsSuccess() <==> !NameTaken(s.departments, Trim(dto.name), None)
    ensures t.result.IsSuccess() ==>
      && t.result.value == newId
      && t.after == s.(departments := s.departments[newId := Department(Trim(dto.name))])
  {
    var name := Trim(dto.name);
    if NameTaken(s.departments, name, None) then Transition(s, FailureOf(AlreadyExists(name)))
    else Transition(s.(departments := s.departments[newId := Department(name)]), SuccessWith(newId))
  }

  /** UpdateDepartmentAsync: an unknown id fails first, then a trimmed name
      held by a different department; a success sets only that department's
      name, to the trimmed value. */
  function UpdateDepartmentStep(s: State, dto: UpdateDepartmentDto): (t: Transition<Result>)
    ensures dto.id !in s.departments ==> t == Transition(s, Failure(DoesNotExist(dto.id)))
    ensures dto.id in s.departments && NameTaken(s.departments, Trim(dto.name), Some(dto.id)) ==>
      t == Transition(s, Failure(NameAlreadyTaken(Trim(dto.name))))
    ensures t.result.IsSuccess() <==> dto.id in s.departments && !NameTaken(s.departments, Trim(dto.name), Some(dto.id))
    ensures t.result.IsSuccess() ==> t.after == s.(departments := s.departments[dto.id := Department(Trim(dto.name))])
  {
    if dto.id !in s.departments then Transition(s, Failure(DoesNotExist(dto.id)))
    else
      var name := Trim(dto.name);
      if NameTaken(s.departments, name, Some(dto.id)) then Transition(s, Failure(NameAlreadyTaken(name)))
      else Transition(s.(departments := s.departments[dto.id := Department(name)]), Success())
  }

  /** The courses of department `id`. `Course.DepartmentId` is required, so
      deleting the department deletes these rows with it. */
  function CoursesOf(courses: map<Guid, Course>, id: Guid): (r: set<Guid>)
    ensures r <= courses.Keys
    ensures forall c :: c in courses ==> (c in r <==> courses[c].departmentId == id)
  {
    set c | c in courses && courses[c].departmentId == id
  }

  /** Some enrollment still refers to a course of the department; the
      optional `Enrollment.CourseId` key takes no action on delete, so the
      database refuses the cascade. */
  predicate CascadeHitsEnrollment(s: State, id: Guid) {
    exists e :: e in s.enrollments && s.enrollments[e].courseId in CoursesOf(s.courses, id)
  }

  /** A course outside the department lists one of the department's courses
      as a prerequisite; the Restrict rule on `PrerequisiteId` refuses the
      cascade. (Prerequisite rows of a course inside the department go with
      that course.) */
  predicate CascadeHitsPrerequisite(s: State, id: Guid) {
    exists o :: o in s.courses && s.courses[o].departmentId != id
                && s.courses[o].prerequisites * CoursesOf(s.courses, id) != {}
  }

  /** DeleteDepartmentAsync: an unknown id fails. Otherwise the delete is
      saved without a try/catch: the database deletes the department's
      courses with it and raises when a row still refers to one of them;
      else the department and exactly its courses are gone. */
  function DeleteDepartmentStep(s: State, id: Guid): (t: Transition<Response<Result>>)
    ensures id !in s.departments ==> t == Transition(s, Returned(Failure(DoesNotExist(id))))
    ensures id in s.departments && (CascadeHitsEnrollment(s, id) || CascadeHitsPrerequisite(s, id)) ==>
      t == Transition(s, Raised(ForeignKeyViolation))
    ensures t.result == Returned(Success()) <==>
      id in s.departments && !CascadeHitsEnrollment(s, id) && !CascadeHitsPrerequisite(s, id)
    ensures t.result == Returned(Success()) ==>
      t.after == s.(departments := s.departments - {id}, courses := s.courses - CoursesOf(s.courses, id))
  {
    if id !in s.departments then Transition(s, Returned(Failure(DoesNotExist(id))))
    else if CascadeHitsEnrollment(s, id) || CascadeHitsPrerequisite(s, id) then Transition(s, Raised(ForeignKeyViolation))
    else
      Transition(s.(departments := s.departments - {id}, courses := s.courses - CoursesOf(s.courses, id)),
                 Returned(Success()))
  }

  /** The listing rows for `ids`, in that order. */
  function Rows(ds: map<Guid, Department>, ids: seq<Guid>): (r: seq<DepartmentDto>)
    requires forall i :: 0 <= i < |ids| ==> ids[i] in ds
    ensures |r| == |ids|
    ensures forall i :: 0 <= i < |r| ==> r[i] == DepartmentDto(ids[i], ds[ids[i]].name)
  {
    seq(|ids|, i requires 0 <= i < |ids| => DepartmentDto(ids[i], ds[ids[i]].name))
  }

  /** The id column of a listing. */
  function Ids(rows: seq<DepartmentDto>): (ids: seq<Guid>)
    ensures |ids| == |rows| && forall i :: 0 <= i < |rows| ==> ids[i] == rows[i].id
  {
    seq(|rows|, i requires 0 <= i < |rows| => rows[i].id)
  }

  /** GetAllDepartmentsAsync: one row per department, ordered by name. */
  ghost function AllDepartments(ds: map<Guid, Department>): (r: seq<DepartmentDto>)
    ensures |r| == |ds.Keys|
    ensures forall i :: 0 <= i < |r| ==> r[i].id in ds && r[i].name == ds[r[i].id].name
    ensures forall d :: d in ds ==> d in Ids(r)
    ensures forall i, j :: 0 <= i < j < |r| ==> r[i].id != r[j].id && OrdinalLe(r[i].name, r[j].name)
  {
    var ids := SortByKey(ds.Keys, d => if d in ds then ds[d].name else "");
    var r := Rows(ds, ids);
    assert Ids(r) == ids;
    r
  }

  /** Creating a department keeps the names unique. */
  lemma CreateDepartmentKeepsValid(s: State, dto: CreateDepartmentDto, newId: Guid)
    requires newId !in s.departments && Valid(s)
    ensures Valid(CreateDepartmentStep(s, dto, newId).after)
  {
    var t := CreateDepartmentStep(s, dto, newId);
    if t.result.IsSuccess() {
      var ds := t.after.departments;
      forall a, b | a in ds && b in ds && a != b ensures ds[a].name != ds[b].name {
        if a == newId {
          assert b in s.departments;
        } else if b == newId {
          assert a in s.departments;
        }
      }
    }
  }

  /** Updating a department keeps the names unique: the check excludes only
      the department itself. */
  lemma UpdateDepartmentKeepsValid(s: State, dto: UpdateDepartmentDto)
    requires Valid(s)
    ensures Valid(UpdateDepartmentStep(s, dto).after)
  {
    var t := UpdateDepartmentStep(s, dto);
    if t.result.IsSuccess() {
      var ds := t.after.departments;
      forall a, b | a in ds && b in ds && a != b ensures ds[a].name != ds[b].name {
        if a == dto.id {
          assert b in s.departments && s.departments[b].name != Trim(dto.name);
        } else if b == dto.id {
          assert a in s.departments && s.departments[a].name != Trim(dto.name);
        }
      }
    }
  }

  /** A delete that goes through leaves no prerequisite pointing at a
      deleted course. */
  lemma DeleteDepartmentKeepsValid(s: State, id: Guid)
    requires Valid(s)
    ensures Valid(DeleteDepartmentStep(s, id).after)
  {
    var t := DeleteDepartmentStep(s, id);
    if t.result == Returned(Success()) {
      var gone := CoursesOf(s.courses, id);
      var cs := t.after.courses;
      forall o | o in cs ensures o !in cs[o].prerequisites && cs[o].prerequisites <= cs.Keys {
        assert o in s.courses && o !in gone && s.courses[o].departmentId != id;
        assert s.courses[o].prerequisites * gone == {};
        forall p | p in cs[o].prerequisites ensures p in cs {
          assert p in s.courses[o].prerequisites && p !in s.courses[o].prerequisites * gone;
        }
      }
    }
  }

  /** A department whose course is still a prerequisite of another
      department's course cannot be deleted: the save raises and nothing is
      removed. */
  lemma RequiredCourseBlocksDelete(s: State, id: Guid, c: Guid, o: Guid)
    requires id in s.departments && c in s.courses && o in s.courses
    requires s.courses[c].departmentId == id && s.courses[o].departmentId != id
    requires c in s.courses[o].prerequisites
    ensures DeleteDepartmentStep(s, id) == Transition(s, Raised(ForeignKeyViolation))
  {
    assert c in s.courses[o].prerequisites * CoursesOf(s.courses, id);
  }

  /** Likewise when one of its courses still has an enrollment. */
  lemma AttendedCourseBlocksDelete(s: State, id: Guid, e: Guid)
    requires id in s.departments && e in s.enrollments
    requires s.enrollments[e].courseId in s.courses && s.courses[s.enrollments[e].courseId].departmentId == id
    ensures DeleteDepartmentStep(s, id) == Transition(s, Raised(ForeignKeyViolation))
  {
    assert s.enrollments[e].courseId in CoursesOf(s.courses, id);
  }

  /** Names are compared after trimming: once "Physics" exists, creating
      " Physics " (or any spelling that trims to it) fails. */
  lemma CreateTrimmedDuplicateFails(s: State, dto: CreateDepartmentDto, other: CreateDepartmentDto, id1: Guid, id2: Guid)
    requires id1 !in s.departments && id2 !in s.departments && id1 != id2
    requires CreateDepartmentStep(s, dto, id1).result.IsSuccess()
    requires Trim(other.name) == Trim(dto.name)
    ensures var t := CreateDepartmentStep(s, dto, id1);
      CreateDepartmentStep(t.after, other, id2) == Transition(t.after, FailureOf(AlreadyExists(Trim(dto.name))))
  {
    var t := CreateDepartmentStep(s, dto, id1);
    assert t.after.departments[id1].name == Trim(other.name);
  }

  /** A stored name is already trimmed, so renaming a department to its own
      name succeeds and changes nothing, in a state whose names are unique. */
  lemma RenameToOwnNameUnchanged(s: State, id: Guid, name: string)
    requires UniqueDepartmentNames(s.departments) && id in s.departments
    requires name == s.departments[id].name && Trim(name) == name
    ensures UpdateDepartmentStep(s, UpdateDepartmentDto(id, name)) == Transition(s, Success())
  {
    assert !NameTaken(s.departments, name, Some(id)) by {
      forall d | d in s.departments && d != id ensures s.departments[d].name != name {
      }
    }
    assert s.departments[id := Department(name)] == s.departments;
  }

  /** Every name a create or update stores is trimmed. */
  lemma StoredNamesAreTrimmed(s: State, dto: CreateDepartmentDto, newId: Guid, update: UpdateDepartmentDto)
    requires newId !in s.departments
    requires CreateDepartmentStep(s, dto, newId).result.IsSuccess()
    requires UpdateDepartmentStep(s, update).result.IsSuccess()
    ensures var n := CreateDepartmentStep(s, dto, newId).after.departments[newId].name; Trim(n) == n
    ensures var n := UpdateDepartmentStep(s, update).after.departments[update.id].name; Trim(n) == n
  {
    TrimIdempotent(dto.name);
    TrimIdempotent(update.name);
  }

  method CreateDepartment(db: Database, dto: CreateDepartmentDto, newId: Guid) returns (r: ValueResult<Guid>)
    requires newId !in db.departments
    modifies db
    ensures var t := CreateDepartmentStep(old(db.Snapshot()), dto, newId);
      db.Snapshot() == t.after && r == t.result
  {
    var normalizedName := Trim(dto.name);
    var exists_ := NameTaken(db.departments, normalizedName, None);
    if exists_ {
      return FailureOf(AlreadyExists(normalizedName));
    }
    db.departments := db.departments[newId := Department(normalizedName)];
    r := SuccessWith(newId);
  }

  method UpdateDepartment(db: Database, dto: UpdateDepartmentDto) returns (r: Result)
    modifies db
    ensures var t := UpdateDepartmentStep(old(db.Snapshot()), dto);
      db.Snapshot() == t.after && r == t.result
  {
    if dto.id !in db.departments {
      return Failure(DoesNotExist(dto.id));
    }
    var normalizedName := Trim(dto.name);
    var nameTaken := NameTaken(db.departments, normalizedName, Some(dto.id));
    if nameTaken {
      return Failure(NameAlreadyTaken(normalizedName));
    }
    db.departments := db.departments[dto.id := db.departments[dto.id].(name := normalizedName)];
    r := Success();
  }

  method DeleteDepartment(db: Database, id: Guid) returns (r: Response<Result>)
    modifies db
    ensures var t := DeleteDepartmentStep(old(db.Snapshot()), id);
      db.Snapshot() == t.after && r == t.result
  {
    if id !in db.departments {
      return Returned(Failure(DoesNotExist(id)));
    }
    // SaveChanges: the cascade to the courses, checked by the database.
    var state := db.Snapshot();
    if CascadeHitsEnrollment(state, id) || CascadeHitsPrerequisite(state, id) {
      return Raised(ForeignKeyViolation);
    }
    db.departments := db.departments - {id};
    db.courses := db.courses - CoursesOf(db.courses, id);
    r := Returned(Success());
  }
}
