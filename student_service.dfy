/** StudentService: create (allocating the "S" counter inside a transaction),
    delete (release-if-last), update. The student table holds master students
    too, so delete and update here see them as well. */
module StudentService {
  import opened Results
  import opened Text
  import opened Decimal
  import opened Allocator
  import opened Store

  datatype CreateStudentDto = CreateStudentDto(
    firstName: string, lastName: string, street: string, city: string, postalCode: string, yearOfStudy: int)

  datatype UpdateStudentDto = UpdateStudentDto(
    id: Guid, firstName: string, lastName: string, yearOfStudy: int, street: string, city: string, postalCode: string)

  const CreateError: string := "Error creating student: "
  const DeleteError: string := "Error deleting student: "

  function NotFound(id: Guid): string {
    "Student with ID " + GuidText(id) + " not found."
  }

  /** The row a create inserts. */
  function NewStudent(dto: CreateStudentDto, index: string): Student {
    Student(dto.firstName, dto.lastName, index, dto.yearOfStudy, Address(dto.street, dto.city, dto.postalCode), None)
  }

  /** CreateStudentAsync as one atomic step. `fault` is the exception the
      storage raises while saving, if any. Either the whole step applies (the
      "S" counter advances by one, created at 0 if missing, and exactly one
      student with the minted index is added) or, on any exception (including
      the unique index on UniversityIndex), the transaction rolls back and
      nothing changes. */
  function CreateStudentStep(s: State, dto: CreateStudentDto, newId: Guid, fault: Option<string>)
    : (t: Transition<ValueResult<Guid>>)
    requires newId !in s.students
    ensures var a := Allocate(s.counters, StudentPrefix);
      && (t.result.IsSuccess() <==> fault.None? && !IndexTaken(s.students, a.index))
      && (t.result.IsSuccess() ==>
            && t.result.value == newId
            && t.after == s.(counters := a.counters, students := s.students[newId := NewStudent(dto, a.index)]))
    ensures t.result.IsFailure() ==> t.after == s && StartsWith(t.result.Error(), CreateError)
  {
    var a := Allocate(s.counters, StudentPrefix);
    if fault.Some? then Transition(s, FailureOf(CreateError + fault.value))
    else if IndexTaken(s.students, a.index) then Transition(s, FailureOf(CreateError + DuplicateKeyViolation))
    else Transition(s.(counters := a.counters, students := s.students[newId := NewStudent(dto, a.index)]), SuccessWith(newId))
  }

  /** DeleteStudentAsync as one atomic step. An unknown id fails and changes
      nothing. Otherwise the student is removed and the "S" counter is
      released if the index's number is its current value; `"".Substring(1)`
      (only reached when the counter exists) and storage faults roll back. */
  function DeleteStudentStep(s: State, id: Guid, fault: Option<string>): (t: Transition<Result>)
    ensures id !in s.students ==> t == Transition(s, Failure(NotFound(id)))
    ensures t.result.IsSuccess() <==>
      id in s.students && fault.None? && (StudentPrefix in s.counters ==> |s.students[id].universityIndex| >= 1)
    ensures t.result.IsSuccess() ==>
      t.after == s.(counters := ReleaseIfLast(s.counters, StudentPrefix, s.students[id].universityIndex),
                    students := s.students - {id})
    ensures t.result.IsFailure() ==> t.after == s
  {
    if id !in s.students then Transition(s, Failure(NotFound(id)))
    else
      var index := s.students[id].universityIndex;
      if StudentPrefix in s.counters && |index| == 0 then Transition(s, Failure(DeleteError + SubstringOutOfRange))
      else if fault.Some? then Transition(s, Failure(DeleteError + fault.value))
      else Transition(s.(counters := ReleaseIfLast(s.counters, StudentPrefix, index), students := s.students - {id}), Success())
  }

  /** UpdateStudentAsync: rewrites names, year and address of an existing
      student (master or not); the UniversityIndex and thesis are kept and no
      other row changes. */
  function UpdateStudentStep(s: State, dto: UpdateStudentDto): (t: Transition<Result>)
    ensures dto.id !in s.students ==> t == Transition(s, Failure("Student not found."))
    ensures dto.id in s.students ==>
      && t.result == Success()
      && t.after.students.Keys == s.students.Keys
      && (forall id :: id in s.students && id != dto.id ==> t.after.students[id] == s.students[id])
      && t.after == s.(students := t.after.students)
      && var old_ := s.students[dto.id]; var new_ := t.after.students[dto.id];
        && new_.universityIndex == old_.universityIndex && new_.thesis == old_.thesis
        && new_.firstName == dto.firstName && new_.lastName == dto.lastName
        && new_.yearOfStudy == dto.yearOfStudy && new_.address == Address(dto.street, dto.city, dto.postalCode)
  {
    if dto.id !in s.students then Transition(s, Failure("Student not found."))
    else
      var st := s.students[dto.id];
      var st' := st.(firstName := dto.firstName, lastName := dto.lastName, yearOfStudy := dto.yearOfStudy,
                     address := Address(dto.street, dto.city, dto.postalCode));
      Transition(s.(students := s.students[dto.id := st']), Success())
  }

  /** Every step keeps the storage rules: in particular a create never
      leaves two students with one UniversityIndex. */
  lemma CreateStudentKeepsValid(s: State, dto: CreateStudentDto, newId: Guid, fault: Option<string>)
    requires newId !in s.students && Valid(s)
    ensures Valid(CreateStudentStep(s, dto, newId, fault).after)
  {
    var t := CreateStudentStep(s, dto, newId, fault);
    if t.result.IsSuccess() {
      var a := Allocate(s.counters, StudentPrefix);
      forall x, y | x in t.after.students && y in t.after.students && x != y
        ensures t.after.students[x].universityIndex != t.after.students[y].universityIndex
      {
        if x == newId { assert y in s.students; }
        else if y == newId { assert x in s.students; }
      }
    }
  }

  lemma DeleteStudentKeepsValid(s: State, id: Guid, fault: Option<string>)
    requires Valid(s)
    ensures Valid(DeleteStudentStep(s, id, fault).after)
  {
  }

  lemma UpdateStudentKeepsValid(s: State, dto: UpdateStudentDto)
    requires Valid(s)
    ensures Valid(UpdateStudentStep(s, dto).after)
  {
    var t := UpdateStudentStep(s, dto);
    if dto.id in s.students {
      forall x, y | x in t.after.students && y in t.after.students && x != y
        ensures t.after.students[x].universityIndex != t.after.students[y].universityIndex
      {
        assert t.after.students[x].universityIndex == s.students[x].universityIndex;
        assert t.after.students[y].universityIndex == s.students[y].universityIndex;
      }
    }
  }

  method CreateStudent(db: Database, dto: CreateStudentDto, newId: Guid, fault: Option<string>)
    returns (r: ValueResult<Guid>)
    requires newId !in db.students
    modifies db
    ensures var t := CreateStudentStep(old(db.Snapshot()), dto, newId, fault);
      db.Snapshot() == t.after && r == t.result
  {
    // Inside the transaction: nothing below is written to `db` unless it commits.
    var counter: int32 := 0;
    if StudentPrefix in db.counters {
      counter := db.counters[StudentPrefix];
    }
    counter := Increment(counter);
    var newIndex := Mint(StudentPrefix, counter);
    var student := Student(dto.firstName, dto.lastName, newIndex, dto.yearOfStudy,
                           Address(dto.street, dto.city, dto.postalCode), None);
    if fault.Some? {
      return FailureOf(CreateError + fault.value);
    }
    if IndexTaken(db.students, newIndex) {
      return FailureOf(CreateError + DuplicateKeyViolation);
    }
    db.counters := db.counters[StudentPrefix := counter];
    db.students := db.students[newId := student];
    r := SuccessWith(newId);
  }

  method DeleteStudent(db: Database, id: Guid, fault: Option<string>) returns (r: Result)
    modifies db
    ensures var t := DeleteStudentStep(old(db.Snapshot()), id, fault);
      db.Snapshot() == t.after && r == t.result
  {
    if id !in db.students {
      return Failure(NotFound(id));
    }
    var student := db.students[id];
    var counters := db.counters;
    if StudentPrefix in counters {
      if |student.universityIndex| == 0 {
        return Failure(DeleteError + SubstringOutOfRange);
      }
      var number := IndexNumber(student.universityIndex);
      if number.Some? && counters[StudentPrefix] == number.value {
        counters := counters[StudentPrefix := Decrement(counters[StudentPrefix])];
      }
    }
    if fault.Some? {
      return Failure(DeleteError + fault.value);
    }
    db.counters := counters;
    db.students := db.students - {id};
    r := Success();
  }

  method UpdateStudent(db: Database, dto: UpdateStudentDto) returns (r: Result)
    modifies db
    ensures var t := UpdateStudentStep(old(db.Snapshot()), dto);
      db.Snapshot() == t.after && r == t.result
  {
    if dto.id !in db.students {
      return Failure("Student not found.");
    }
    var student := db.students[dto.id];
    student := student.(firstName := dto.firstName, lastName := dto.lastName);
    student := student.(yearOfStudy := dto.yearOfStudy, address := Address(dto.street, dto.city, dto.postalCode));
    db.students := db.students[dto.id := student];
    r := Success();
  }

  /** Creating a student and then deleting it restores every table; the "S"
      counter is back at its old value (at 0 if the create had to start it). */
  lemma CreateThenDeleteRestores(s: State, dto: CreateStudentDto, newId: Guid)
    requires newId !in s.students
    requires CreateStudentStep(s, dto, newId, None).result.IsSuccess()
    ensures var t := CreateStudentStep(s, dto, newId, None);
      var d := DeleteStudentStep(t.after, newId, None);
      && d.result.IsSuccess()
      && d.after == s.(counters := s.counters[StudentPrefix := CurrentOrZero(s.counters, StudentPrefix)])
  {
    var t := CreateStudentStep(s, dto, newId, None);
    ReleaseUndoesAllocate(s.counters, StudentPrefix);
    assert t.after.students - {newId} == s.students;
  }

  /** Deleting the student holding the last-issued number and creating
      another reissues that very index, and the create cannot clash. */
  lemma DeleteLastThenCreateReissues(s: State, id: Guid, dto: CreateStudentDto, newId: Guid)
    requires Valid(s) && id in s.students && StudentPrefix in s.counters
    requires s.students[id].universityIndex == Mint(StudentPrefix, s.counters[StudentPrefix])
    requires newId !in s.students || newId == id
    ensures var d := DeleteStudentStep(s, id, None);
      var c := CreateStudentStep(d.after, dto, newId, None);
      && d.result.IsSuccess() && c.result.IsSuccess()
      && c.after.students[newId].universityIndex == s.students[id].universityIndex
      && c.after.counters == s.counters
  {
    ReleaseLastThenAllocate(s.counters, StudentPrefix);
    var d := DeleteStudentStep(s, id, None);
    var a := Allocate(d.after.counters, StudentPrefix);
    assert !IndexTaken(d.after.students, a.index) by {
      forall other | other in d.after.students ensures d.after.students[other].universityIndex != a.index {
        assert other != id && other in s.students;
      }
    }
  }

  /** Deleting a student whose number is not the counter's current value
      leaves the counter alone, so the next create issues current+1 and the
      deleted number stays a permanent gap. */
  lemma DeleteOlderKeepsCounter(s: State, id: Guid, value: int32, dto: CreateStudentDto, newId: Guid)
    requires id in s.students && StudentPrefix in s.counters
    requires s.students[id].universityIndex == Mint(StudentPrefix, value) && value != s.counters[StudentPrefix]
    requires newId !in s.students
    ensures var d := DeleteStudentStep(s, id, None);
      && d.result.IsSuccess() && d.after.counters == s.counters
      && var c := CreateStudentStep(d.after, dto, newId, None);
        c.result.IsSuccess() ==>
          c.after.students[newId].universityIndex == Mint(StudentPrefix, Increment(s.counters[StudentPrefix]))
  {
    ReleaseOfOlderIndexKeepsCounters(s.counters, StudentPrefix, value);
  }

  /** `ids` are pairwise distinct and none is already a student. */
  predicate FreshIds(students: map<Guid, Student>, ids: seq<Guid>) {
    && (forall k :: 0 <= k < |ids| ==> ids[k] !in students)
    && (forall i, j :: 0 <= i < j < |ids| ==> ids[i] != ids[j])
  }

  lemma FreshIdsTail(before: map<Guid, Student>, after: map<Guid, Student>, ids: seq<Guid>)
    requires FreshIds(before, ids) && ids != []
    requires after.Keys <= before.Keys + {ids[0]}
    ensures FreshIds(after, ids[1..])
  {
    forall k | 0 <= k < |ids[1..]| ensures ids[1..][k] !in after {
      assert ids[1..][k] == ids[k + 1];
    }
  }

  /** A run of creates, one after the other, with the given ids and no
      storage faults. */
  function CreateStudentsRun(s: State, dtos: seq<CreateStudentDto>, ids: seq<Guid>)
    : (t: Transition<seq<ValueResult<Guid>>>)
    requires |dtos| == |ids| && FreshIds(s.students, ids)
    ensures |t.result| == |dtos|
    decreases |dtos|
  {
    if dtos == [] then Transition(s, [])
    else
      var first := CreateStudentStep(s, dtos[0], ids[0], None);
      FreshIdsTail(s.students, first.after.students, ids);
      var rest := CreateStudentsRun(first.after, dtos[1..], ids[1..]);
      Transition(rest.after, [first.result] + rest.result)
  }

  /** A run is its first create followed by the run of the rest. */
  lemma RunUnfold(s: State, dtos: seq<CreateStudentDto>, ids: seq<Guid>)
    requires |dtos| == |ids| && FreshIds(s.students, ids) && dtos != []
    ensures var first := CreateStudentStep(s, dtos[0], ids[0], None);
      && FreshIds(first.after.students, ids[1..])
      && var rest := CreateStudentsRun(first.after, dtos[1..], ids[1..]);
        CreateStudentsRun(s, dtos, ids) == Transition(rest.after, [first.result] + rest.result)
  {
    FreshIdsTail(s.students, CreateStudentStep(s, dtos[0], ids[0], None).after.students, ids);
  }

  /** Every create of the run succeeds, each from the state the previous
      one leaves. */
  predicate RunSucceeds(s: State, dtos: seq<CreateStudentDto>, ids: seq<Guid>)
    requires |dtos| == |ids| && FreshIds(s.students, ids)
    decreases |dtos|
  {
    dtos == [] ||
    var first := CreateStudentStep(s, dtos[0], ids[0], None);
    FreshIdsTail(s.students, first.after.students, ids);
    first.result.IsSuccess() && RunSucceeds(first.after, dtos[1..], ids[1..])
  }

  /** A run succeeds step by step exactly when every result it reports is a
      success. */
  lemma {:induction false} RunSucceedsIff(s: State, dtos: seq<CreateStudentDto>, ids: seq<Guid>)
    requires |dtos| == |ids| && FreshIds(s.students, ids)
    ensures RunSucceeds(s, dtos, ids) <==>
      forall k :: 0 <= k < |dtos| ==> CreateStudentsRun(s, dtos, ids).result[k].IsSuccess()
    decreases |dtos|
  {
    if dtos != [] {
      RunUnfold(s, dtos, ids);
      var first := CreateStudentStep(s, dtos[0], ids[0], None);
      var results := CreateStudentsRun(s, dtos, ids).result;
      var rest := CreateStudentsRun(first.after, dtos[1..], ids[1..]).result;
      RunSucceedsIff(first.after, dtos[1..], ids[1..]);
      assert results == [first.result] + rest;
      if forall k :: 0 <= k < |dtos| ==> results[k].IsSuccess() {
        assert results[0] == first.result;
        forall k | 0 <= k < |rest| ensures rest[k].IsSuccess() {
          assert rest[k] == results[k + 1];
        }
      }
      if RunSucceeds(s, dtos, ids) {
        forall k | 0 <= k < |results| ensures results[k].IsSuccess() {
          if k > 0 { assert results[k] == rest[k - 1]; }
        }
      }
    }
  }

  /** A run whose every create succeeds advances the counters exactly as
      that many allocations in a row under "S". */
  lemma {:induction false} CreateStudentsRunCounters(s: State, dtos: seq<CreateStudentDto>, ids: seq<Guid>)
    requires |dtos| == |ids| && FreshIds(s.students, ids) && RunSucceeds(s, dtos, ids)
    ensures CreateStudentsRun(s, dtos, ids).after.counters == AllocateMany(s.counters, StudentPrefix, |dtos|).0
    decreases |dtos|
  {
    if dtos != [] {
      RunUnfold(s, dtos, ids);
      AllocateManyHead(s.counters, StudentPrefix, |dtos|);
      CreateStudentsRunCounters(CreateStudentStep(s, dtos[0], ids[0], None).after, dtos[1..], ids[1..]);
    }
  }

  /** ... and gives the k-th new student the k-th index those allocations
      issue. */
  lemma {:induction false} CreateStudentsRunIndices(s: State, dtos: seq<CreateStudentDto>, ids: seq<Guid>)
    requires |dtos| == |ids| && FreshIds(s.students, ids)
    requires RunSucceeds(s, dtos, ids)
    ensures var t := CreateStudentsRun(s, dtos, ids);
      var m := AllocateMany(s.counters, StudentPrefix, |dtos|);
      forall k :: 0 <= k < |ids| ==> ids[k] in t.after.students && t.after.students[ids[k]].universityIndex == m.1[k]
    decreases |dtos|
  {
    if dtos != [] {
      RunUnfold(s, dtos, ids);
      var t := CreateStudentsRun(s, dtos, ids);
      var first := CreateStudentStep(s, dtos[0], ids[0], None);
      var rest := CreateStudentsRun(first.after, dtos[1..], ids[1..]);
      var a := Allocate(s.counters, StudentPrefix);
      var m := AllocateMany(s.counters, StudentPrefix, |dtos|);
      var mRest := AllocateMany(a.counters, StudentPrefix, |dtos| - 1);
      AllocateManyHead(s.counters, StudentPrefix, |dtos|);
      CreateStudentsRunIndices(first.after, dtos[1..], ids[1..]);
      CreateStudentsRunKeeps(first.after, dtos[1..], ids[1..], ids[0]);
      forall k | 0 <= k < |ids|
        ensures ids[k] in t.after.students && t.after.students[ids[k]].universityIndex == m.1[k]
      {
        if k > 0 {
          assert ids[k] == ids[1..][k - 1] && m.1[k] == mRest.1[k - 1];
        }
      }
    }
  }

  /** A run of creates never removes or rewrites a student that was already
      there. */
  lemma {:induction false} CreateStudentsRunKeeps(s: State, dtos: seq<CreateStudentDto>, ids: seq<Guid>, id: Guid)
    requires |dtos| == |ids| && FreshIds(s.students, ids)
    requires id in s.students
    ensures var t := CreateStudentsRun(s, dtos, ids);
      id in t.after.students && t.after.students[id] == s.students[id]
    decreases |dtos|
  {
    if dtos != [] {
      var first := CreateStudentStep(s, dtos[0], ids[0], None);
      FreshIdsTail(s.students, first.after.students, ids);
      CreateStudentsRunKeeps(first.after, dtos[1..], ids[1..], id);
    }
  }

  /** N successful creates in a row from counter value c (below the 32-bit
      limit) issue S(c+1) ... S(c+N), in order, and leave the counter at c+N. */
  lemma CreateStudentsRunIssuesConsecutive(s: State, dtos: seq<CreateStudentDto>, ids: seq<Guid>)
    requires |dtos| == |ids| && FreshIds(s.students, ids)
    requires CurrentOrZero(s.counters, StudentPrefix) as int + |dtos| <= MaxInt32
    requires forall k :: 0 <= k < |dtos| ==> CreateStudentsRun(s, dtos, ids).result[k].IsSuccess()
    ensures var t := CreateStudentsRun(s, dtos, ids); var c := CurrentOrZero(s.counters, StudentPrefix) as int;
      && CurrentOrZero(t.after.counters, StudentPrefix) as int == c + |dtos|
      && (forall k :: 0 <= k < |ids| ==>
            ids[k] in t.after.students &&
            t.after.students[ids[k]].universityIndex == Mint(StudentPrefix, (c + k + 1) as int32))
  {
    var t := CreateStudentsRun(s, dtos, ids);
    var m := AllocateMany(s.counters, StudentPrefix, |dtos|);
    RunSucceedsIff(s, dtos, ids);
    CreateStudentsRunCounters(s, dtos, ids);
    CreateStudentsRunIndices(s, dtos, ids);
    AllocateManyIssuesConsecutive(s.counters, StudentPrefix, |dtos|);
    assert t.after.counters == m.0;
  }

  /** ... and no two of the students such a run creates share an index. */
  lemma CreateStudentsRunDistinct(s: State, dtos: seq<CreateStudentDto>, ids: seq<Guid>)
    requires |dtos| == |ids| && FreshIds(s.students, ids)
    requires CurrentOrZero(s.counters, StudentPrefix) as int + |dtos| <= MaxInt32
    requires forall k :: 0 <= k < |dtos| ==> CreateStudentsRun(s, dtos, ids).result[k].IsSuccess()
    ensures var t := CreateStudentsRun(s, dtos, ids);
      forall i, j :: 0 <= i < j < |ids| ==>
        ids[i] in t.after.students && ids[j] in t.after.students &&
        t.after.students[ids[i]].universityIndex != t.after.students[ids[j]].universityIndex
  {
    var t := CreateStudentsRun(s, dtos, ids);
    var m := AllocateMany(s.counters, StudentPrefix, |dtos|);
    RunSucceedsIff(s, dtos, ids);
    CreateStudentsRunIndices(s, dtos, ids);
    AllocateManyDistinct(s.counters, StudentPrefix, |dtos|);
    forall i, j | 0 <= i < j < |ids|
      ensures t.after.students[ids[i]].universityIndex != t.after.students[ids[j]].universityIndex
    {
      assert t.after.students[ids[i]].universityIndex == m.1[i] && t.after.students[ids[j]].universityIndex == m.1[j];
    }
  }
}
