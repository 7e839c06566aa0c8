/** MasterStudentService: master students are rows of the student table that
    carry a thesis; they draw their index from the same "S" counter as
    ordinary students. */
module MasterStudentService {
  import opened Results
  import opened Text
  import opened Decimal
  import opened Allocator
  import opened Store
  import StudentService

  datatype CreateMasterStudentDto = CreateMasterStudentDto(
    firstName: string, lastName: string, yearOfStudy: int, street: string, city: string, postalCode: string,
    thesisTopic: string, promoterId: Option<Guid>)

  datatype UpdateMasterStudentDto = UpdateMasterStudentDto(
    id: Guid, firstName: string, lastName: string, yearOfStudy: int, street: string, city: string, postalCode: string,
    thesisTopic: string, promoterId: Option<Guid>)

  const CreateError: string := "Error: "
  const DeleteError: string := "Error deleting master student: "
  const NotFound: string := "Master student not found."
  const PromoterNotFound: string := "Promoter not found."

  /** The promoter check: no promoter id, or the id of an existing professor. */
  predicate PromoterKnown(s: State, promoterId: Option<Guid>) {
    promoterId.None? || promoterId.value in s.professors
  }

  predicate IsMasterStudent(s: State, id: Guid) {
    id in s.students && s.students[id].IsMaster()
  }

  function NewMasterStudent(dto: CreateMasterStudentDto, index: string): Student {
    Student(dto.firstName, dto.lastName, index, dto.yearOfStudy, Address(dto.street, dto.city, dto.postalCode),
            Some(Thesis(dto.thesisTopic, dto.promoterId)))
  }

  /** CreateMasterStudentAsync as one atomic step. An unknown promoter makes
      the call return "Promoter not found." before anything is saved, so the
      "S" increment already made in memory is dropped with the transaction;
      exceptions (the unique index included) roll back with "Error: ...". On
      success the counter advances exactly as for an ordinary student and one
      master student is added with the minted index, the thesis topic and the
      given promoter (possibly none). */
  function CreateMasterStudentStep(s: State, dto: CreateMasterStudentDto, newId: Guid, fault: Option<string>)
    : (t: Transition<ValueResult<Guid>>)
    requires newId !in s.students
    ensures var a := Allocate(s.counters, StudentPrefix);
      && (t.result.IsSuccess() <==> PromoterKnown(s, dto.promoterId) && fault.None? && !IndexTaken(s.students, a.index))
      && (t.result.IsSuccess() ==>
            && t.result.value == newId
            && t.after == s.(counters := a.counters, students := s.students[newId := NewMasterStudent(dto, a.index)]))
    ensures t.result.IsFailure() ==> t.after == s
    ensures !PromoterKnown(s, dto.promoterId) ==> t.result == FailureOf(PromoterNotFound)
    ensures PromoterKnown(s, dto.promoterId) && t.result.IsFailure() ==> StartsWith(t.result.Error(), CreateError)
  {
    var a := Allocate(s.counters, StudentPrefix);
    if !PromoterKnown(s, dto.promoterId) then Transition(s, FailureOf(PromoterNotFound))
    else if fault.Some? then Transition(s, FailureOf(CreateError + fault.value))
    else if IndexTaken(s.students, a.index) then Transition(s, FailureOf(CreateError + DuplicateKeyViolation))
    else Transition(s.(counters := a.counters, students := s.students[newId := NewMasterStudent(dto, a.index)]), SuccessWith(newId))
  }

  /** DeleteMasterStudentAsync: only master students are found ("Master
      student not found." otherwise, nothing changes); the "S" counter is
      released under the same rule as for ordinary students. */
  function DeleteMasterStudentStep(s: State, id: Guid, fault: Option<string>): (t: Transition<Result>)
    ensures !IsMasterStudent(s, id) ==> t == Transition(s, Failure(NotFound))
    ensures t.result.IsSuccess() <==>
      IsMasterStudent(s, id) && fault.None? && (StudentPrefix in s.counters ==> |s.students[id].universityIndex| >= 1)
    ensures t.result.IsSuccess() ==>
      t.after == s.(counters := ReleaseIfLast(s.counters, StudentPrefix, s.students[id].universityIndex),
                    students := s.students - {id})
    ensures t.result.IsFailure() ==> t.after == s
  {
    if !IsMasterStudent(s, id) then Transition(s, Failure(NotFound))
    else
      var index := s.students[id].universityIndex;
      if StudentPrefix in s.counters && |index| == 0 then Transition(s, Failure(DeleteError + SubstringOutOfRange))
      else if fault.Some? then Transition(s, Failure(DeleteError + fault.value))
      else Transition(s.(counters := ReleaseIfLast(s.counters, StudentPrefix, index), students := s.students - {id}), Success())
  }

  /** UpdateMasterStudentAsync: fails with "Master student not found." or,
      when a promoter id is given that no professor has, with "Promoter not
      found." — in both cases before saving, so nothing changes. Otherwise it
      rewrites names, year, address and topic, sets the promoter to the given
      one or clears it, and keeps the index. */
  function UpdateMasterStudentStep(s: State, dto: UpdateMasterStudentDto): (t: Transition<Result>)
    ensures !IsMasterStudent(s, dto.id) ==> t == Transition(s, Failure(NotFound))
    ensures IsMasterStudent(s, dto.id) && !PromoterKnown(s, dto.promoterId) ==>
      t == Transition(s, Failure(PromoterNotFound))
    ensures t.result.IsSuccess() <==> IsMasterStudent(s, dto.id) && PromoterKnown(s, dto.promoterId)
    ensures t.result.IsSuccess() ==>
      && t.after.students.Keys == s.students.Keys
      && (forall id :: id in s.students && id != dto.id ==> t.after.students[id] == s.students[id])
      && t.after == s.(students := t.after.students)
      && var new_ := t.after.students[dto.id];
        && new_.universityIndex == s.students[dto.id].universityIndex
        && new_.firstName == dto.firstName && new_.lastName == dto.lastName && new_.yearOfStudy == dto.yearOfStudy
        && new_.address == Address(dto.street, dto.city, dto.postalCode)
        && new_.thesis == Some(Thesis(dto.thesisTopic, dto.promoterId))
  {
    if !IsMasterStudent(s, dto.id) then Transition(s, Failure(NotFound))
    else if !PromoterKnown(s, dto.promoterId) then Transition(s, Failure(PromoterNotFound))
    else
      var st := s.students[dto.id];
      var st' := st.(firstName := dto.firstName, lastName := dto.lastName, yearOfStudy := dto.yearOfStudy,
                     address := Address(dto.street, dto.city, dto.postalCode),
                     thesis := Some(Thesis(dto.thesisTopic, dto.promoterId)));
      Transition(s.(students := s.students[dto.id := st']), Success())
  }

  lemma CreateMasterStudentKeepsValid(s: State, dto: CreateMasterStudentDto, newId: Guid, fault: Option<string>)
    requires newId !in s.students && Valid(s)
    ensures Valid(CreateMasterStudentStep(s, dto, newId, fault).after)
  {
    var t := CreateMasterStudentStep(s, dto, newId, fault);
    if t.result.IsSuccess() {
      forall x, y | x in t.after.students && y in t.after.students && x != y
        ensures t.after.students[x].universityIndex != t.after.students[y].universityIndex
      {
        if x == newId { assert y in s.students; }
        else if y == newId { assert x in s.students; }
      }
    }
  }

  lemma UpdateMasterStudentKeepsValid(s: State, dto: UpdateMasterStudentDto)
    requires Valid(s)
    ensures Valid(UpdateMasterStudentStep(s, dto).after)
  {
    var t := UpdateMasterStudentStep(s, dto);
    if t.result.IsSuccess() {
      forall x, y | x in t.after.students && y in t.after.students && x != y
        ensures t.after.students[x].universityIndex != t.after.students[y].universityIndex
      {
        assert t.after.students[x].universityIndex == s.students[x].universityIndex;
        assert t.after.students[y].universityIndex == s.students[y].universityIndex;
      }
    }
  }

  /** A master-student delete removes one row and at most steps a counter
      back, so it keeps the storage rules. */
  lemma DeleteMasterStudentKeepsValid(s: State, id: Guid, fault: Option<string>)
    requires Valid(s)
    ensures Valid(DeleteMasterStudentStep(s, id, fault).after)
  {
  }

  method CreateMasterStudent(db: Database, dto: CreateMasterStudentDto, newId: Guid, fault: Option<string>)
    returns (r: ValueResult<Guid>)
    requires newId !in db.students
    modifies db
    ensures var t := CreateMasterStudentStep(old(db.Snapshot()), dto, newId, fault);
      db.Snapshot() == t.after && r == t.result
  {
    // Inside the transaction: nothing below is written to `db` unless it commits.
    var counter: int32 := 0;
    if StudentPrefix in db.counters {
      counter := db.counters[StudentPrefix];
    }
    counter := Increment(counter);
    var newIndex := Mint(StudentPrefix, counter);
    if dto.promoterId.Some? && dto.promoterId.value !in db.professors {
      return FailureOf(PromoterNotFound);
    }
    var student := NewMasterStudent(dto, newIndex);
    if fault.Some? {
      return FailureOf(CreateError + fault.value);
    }
    if IndexTaken(db.students, newIndex) {
      return FailureOf(CreateError + DuplicateKeyViolation);
    }
    db.counters := db.counters[StudentPrefix := counter];
    db.students := db.students[newId := student];
    r := SuccessWith(newId);
  }

  method DeleteMasterStudent(db: Database, id: Guid, fault: Option<string>) returns (r: Result)
    modifies db
    ensures var t := DeleteMasterStudentStep(old(db.Snapshot()), id, fault);
      db.Snapshot() == t.after && r == t.result
  {
    if id !in db.students || db.students[id].thesis.None? {
      return Failure(NotFound);
    }
    var student := db.students[id];
    var counters := db.counters;
    if StudentPrefix in counters {
      if |student.universityIndex| == 0 {
        return Failure(DeleteError + SubstringOutOfRange);
      }
      var number := IndexNumber(student.universityIndex);
      if number.Some? && counters[StudentPrefix] == number.value {
        counters := counters[StudentPrefix := Decrement(counters[StudentPrefix])];
      }
    }
    if fault.Some? {
      return Failure(DeleteError + fault.value);
    }
    db.counters := counters;
    db.students := db.students - {id};
    r := Success();
  }

  method UpdateMasterStudent(db: Database, dto: UpdateMasterStudentDto) returns (r: Result)
    modifies db
    ensures var t := UpdateMasterStudentStep(old(db.Snapshot()), dto);
      db.Snapshot() == t.after && r == t.result
  {
    if dto.id !in db.students || db.students[dto.id].thesis.None? {
      return Failure(NotFound);
    }
    // The tracked entity is edited in memory; only SaveChanges writes it.
    var student := db.students[dto.id];
    student := student.(firstName := dto.firstName, lastName := dto.lastName, yearOfStudy := dto.yearOfStudy);
    student := student.(address := Address(dto.street, dto.city, dto.postalCode));
    var topic := dto.thesisTopic;
    var promoter: Option<Guid>;
    if dto.promoterId.Some? {
      if dto.promoterId.value !in db.professors {
        return Failure(PromoterNotFound);
      }
      promoter := dto.promoterId;
    } else {
      promoter := None;
    }
    student := student.(thesis := Some(Thesis(topic, promoter)));
    db.students := db.students[dto.id := student];
    r := Success();
  }

  /** Ordinary and master students share one counter: a student created
      right after a master student (or the other way round) gets the next
      number of the same "S" sequence. */
  lemma SharedCounter(s: State, mdto: CreateMasterStudentDto, mId: Guid, sdto: StudentService.CreateStudentDto, sId: Guid)
    requires mId !in s.students && sId !in s.students && mId != sId
    requires CurrentOrZero(s.counters, StudentPrefix) as int + 2 <= MaxInt32
    requires CreateMasterStudentStep(s, mdto, mId, None).result.IsSuccess()
    ensures var m := CreateMasterStudentStep(s, mdto, mId, None);
      var t := StudentService.CreateStudentStep(m.after, sdto, sId, None);
      var c := CurrentOrZero(s.counters, StudentPrefix) as int;
      && m.after.students[mId].universityIndex == Mint(StudentPrefix, (c + 1) as int32)
      && (t.result.IsSuccess() ==>
            && t.after.students[sId].universityIndex == Mint(StudentPrefix, (c + 2) as int32)
            && t.after.counters[StudentPrefix] as int == c + 2)
  {
  }

  /** The failed promoter check leaves every counter as it was: the number
      minted in memory is not consumed. */
  lemma UnknownPromoterConsumesNoNumber(s: State, dto: CreateMasterStudentDto, newId: Guid,
                                        sdto: StudentService.CreateStudentDto, sId: Guid)
    requires newId !in s.students && sId !in s.students
    requires dto.promoterId.Some? && dto.promoterId.value !in s.professors
    ensures var m := CreateMasterStudentStep(s, dto, newId, None);
      var t := StudentService.CreateStudentStep(m.after, sdto, sId, None);
      && m.after.counters == s.counters
      && (t.result.IsSuccess() ==>
            t.after.students[sId].universityIndex == Mint(StudentPrefix, Increment(CurrentOrZero(s.counters, StudentPrefix))))
  {
  }

  /** A master student can also be removed through the ordinary student
      delete (same table), but an ordinary student is never found by the
      master student delete. */
  lemma DeleteScopes(s: State, id: Guid)
    requires id in s.students && !s.students[id].IsMaster()
    ensures DeleteMasterStudentStep(s, id, None) == Transition(s, Failure(NotFound))
  {
  }
}
