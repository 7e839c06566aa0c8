/** ProfessorService: create (allocating the "P" counter inside a
    transaction), delete (release-if-last), update. */
module ProfessorService {
  import opened Results
  import opened Text
  import opened Decimal
  import opened Allocator
  import opened Store

  datatype CreateProfessorDto = CreateProfessorDto(
    firstName: string, lastName: string, street: string, city: string, postalCode: string, title: AcademicTitle)

  datatype UpdateProfessorDto = UpdateProfessorDto(
    id: Guid, firstName: string, lastName: string, title: AcademicTitle, street: string, city: string, postalCode: string)

  const CreateError: string := "Error creating professor: "
  const DeleteError: string := "Error deleting professor: "
  const NotFound: string := "Professor not found."

  /** The row a create inserts. */
  function NewProfessor(dto: CreateProfessorDto, index: string): Professor {
    Professor(dto.firstName, dto.lastName, index, dto.title, Address(dto.street, dto.city, dto.postalCode))
  }

  /** CreateProfessorAsync as one atomic step: on success the "P" counter
      (created at 0 if missing) advances by one and exactly one professor
      with index "P" + the new value is added; any exception, including the
      unique index on UniversityIndex, rolls everything back. */
  function CreateProfessorStep(s: State, dto: CreateProfessorDto, newId: Guid, fault: Option<string>)
    : (t: Transition<ValueResult<Guid>>)
    requires newId !in s.professors
    ensures var a := Allocate(s.counters, ProfessorPrefix);
      && (t.result.IsSuccess() <==> fault.None? && !ProfessorIndexTaken(s.professors, a.index))
      && (t.result.IsSuccess() ==>
            && t.result.value == newId
            && t.after == s.(counters := a.counters, professors := s.professors[newId := NewProfessor(dto, a.index)]))
    ensures t.result.IsFailure() ==> t.after == s && StartsWith(t.result.Error(), CreateError)
  {
    var a := Allocate(s.counters, ProfessorPrefix);
    if fault.Some? then Transition(s, FailureOf(CreateError + fault.value))
    else if ProfessorIndexTaken(s.professors, a.index) then Transition(s, FailureOf(CreateError + DuplicateKeyViolation))
    else Transition(s.(counters := a.counters, professors := s.professors[newId := NewProfessor(dto, a.index)]), SuccessWith(newId))
  }

  /** DeleteProfessorAsync as one atomic step: an unknown id fails with
      "Professor not found."; otherwise the professor is removed and "P" is
      released if the index's number is its current value. The exceptions of
      `"".Substring(1)` and of the storage roll back. */
  function DeleteProfessorStep(s: State, id: Guid, fault: Option<string>): (t: Transition<Result>)
    ensures id !in s.professors ==> t == Transition(s, Failure(NotFound))
    ensures t.result.IsSuccess() <==>
      id in s.professors && fault.None? && (ProfessorPrefix in s.counters ==> |s.professors[id].universityIndex| >= 1)
    ensures t.result.IsSuccess() ==>
      t.after == s.(counters := ReleaseIfLast(s.counters, ProfessorPrefix, s.professors[id].universityIndex),
                    professors := s.professors - {id})
    ensures t.result.IsFailure() ==> t.after == s
  {
    if id !in s.professors then Transition(s, Failure(NotFound))
    else
      var index := s.professors[id].universityIndex;
      if ProfessorPrefix in s.counters && |index| == 0 then Transition(s, Failure(DeleteError + SubstringOutOfRange))
      else if fault.Some? then Transition(s, Failure(DeleteError + fault.value))
      else Transition(s.(counters := ReleaseIfLast(s.counters, ProfessorPrefix, index), professors := s.professors - {id}), Success())
  }

  /** UpdateProfessorAsync: rewrites names, title and address; the
      UniversityIndex is kept and no other row changes. */
  function UpdateProfessorStep(s: State, dto: UpdateProfessorDto): (t: Transition<Result>)
    ensures dto.id !in s.professors ==> t == Transition(s, Failure(NotFound))
    ensures dto.id in s.professors ==>
      && t.result == Success()
      && t.after.professors.Keys == s.professors.Keys
      && (forall id :: id in s.professors && id != dto.id ==> t.after.professors[id] == s.professors[id])
      && t.after == s.(professors := t.after.professors)
      && var new_ := t.after.professors[dto.id];
        && new_.universityIndex == s.professors[dto.id].universityIndex
        && new_.firstName == dto.firstName && new_.lastName == dto.lastName && new_.title == dto.title
        && new_.address == Address(dto.street, dto.city, dto.postalCode)
  {
    if dto.id !in s.professors then Transition(s, Failure(NotFound))
    else
      var p := s.professors[dto.id];
      var p' := p.(firstName := dto.firstName, lastName := dto.lastName, title := dto.title,
                   address := Address(dto.street, dto.city, dto.postalCode));
      Transition(s.(professors := s.professors[dto.id := p']), Success())
  }

  /** A create never leaves two professors with one UniversityIndex. */
  lemma CreateProfessorKeepsValid(s: State, dto: CreateProfessorDto, newId: Guid, fault: Option<string>)
    requires newId !in s.professors && Valid(s)
    ensures Valid(CreateProfessorStep(s, dto, newId, fault).after)
  {
    var t := CreateProfessorStep(s, dto, newId, fault);
    if t.result.IsSuccess() {
      forall x, y | x in t.after.professors && y in t.after.professors && x != y
        ensures t.after.professors[x].universityIndex != t.after.professors[y].universityIndex
      {
        if x == newId { assert y in s.professors; }
        else if y == newId { assert x in s.professors; }
      }
    }
  }

  lemma DeleteProfessorKeepsValid(s: State, id: Guid, fault: Option<string>)
    requires Valid(s)
    ensures Valid(DeleteProfessorStep(s, id, fault).after)
  {
  }

  lemma UpdateProfessorKeepsValid(s: State, dto: UpdateProfessorDto)
    requires Valid(s)
    ensures Valid(UpdateProfessorStep(s, dto).after)
  {
    var t := UpdateProfessorStep(s, dto);
    if dto.id in s.professors {
      forall x, y | x in t.after.professors && y in t.after.professors && x != y
        ensures t.after.professors[x].universityIndex != t.after.professors[y].universityIndex
      {
        assert t.after.professors[x].universityIndex == s.professors[x].universityIndex;
        assert t.after.professors[y].universityIndex == s.professors[y].universityIndex;
      }
    }
  }

  method CreateProfessor(db: Database, dto: CreateProfessorDto, newId: Guid, fault: Option<string>)
    returns (r: ValueResult<Guid>)
    requires newId !in db.professors
    modifies db
    ensures var t := CreateProfessorStep(old(db.Snapshot()), dto, newId, fault);
      db.Snapshot() == t.after && r == t.result
  {
    // Inside the transaction: nothing below is written to `db` unless it commits.
    var counter: int32 := 0;
    if ProfessorPrefix in db.counters {
      counter := db.counters[ProfessorPrefix];
    }
    counter := Increment(counter);
    var newIndex := Mint(ProfessorPrefix, counter);
    var professor := Professor(dto.firstName, dto.lastName, newIndex, dto.title,
                               Address(dto.street, dto.city, dto.postalCode));
    if fault.Some? {
      return FailureOf(CreateError + fault.value);
    }
    if ProfessorIndexTaken(db.professors, newIndex) {
      return FailureOf(CreateError + DuplicateKeyViolation);
    }
    db.counters := db.counters[ProfessorPrefix := counter];
    db.professors := db.professors[newId := professor];
    r := SuccessWith(newId);
  }

  method DeleteProfessor(db: Database, id: Guid, fault: Option<string>) returns (r: Result)
    modifies db
    ensures var t := DeleteProfessorStep(old(db.Snapshot()), id, fault);
      db.Snapshot() == t.after && r == t.result
  {
    if id !in db.professors {
      return Failure(NotFound);
    }
    var professor := db.professors[id];
    var counters := db.counters;
    if ProfessorPrefix in counters {
      if |professor.universityIndex| == 0 {
        return Failure(DeleteError + SubstringOutOfRange);
      }
      var number := IndexNumber(professor.universityIndex);
      if number.Some? && counters[ProfessorPrefix] == number.value {
        counters := counters[ProfessorPrefix := Decrement(counters[ProfessorPrefix])];
      }
    }
    if fault.Some? {
      return Failure(DeleteError + fault.value);
    }
    db.counters := counters;
    db.professors := db.professors - {id};
    r := Success();
  }

  method UpdateProfessor(db: Database, dto: UpdateProfessorDto) returns (r: Result)
    modifies db
    ensures var t := UpdateProfessorStep(old(db.Snapshot()), dto);
      db.Snapshot() == t.after && r == t.result
  {
    if dto.id !in db.professors {
      return Failure(NotFound);
    }
    var professor := db.professors[dto.id];
    professor := professor.(firstName := dto.firstName, lastName := dto.lastName, title := dto.title);
    professor := professor.(address := Address(dto.street, dto.city, dto.postalCode));
    db.professors := db.professors[dto.id := professor];
    r := Success();
  }

  /** Creating a professor and deleting it again restores every table; the
      "P" counter is back at its old value (0 if the create started it). */
  lemma CreateThenDeleteRestores(s: State, dto: CreateProfessorDto, newId: Guid)
    requires newId !in s.professors
    requires CreateProfessorStep(s, dto, newId, None).result.IsSuccess()
    ensures var t := CreateProfessorStep(s, dto, newId, None);
      var d := DeleteProfessorStep(t.after, newId, None);
      && d.result.IsSuccess()
      && d.after == s.(counters := s.counters[ProfessorPrefix := CurrentOrZero(s.counters, ProfessorPrefix)])
  {
    var t := CreateProfessorStep(s, dto, newId, None);
    ReleaseUndoesAllocate(s.counters, ProfessorPrefix);
    assert t.after.professors - {newId} == s.professors;
  }

  /** Deleting the most recently created professor and creating another
      reissues the same index, and the create cannot clash. */
  lemma DeleteLastThenCreateReissues(s: State, id: Guid, dto: CreateProfessorDto, newId: Guid)
    requires Valid(s) && id in s.professors && ProfessorPrefix in s.counters
    requires s.professors[id].universityIndex == Mint(ProfessorPrefix, s.counters[ProfessorPrefix])
    requires newId !in s.professors || newId == id
    ensures var d := DeleteProfessorStep(s, id, None);
      var c := CreateProfessorStep(d.after, dto, newId, None);
      && d.result.IsSuccess() && c.result.IsSuccess()
      && c.after.professors[newId].universityIndex == s.professors[id].universityIndex
      && c.after.counters == s.counters
  {
    ReleaseLastThenAllocate(s.counters, ProfessorPrefix);
    var d := DeleteProfessorStep(s, id, None);
    var a := Allocate(d.after.counters, ProfessorPrefix);
    assert !ProfessorIndexTaken(d.after.professors, a.index) by {
      forall other | other in d.after.professors ensures d.after.professors[other].universityIndex != a.index {
        assert other != id && other in s.professors;
      }
    }
  }

  /** Deleting a professor that is not the last one issued leaves the counter
      alone: the next create issues current+1, never the deleted number. */
  lemma DeleteOlderKeepsCounter(s: State, id: Guid, value: int32, dto: CreateProfessorDto, newId: Guid)
    requires id in s.professors && ProfessorPrefix in s.counters
    requires s.professors[id].universityIndex == Mint(ProfessorPrefix, value) && value != s.counters[ProfessorPrefix]
    requires newId !in s.professors
    ensures var d := DeleteProfessorStep(s, id, None);
      && d.result.IsSuccess() && d.after.counters == s.counters
      && var c := CreateProfessorStep(d.after, dto, newId, None);
        c.result.IsSuccess() ==>
          c.after.professors[newId].universityIndex == Mint(ProfessorPrefix, Increment(s.counters[ProfessorPrefix]))
  {
    ReleaseOfOlderIndexKeepsCounters(s.counters, ProfessorPrefix, value);
  }
}
