/** OfficeService: offices identified by (building, room) and the professor
    who occupies each of them. */
module OfficeService {
  import opened Results
  import opened Store

  datatype CreateOfficeDto = CreateOfficeDto(building: string, roomNumber: string)

  datatype UpdateOfficeDto = UpdateOfficeDto(id: Guid, building: string, roomNumber: string)

  const OfficeNotFound: string := "Office not found."

  function OfficeExists(building: string, roomNumber: string): string {
    "Office " + building + " " + roomNumber + " already exists."
  }

  function OccupiedBy(lastName: string): string {
    "Office is already occupied by " + lastName + "."
  }

  /** Some office already has this building and room number. */
  predicate LocationTaken(offices: map<Guid, Office>, building: string, roomNumber: string) {
    exists o :: o in offices && offices[o].building == building && offices[o].roomNumber == roomNumber
  }

  /** The professor loaded through the office's navigation, when it
      references one that exists. */
  function Occupant(s: State, officeId: Guid): Option<Guid>
    requires officeId in s.offices
  {
    var p := s.offices[officeId].professorId;
    if p.Some? && p.value in s.professors then p else None
  }

  /** CreateOfficeAsync: fails when (building, room) is already an office;
      otherwise adds exactly one unoccupied office under the new id. */
  function CreateOfficeStep(s: State, dto: CreateOfficeDto, newId: Guid): (t: Transition<ValueResult<Guid>>)
    requires newId !in s.offices
    ensures LocationTaken(s.offices, dto.building, dto.roomNumber) ==>
      t == Transition(s, FailureOf(OfficeExists(dto.building, dto.roomNumber)))
    ensures t.result.IsSuccess() <==> !LocationTaken(s.offices, dto.building, dto.roomNumber)
    ensures t.result.IsSuccess() ==>
      && t.result.value == newId
      && t.after == s.(offices := s.offices[newId := Office(dto.building, dto.roomNumber, None)])
  {
    if LocationTaken(s.offices, dto.building, dto.roomNumber) then
      Transition(s, FailureOf(OfficeExists(dto.building, dto.roomNumber)))
    else Transition(s.(offices := s.offices[newId := Office(dto.building, dto.roomNumber, None)]), SuccessWith(newId))
  }

  /** UpdateOfficeAsync: "Office not found." on an unknown id; otherwise only
      that office's building and room change, without checking that the new
      pair is free. */
  function UpdateOfficeStep(s: State, dto: UpdateOfficeDto): (t: Transition<Result>)
    ensures dto.id !in s.offices ==> t == Transition(s, Failure(OfficeNotFound))
    ensures t.result.IsSuccess() <==> dto.id in s.offices
    ensures t.result.IsSuccess() ==>
      t.after == s.(offices := s.offices[dto.id := s.offices[dto.id].(building := dto.building, roomNumber := dto.roomNumber)])
  {
    if dto.id !in s.offices then Transition(s, Failure(OfficeNotFound))
    else
      var o := s.offices[dto.id];
      Transition(s.(offices := s.offices[dto.id := o.(building := dto.building, roomNumber := dto.roomNumber)]), Success())
  }

  /** DeleteOfficeAsync: "Office not found." on an unknown id; otherwise only
      that office is removed. */
  function DeleteOfficeStep(s: State, id: Guid): (t: Transition<Result>)
    ensures id !in s.offices ==> t == Transition(s, Failure(OfficeNotFound))
    ensures t.result.IsSuccess() <==> id in s.offices
    ensures t.result.IsSuccess() ==> t.after == s.(offices := s.offices - {id})
  {
    if id !in s.offices then Transition(s, Failure(OfficeNotFound))
    else Transition(s.(offices := s.offices - {id}), Success())
  }

  /** The offices other than `officeId` that `professorId` holds, vacated.
      With one office per professor this is at most one office, the one the
      source looks up with `FirstOrDefault`. */
  function Vacated(offices: map<Guid, Office>, professorId: Guid, officeId: Guid): (r: map<Guid, Office>)
    ensures r.Keys == offices.Keys
    ensures forall o :: o in r ==>
      r[o] == if o != officeId && offices[o].professorId == Some(professorId) then offices[o].(professorId := None) else offices[o]
  {
    map o | o in offices ::
      if o != officeId && offices[o].professorId == Some(professorId) then offices[o].(professorId := None) else offices[o]
  }

  /** AssignProfessorToOfficeAsync: "Office not found.", then an office
      whose (existing) occupant is a different professor is refused, naming
      that occupant's last name. Otherwise the professor's other office is
      vacated and the target office gets the professor. There is no
      try/catch: a professor id with no professor row breaks the foreign key
      and the save raises, leaving everything as it was. */
  function AssignStep(s: State, officeId: Guid, professorId: Guid): (t: Transition<Response<Result>>)
    ensures officeId !in s.offices ==> t == Transition(s, Returned(Failure(OfficeNotFound)))
    ensures officeId in s.offices && Occupant(s, officeId).Some? && Occupant(s, officeId) != Some(professorId) ==>
      t == Transition(s, Returned(Failure(OccupiedBy(s.professors[Occupant(s, officeId).value].lastName))))
    ensures officeId in s.offices && Occupant(s, officeId) in {None, Some(professorId)} && professorId !in s.professors ==>
      t == Transition(s, Raised(ForeignKeyViolation))
    ensures t.result == Returned(Success()) <==>
      officeId in s.offices && Occupant(s, officeId) in {None, Some(professorId)} && professorId in s.professors
    ensures t.result == Returned(Success()) ==>
      t.after == s.(offices := Vacated(s.offices, professorId, officeId)[officeId := s.offices[officeId].(professorId := Some(professorId))])
  {
    if officeId !in s.offices then Transition(s, Returned(Failure(OfficeNotFound)))
    else
      var occupant := Occupant(s, officeId);
      if occupant.Some? && occupant.value != professorId then
        Transition(s, Returned(Failure(OccupiedBy(s.professors[occupant.value].lastName))))
      else if professorId !in s.professors then Transition(s, Raised(ForeignKeyViolation))
      else
        var offices := Vacated(s.offices, professorId, officeId);
        Transition(s.(offices := offices[officeId := s.offices[officeId].(professorId := Some(professorId))]), Returned(Success()))
  }

  /** After a successful assignment the professor holds exactly the target
      office; every other office keeps its building, room and occupant,
      unless that occupant was this professor. */
  lemma AssignLeavesOneHolder(s: State, officeId: Guid, professorId: Guid)
    requires AssignStep(s, officeId, professorId).result == Returned(Success())
    ensures var after := AssignStep(s, officeId, professorId).after.offices;
      && after.Keys == s.offices.Keys
      && (forall o :: o in after ==> (after[o].professorId == Some(professorId) <==> o == officeId))
      && (forall o :: o in after ==>
            after[o].building == s.offices[o].building && after[o].roomNumber == s.offices[o].roomNumber)
      && (forall o :: o in after && o != officeId && s.offices[o].professorId != Some(professorId) ==>
            after[o] == s.offices[o])
      && (forall o :: o in after && o != officeId && s.offices[o].professorId == Some(professorId) ==>
            after[o] == s.offices[o].(professorId := None))
  {
    var v := Vacated(s.offices, professorId, officeId);
    var after := AssignStep(s, officeId, professorId).after.offices;
    assert after == v[officeId := s.offices[officeId].(professorId := Some(professorId))];
    forall o | o in after ensures after[o].professorId == Some(professorId) <==> o == officeId {
      if o != officeId {
        assert after[o] == v[o];
      }
    }
  }

  /** Assigning keeps every professor in at most one office. */
  lemma AssignKeepsValid(s: State, officeId: Guid, professorId: Guid)
    requires Valid(s)
    ensures Valid(AssignStep(s, officeId, professorId).after)
  {
    var t := AssignStep(s, officeId, professorId);
    if t.result == Returned(Success()) {
      AssignLeavesOneHolder(s, officeId, professorId);
      var after := t.after.offices;
      forall a, b | a in after && b in after && a != b && after[a].professorId.Some?
        ensures after[a].professorId != after[b].professorId
      {
        if a != officeId && b != officeId {
          assert after[a].professorId in {s.offices[a].professorId, None};
          assert after[b].professorId in {s.offices[b].professorId, None};
        }
      }
    }
  }

  /** With one office per professor, an assignment changes at most one
      office besides the target, as the source's single lookup does. */
  lemma AssignVacatesAtMostOne(s: State, officeId: Guid, professorId: Guid, a: Guid, b: Guid)
    requires OneOfficePerProfessor(s.offices)
    requires AssignStep(s, officeId, professorId).result == Returned(Success())
    requires a in s.offices && b in s.offices && a != officeId && b != officeId
    requires AssignStep(s, officeId, professorId).after.offices[a] != s.offices[a]
    requires AssignStep(s, officeId, professorId).after.offices[b] != s.offices[b]
    ensures a == b
  {
    AssignLeavesOneHolder(s, officeId, professorId);
  }

  /** Reassigning a professor to the office they already occupy succeeds
      and changes nothing. */
  lemma ReassignSameOfficeUnchanged(s: State, officeId: Guid, professorId: Guid)
    requires OneOfficePerProfessor(s.offices)
    requires officeId in s.offices && s.offices[officeId].professorId == Some(professorId) && professorId in s.professors
    ensures AssignStep(s, officeId, professorId) == Transition(s, Returned(Success()))
  {
    var v := Vacated(s.offices, professorId, officeId);
    forall o | o in v ensures v[o] == s.offices[o] {
      if o != officeId {
        assert s.offices[o].professorId != s.offices[officeId].professorId;
      }
    }
    assert v == s.offices;
    assert s.offices[officeId].(professorId := Some(professorId)) == s.offices[officeId];
    assert v[officeId := s.offices[officeId]] == s.offices;
  }

  /** A new office is unoccupied, so one office per professor is kept. */
  lemma CreateOfficeKeepsValid(s: State, dto: CreateOfficeDto, newId: Guid)
    requires Valid(s) && newId !in s.offices
    ensures Valid(CreateOfficeStep(s, dto, newId).after)
  {
    var t := CreateOfficeStep(s, dto, newId);
    if t.result.IsSuccess() {
      var after := t.after.offices;
      forall a, b | a in after && b in after && a != b && after[a].professorId.Some?
        ensures after[a].professorId != after[b].professorId
      {
        assert a != newId;
      }
    }
  }

  /** Updating and deleting offices never changes an occupant, so one
      office per professor is kept. */
  lemma UpdateOfficeKeepsValid(s: State, dto: UpdateOfficeDto)
    requires Valid(s)
    ensures Valid(UpdateOfficeStep(s, dto).after)
  {
    var t := UpdateOfficeStep(s, dto);
    if t.result.IsSuccess() {
      var after := t.after.offices;
      forall a, b | a in after && b in after && a != b && after[a].professorId.Some?
        ensures after[a].professorId != after[b].professorId
      {
        assert after[a].professorId == s.offices[a].professorId && after[b].professorId == s.offices[b].professorId;
      }
    }
  }

  lemma DeleteOfficeKeepsValid(s: State, id: Guid)
    requires Valid(s)
    ensures Valid(DeleteOfficeStep(s, id).after)
  {
  }

  /** Create refuses a taken (building, room), but update does not check it:
      moving one office onto another's location succeeds, after which two
      offices share it. */
  lemma UpdateCanDuplicateLocation(s: State, a: Guid, b: Guid)
    requires a in s.offices && b in s.offices && a != b
    ensures var t := UpdateOfficeStep(s, UpdateOfficeDto(a, s.offices[b].building, s.offices[b].roomNumber));
      && t.result == Success()
      && t.after.offices[a].building == t.after.offices[b].building
      && t.after.offices[a].roomNumber == t.after.offices[b].roomNumber
  {
  }

  method CreateOffice(db: Database, dto: CreateOfficeDto, newId: Guid) returns (r: ValueResult<Guid>)
    requires newId !in db.offices
    modifies db
    ensures var t := CreateOfficeStep(old(db.Snapshot()), dto, newId);
      db.Snapshot() == t.after && r == t.result
  {
    var exists_ := LocationTaken(db.offices, dto.building, dto.roomNumber);
    if exists_ {
      return FailureOf(OfficeExists(dto.building, dto.roomNumber));
    }
    var office := Office(dto.building, dto.roomNumber, None);
    db.offices := db.offices[newId := office];
    r := SuccessWith(newId);
  }

  method UpdateOffice(db: Database, dto: UpdateOfficeDto) returns (r: Result)
    modifies db
    ensures var t := UpdateOfficeStep(old(db.Snapshot()), dto);
      db.Snapshot() == t.after && r == t.result
  {
    if dto.id !in db.offices {
      return Failure(OfficeNotFound);
    }
    var office := db.offices[dto.id];
    office := office.(building := dto.building);
    office := office.(roomNumber := dto.roomNumber);
    db.offices := db.offices[dto.id := office];
    r := Success();
  }

  method DeleteOffice(db: Database, id: Guid) returns (r: Result)
    modifies db
    ensures var t := DeleteOfficeStep(old(db.Snapshot()), id);
      db.Snapshot() == t.after && r == t.result
  {
    if id !in db.offices {
      return Failure(OfficeNotFound);
    }
    db.offices := db.offices - {id};
    r := Success();
  }

  method AssignProfessorToOffice(db: Database, officeId: Guid, professorId: Guid) returns (r: Response<Result>)
    modifies db
    ensures var t := AssignStep(old(db.Snapshot()), officeId, professorId);
      db.Snapshot() == t.after && r == t.result
  {
    if officeId !in db.offices {
      return Returned(Failure(OfficeNotFound));
    }
    var office := db.offices[officeId];
    var occupant := office.professorId;
    if occupant.Some? && occupant.value in db.professors && occupant.value != professorId {
      return Returned(Failure(OccupiedBy(db.professors[occupant.value].lastName)));
    }
    var offices := Vacated(db.offices, professorId, officeId);
    offices := offices[officeId := office.(professorId := Some(professorId))];
    // SaveChanges: Office.ProfessorId is a foreign key to the professors.
    if professorId !in db.professors {
      return Raised(ForeignKeyViolation);
    }
    db.offices := offices;
    r := Returned(Success());
  }
}
