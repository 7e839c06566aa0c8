/** The relational state the services work on: one table per entity, keyed
    by id, and the sequence-counter table keyed by prefix. The key and
    uniqueness rules of the mapping layer become the invariant `Valid`. */
module Store {
  import opened Results
  import opened Decimal
  import opened Allocator

  /** Entity ids (`Guid`); only equality matters. */
  type Guid = nat

  /** Stands for `Guid.ToString()` in error messages. */
  function GuidText(id: Guid): string {
    NatDigits(id)
  }

  datatype Address = Address(street: string, city: string, postalCode: string)

  /** AcademicTitle; the enum member names are what `ToString()` prints. */
  datatype AcademicTitle = Untitled | Master | Doctor | HabilitatedDoctor | FullProfessor

  function TitleName(t: AcademicTitle): string {
    match t
    case Untitled => "None"
    case Master => "Master"
    case Doctor => "Doctor"
    case HabilitatedDoctor => "HabilitatedDoctor"
    case FullProfessor => "Professor"
  }

  /** The printed title tells the enum members apart. */
  lemma TitleNameInjective(a: AcademicTitle, b: AcademicTitle)
    requires TitleName(a) == TitleName(b)
    ensures a == b
  {
  }

  /** What a MasterStudent adds to a Student: a thesis topic and an optional
      promoter (a professor). */
  datatype Thesis = Thesis(topic: string, promoterId: Option<Guid>)

  /** A row of the student table; master students live in the same table and
      carry a thesis. */
  datatype Student = Student(
    firstName: string,
    lastName: string,
    universityIndex: string,
    yearOfStudy: int,
    address: Address,
    thesis: Option<Thesis>)
  {
    predicate IsMaster() { thesis.Some? }
  }

  datatype Professor = Professor(
    firstName: string,
    lastName: string,
    universityIndex: string,
    title: AcademicTitle,
    address: Address)

  datatype Course = Course(
    name: string,
    code: string,
    ects: int,
    departmentId: Guid,
    lecturerId: Guid,
    prerequisites: set<Guid>)

  /** `grade` is `None` until the enrollment is graded. */
  datatype Enrollment = Enrollment(studentId: Guid, courseId: Guid, semester: string, grade: Option<real>)

  datatype Department = Department(name: string)

  datatype Office = Office(building: string, roomNumber: string, professorId: Option<Guid>)

  datatype State = State(
    counters: Counters,
    students: map<Guid, Student>,
    professors: map<Guid, Professor>,
    courses: map<Guid, Course>,
    enrollments: map<Guid, Enrollment>,
    departments: map<Guid, Department>,
    offices: map<Guid, Office>)

  /** One service call: the state it leaves behind and what it returns. */
  datatype Transition<+R> = Transition(after: State, result: R)

  /** What a service without a try/catch hands its caller: the result it
      returns, or the exception that `SaveChanges` raised (the state is then
      unchanged, since the save is rejected as a whole). */
  datatype Response<+R> = Returned(value: R) | Raised(exception: string)

  /** Text standing for the storage engine's exception messages, whose wording
      the model does not fix. */
  const DuplicateKeyViolation: string := "duplicate key"
  const ForeignKeyViolation: string := "foreign key conflict"
  /** The exception `"".Substring(1)` raises. */
  const SubstringOutOfRange: string := "startIndex cannot be larger than length of string."

  predicate IndexTaken(students: map<Guid, Student>, index: string) {
    exists id :: id in students && students[id].universityIndex == index
  }

  predicate ProfessorIndexTaken(professors: map<Guid, Professor>, index: string) {
    exists id :: id in professors && professors[id].universityIndex == index
  }

  /** Unique index on Student.UniversityIndex (shared by master students). */
  predicate UniqueStudentIndices(students: map<Guid, Student>) {
    forall a, b :: a in students && b in students && a != b ==>
      students[a].universityIndex != students[b].universityIndex
  }

  /** Unique index on Professor.UniversityIndex. */
  predicate UniqueProfessorIndices(professors: map<Guid, Professor>) {
    forall a, b :: a in professors && b in professors && a != b ==>
      professors[a].universityIndex != professors[b].universityIndex
  }

  predicate Enrolled(enrollments: map<Guid, Enrollment>, studentId: Guid, courseId: Guid) {
    exists e :: e in enrollments && enrollments[e].studentId == studentId && enrollments[e].courseId == courseId
  }

  /** Each (student, course) pair is enrolled at most once. */
  predicate UniqueEnrollmentPairs(enrollments: map<Guid, Enrollment>) {
    forall a, b :: a in enrollments && b in enrollments && a != b ==>
      enrollments[a].studentId != enrollments[b].studentId || enrollments[a].courseId != enrollments[b].courseId
  }

  predicate CodeTaken(courses: map<Guid, Course>, code: string, except: Option<Guid>) {
    exists c :: c in courses && courses[c].code == code && Some(c) != except
  }

  predicate UniqueCourseCodes(courses: map<Guid, Course>) {
    forall a, b :: a in courses && b in courses && a != b ==> courses[a].code != courses[b].code
  }

  /** No course requires itself, and every prerequisite is an existing course
      (the join table restricts deleting a course that is a prerequisite). */
  predicate PrerequisitesWellFormed(courses: map<Guid, Course>) {
    forall c :: c in courses ==> c !in courses[c].prerequisites && courses[c].prerequisites <= courses.Keys
  }

  predicate NameTaken(departments: map<Guid, Department>, name: string, except: Option<Guid>) {
    exists d :: d in departments && departments[d].name == name && Some(d) != except
  }

  predicate UniqueDepartmentNames(departments: map<Guid, Department>) {
    forall a, b :: a in departments && b in departments && a != b ==> departments[a].name != departments[b].name
  }

  /** A professor occupies at most one office. */
  predicate OneOfficePerProfessor(offices: map<Guid, Office>) {
    forall a, b :: a in offices && b in offices && a != b && offices[a].professorId.Some? ==>
      offices[a].professorId != offices[b].professorId
  }

  /** The rules the services and the storage keys keep together. */
  predicate Valid(s: State) {
    && UniqueStudentIndices(s.students)
    && UniqueProfessorIndices(s.professors)
    && UniqueEnrollmentPairs(s.enrollments)
    && UniqueCourseCodes(s.courses)
    && PrerequisitesWellFormed(s.courses)
    && UniqueDepartmentNames(s.departments)
    && OneOfficePerProfessor(s.offices)
  }

  /** The database context: one mutable table per DbSet. Every service method
      reads and writes these fields and is specified by the State it leaves. */
  class Database {
    var counters: Counters
    var students: map<Guid, Student>
    var professors: map<Guid, Professor>
    var courses: map<Guid, Course>
    var enrollments: map<Guid, Enrollment>
    var departments: map<Guid, Department>
    var offices: map<Guid, Office>

    function Snapshot(): State
      reads this
    {
      State(counters, students, professors, courses, enrollments, departments, offices)
    }

    constructor (s: State)
      ensures Snapshot() == s
    {
      counters, students, professors := s.counters, s.students, s.professors;
      courses, enrollments := s.courses, s.enrollments;
      departments, offices := s.departments, s.offices;
    }
  }
}
