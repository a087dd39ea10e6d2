/** The records the timetable builder works on: the raw dataset as it is
    uploaded (JSON objects with optional fields and identifiers of any JSON
    type), and the normalized records the solver model is built from. */
module Records {

  datatype Option<+T> = None | Some(value: T) {
    function GetOr(default: T): T {
      match this
      case Some(v) => v
      case None => default
    }
  }

  datatype Result<+R, +E> = Ok(value: R) | Err(error: E)

  /** A JSON value used as a record identifier. `Null` also stands for a field
      that is absent, since a dictionary lookup with a default of `None` cannot
      tell the two apart. */
  datatype RawId = Null | Num(n: int) | Str(s: string)

  // Raw records, one per JSON object of the uploaded dataset.
  datatype RawFaculty = RawFaculty(id: RawId, name: string)
  datatype RawCourse = RawCourse(
    id: RawId,
    name: string,
    requiredSlots: Option<int>,
    size: Option<int>,
    facultyRef: RawId)
  datatype RawClassroom = RawClassroom(id: RawId, name: string, capacity: Option<int>, kind: Option<string>)
  datatype RawTimeslot = RawTimeslot(id: RawId, labelText: string)

  /** The four collections of the dataset; a missing collection is empty. */
  datatype RawDataset = RawDataset(
    faculties: seq<RawFaculty>,
    courses: seq<RawCourse>,
    classrooms: seq<RawClassroom>,
    timeslots: seq<RawTimeslot>)

  // Normalized records: internal integer ids, every field filled in.
  datatype Faculty = Faculty(id: int, name: string, originalId: RawId)
  datatype Course = Course(
    id: int,
    name: string,
    sessionsPerWeek: int,
    size: int,
    facultyId: int,
    originalId: RawId)
  datatype Classroom = Classroom(id: int, name: string, capacity: int, kind: string, originalId: RawId)
  datatype Timeslot = Timeslot(id: int, labelText: string, originalId: RawId)

  /** The maps from raw identifiers to internal ids, one per entity kind. */
  datatype IdMaps = IdMaps(
    faculty: map<RawId, int>,
    course: map<RawId, int>,
    classroom: map<RawId, int>,
    timeslot: map<RawId, int>)

  datatype Dataset = Dataset(
    faculties: seq<Faculty>,
    courses: seq<Course>,
    classrooms: seq<Classroom>,
    timeslots: seq<Timeslot>,
    idMaps: IdMaps)

  /** No two elements of `s` are equal. */
  predicate Distinct<T(==)>(s: seq<T>) {
    forall i, j | 0 <= i < j < |s| :: s[i] != s[j]
  }

  // Projections onto identifiers, in list order.

  function FacultyRawIds(fs: seq<RawFaculty>): (ids: seq<RawId>)
    ensures |ids| == |fs| && forall i | 0 <= i < |fs| :: ids[i] == fs[i].id
  {
    seq(|fs|, i requires 0 <= i < |fs| => fs[i].id)
  }

  function CourseRawIds(cs: seq<RawCourse>): (ids: seq<RawId>)
    ensures |ids| == |cs| && forall i | 0 <= i < |cs| :: ids[i] == cs[i].id
  {
    seq(|cs|, i requires 0 <= i < |cs| => cs[i].id)
  }

  function ClassroomRawIds(rs: seq<RawClassroom>): (ids: seq<RawId>)
    ensures |ids| == |rs| && forall i | 0 <= i < |rs| :: ids[i] == rs[i].id
  {
    seq(|rs|, i requires 0 <= i < |rs| => rs[i].id)
  }

  function TimeslotRawIds(ts: seq<RawTimeslot>): (ids: seq<RawId>)
    ensures |ids| == |ts| && forall i | 0 <= i < |ts| :: ids[i] == ts[i].id
  {
    seq(|ts|, i requires 0 <= i < |ts| => ts[i].id)
  }

  /** Every raw identifier occurs once in its own collection. */
  predicate DistinctRawIds(raw: RawDataset) {
    && Distinct(FacultyRawIds(raw.faculties))
    && Distinct(CourseRawIds(raw.courses))
    && Distinct(ClassroomRawIds(raw.classrooms))
    && Distinct(TimeslotRawIds(raw.timeslots))
  }

  // Internal-id uniqueness of normalized lists.

  predicate UniqueCourseIds(cs: seq<Course>) {
    forall i, j | 0 <= i < |cs| && 0 <= j < |cs| && cs[i].id == cs[j].id :: i == j
  }

  predicate UniqueClassroomIds(rs: seq<Classroom>) {
    forall i, j | 0 <= i < |rs| && 0 <= j < |rs| && rs[i].id == rs[j].id :: i == j
  }

  predicate UniqueTimeslotIds(ts: seq<Timeslot>) {
    forall i, j | 0 <= i < |ts| && 0 <= j < |ts| && ts[i].id == ts[j].id :: i == j
  }
}
