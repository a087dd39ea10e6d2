/** The entity normalizer: raw identifiers become dense 1-based internal
    ids following input order, and missing optional fields get fixed
    defaults. */
module Normalizer {
  import opened Records

  const DefaultSessions := 1
  const DefaultSize := 30
  const DefaultCapacity := 50
  const DefaultKind := "Lecture"
  /** The internal id a course gets when its faculty reference is absent or unknown. */
  const DefaultFaculty := 1

  /** `v` is one more than the last position of `x` in `ids`. */
  predicate IsLastPositionPlusOne(ids: seq<RawId>, x: RawId, v: int) {
    && 1 <= v <= |ids|
    && ids[v - 1] == x
    && forall j | v <= j < |ids| :: ids[j] != x
  }

  /** The map `{x: idx + 1 for idx, x in enumerate(ids)}`: every identifier
      maps to one more than its position, and a later duplicate overwrites an
      earlier one. */
  function IdMap(ids: seq<RawId>): (m: map<RawId, int>)
    ensures forall i | 0 <= i < |ids| :: ids[i] in m
    ensures forall x | x in m :: IsLastPositionPlusOne(ids, x, m[x])
  {
    if |ids| == 0 then map[]
    else
      var m' := IdMap(ids[..|ids| - 1]);
      assert forall x | x in m' :: IsLastPositionPlusOne(ids[..|ids| - 1], x, m'[x]);
      m'[ids[|ids| - 1] := |ids|]
  }

  function NormalizeFaculty(f: RawFaculty, facultyIds: map<RawId, int>): Faculty
    requires f.id in facultyIds
  {
    Faculty(facultyIds[f.id], f.name, f.id)
  }

  function NormalizeCourse(c: RawCourse, courseIds: map<RawId, int>, facultyIds: map<RawId, int>): Course
    requires c.id in courseIds
  {
    Course(
      courseIds[c.id],
      c.name,
      c.requiredSlots.GetOr(DefaultSessions),
      c.size.GetOr(DefaultSize),
      if c.facultyRef in facultyIds then facultyIds[c.facultyRef] else DefaultFaculty,
      c.id)
  }

  function NormalizeClassroom(r: RawClassroom, classroomIds: map<RawId, int>): Classroom
    requires r.id in classroomIds
  {
    Classroom(classroomIds[r.id], r.name, r.capacity.GetOr(DefaultCapacity), r.kind.GetOr(DefaultKind), r.id)
  }

  function NormalizeTimeslot(t: RawTimeslot, timeslotIds: map<RawId, int>): Timeslot
    requires t.id in timeslotIds
  {
    Timeslot(timeslotIds[t.id], t.labelText, t.id)
  }

  /** The id maps of a raw dataset. */
  function IdMapsOf(raw: RawDataset): IdMaps {
    IdMaps(
      IdMap(FacultyRawIds(raw.faculties)),
      IdMap(CourseRawIds(raw.courses)),
      IdMap(ClassroomRawIds(raw.classrooms)),
      IdMap(TimeslotRawIds(raw.timeslots)))
  }

  function NormalizeFaculties(fs: seq<RawFaculty>, facultyIds: map<RawId, int>): (r: seq<Faculty>)
    requires forall i | 0 <= i < |fs| :: fs[i].id in facultyIds
    ensures |r| == |fs| && forall i | 0 <= i < |fs| :: r[i] == NormalizeFaculty(fs[i], facultyIds)
  {
    seq(|fs|, i requires 0 <= i < |fs| => NormalizeFaculty(fs[i], facultyIds))
  }

  function NormalizeCourses(cs: seq<RawCourse>, courseIds: map<RawId, int>, facultyIds: map<RawId, int>): (r: seq<Course>)
    requires forall i | 0 <= i < |cs| :: cs[i].id in courseIds
    ensures |r| == |cs| && forall i | 0 <= i < |cs| :: r[i] == NormalizeCourse(cs[i], courseIds, facultyIds)
  {
    seq(|cs|, i requires 0 <= i < |cs| => NormalizeCourse(cs[i], courseIds, facultyIds))
  }

  function NormalizeClassrooms(rs: seq<RawClassroom>, classroomIds: map<RawId, int>): (r: seq<Classroom>)
    requires forall i | 0 <= i < |rs| :: rs[i].id in classroomIds
    ensures |r| == |rs| && forall i | 0 <= i < |rs| :: r[i] == NormalizeClassroom(rs[i], classroomIds)
  {
    seq(|rs|, i requires 0 <= i < |rs| => NormalizeClassroom(rs[i], classroomIds))
  }

  function NormalizeTimeslots(ts: seq<RawTimeslot>, timeslotIds: map<RawId, int>): (r: seq<Timeslot>)
    requires forall i | 0 <= i < |ts| :: ts[i].id in timeslotIds
    ensures |r| == |ts| && forall i | 0 <= i < |ts| :: r[i] == NormalizeTimeslot(ts[i], timeslotIds)
  {
    seq(|ts|, i requires 0 <= i < |ts| => NormalizeTimeslot(ts[i], timeslotIds))
  }

  /** The normalized dataset: each list transformed record by record, in input order. */
  function Normalize(raw: RawDataset): Dataset {
    var maps := IdMapsOf(raw);
    Dataset(
      NormalizeFaculties(raw.faculties, maps.faculty),
      NormalizeCourses(raw.courses, maps.course, maps.faculty),
      NormalizeClassrooms(raw.classrooms, maps.classroom),
      NormalizeTimeslots(raw.timeslots, maps.timeslot),
      maps)
  }

  /** The faculty loop: one transformed record appended per input record. */
  method TransformFaculties(fs: seq<RawFaculty>, facultyIds: map<RawId, int>) returns (r: seq<Faculty>)
    requires forall i | 0 <= i < |fs| :: fs[i].id in facultyIds
    ensures r == NormalizeFaculties(fs, facultyIds)
  {
    r := [];
    var i := 0;
    while i < |fs|
      invariant 0 <= i <= |fs|
      invariant |r| == i
      invariant forall k | 0 <= k < i :: r[k] == NormalizeFaculty(fs[k], facultyIds)
    {
      r := r + [NormalizeFaculty(fs[i], facultyIds)];
      i := i + 1;
    }
  }

  /** The course loop: one transformed record appended per input record. */
  method TransformCourses(cs: seq<RawCourse>, courseIds: map<RawId, int>, facultyIds: map<RawId, int>)
    returns (r: seq<Course>)
    requires forall i | 0 <= i < |cs| :: cs[i].id in courseIds
    ensures r == NormalizeCourses(cs, courseIds, facultyIds)
  {
    r := [];
    var i := 0;
    while i < |cs|
      invariant 0 <= i <= |cs|
      invariant |r| == i
      invariant forall k | 0 <= k < i :: r[k] == NormalizeCourse(cs[k], courseIds, facultyIds)
    {
      r := r + [NormalizeCourse(cs[i], courseIds, facultyIds)];
      i := i + 1;
    }
  }

  /** The classroom loop: one transformed record appended per input record. */
  method TransformClassrooms(rs: seq<RawClassroom>, classroomIds: map<RawId, int>) returns (r: seq<Classroom>)
    requires forall i | 0 <= i < |rs| :: rs[i].id in classroomIds
    ensures r == NormalizeClassrooms(rs, classroomIds)
  {
    r := [];
    var i := 0;
    while i < |rs|
      invariant 0 <= i <= |rs|
      invariant |r| == i
      invariant forall k | 0 <= k < i :: r[k] == NormalizeClassroom(rs[k], classroomIds)
    {
      r := r + [NormalizeClassroom(rs[i], classroomIds)];
      i := i + 1;
    }
  }

  /** The timeslot loop: one transformed record appended per input record. */
  method TransformTimeslots(ts: seq<RawTimeslot>, timeslotIds: map<RawId, int>) returns (r: seq<Timeslot>)
    requires forall i | 0 <= i < |ts| :: ts[i].id in timeslotIds
    ensures r == NormalizeTimeslots(ts, timeslotIds)
  {
    r := [];
    var i := 0;
    while i < |ts|
      invariant 0 <= i <= |ts|
      invariant |r| == i
      invariant forall k | 0 <= k < i :: r[k] == NormalizeTimeslot(ts[k], timeslotIds)
    {
      r := r + [NormalizeTimeslot(ts[i], timeslotIds)];
      i := i + 1;
    }
  }

  /** The normalizer as the source runs it: the four id maps, then one loop
      per collection. */
  method NormalizeData(raw: RawDataset) returns (d: Dataset)
    ensures d == Normalize(raw)
  {
    var maps := IdMapsOf(raw);
    var faculties := TransformFaculties(raw.faculties, maps.faculty);
    var courses := TransformCourses(raw.courses, maps.course, maps.faculty);
    var classrooms := TransformClassrooms(raw.classrooms, maps.classroom);
    var timeslots := TransformTimeslots(raw.timeslots, maps.timeslot);
    d := Dataset(faculties, courses, classrooms, timeslots, maps);
  }

  /** With distinct identifiers, the k-th identifier maps to k + 1: ids are
      dense, 1-based and follow input order. */
  lemma DistinctIdsAreDense(ids: seq<RawId>)
    requires Distinct(ids)
    ensures forall k | 0 <= k < |ids| :: IdMap(ids)[ids[k]] == k + 1
  {
    var m := IdMap(ids);
    forall k | 0 <= k < |ids|
      ensures m[ids[k]] == k + 1
    {
      assert IsLastPositionPlusOne(ids, ids[k], m[ids[k]]);
    }
  }

  /** Each normalized list has its input's length. */
  lemma NormalizeLengths(raw: RawDataset)
    ensures |Normalize(raw).faculties| == |raw.faculties|
    ensures |Normalize(raw).courses| == |raw.courses|
    ensures |Normalize(raw).classrooms| == |raw.classrooms|
    ensures |Normalize(raw).timeslots| == |raw.timeslots|
  {
  }

  /** Course sizes and classroom capacities with their defaults filled in. */
  lemma NormalizedSizes(raw: RawDataset)
    ensures forall i | 0 <= i < |raw.courses| :: Normalize(raw).courses[i].size == raw.courses[i].size.GetOr(DefaultSize)
    ensures forall l | 0 <= l < |raw.classrooms| ::
      Normalize(raw).classrooms[l].capacity == raw.classrooms[l].capacity.GetOr(DefaultCapacity)
  {
  }

  predicate FacultiesKept(raw: RawDataset, fs: seq<Faculty>) {
    && |fs| == |raw.faculties|
    && forall i | 0 <= i < |raw.faculties| ::
         fs[i].originalId == raw.faculties[i].id && fs[i].name == raw.faculties[i].name
         && IsLastPositionPlusOne(FacultyRawIds(raw.faculties), raw.faculties[i].id, fs[i].id)
  }

  predicate CoursesKept(raw: RawDataset, cs: seq<Course>) {
    && |cs| == |raw.courses|
    && forall i | 0 <= i < |raw.courses| ::
         cs[i].originalId == raw.courses[i].id && cs[i].name == raw.courses[i].name
         && IsLastPositionPlusOne(CourseRawIds(raw.courses), raw.courses[i].id, cs[i].id)
  }

  predicate ClassroomsKept(raw: RawDataset, rs: seq<Classroom>) {
    && |rs| == |raw.classrooms|
    && forall i | 0 <= i < |raw.classrooms| ::
         rs[i].originalId == raw.classrooms[i].id && rs[i].name == raw.classrooms[i].name
         && IsLastPositionPlusOne(ClassroomRawIds(raw.classrooms), raw.classrooms[i].id, rs[i].id)
  }

  predicate TimeslotsKept(raw: RawDataset, ts: seq<Timeslot>) {
    && |ts| == |raw.timeslots|
    && forall i | 0 <= i < |raw.timeslots| ::
         ts[i].originalId == raw.timeslots[i].id && ts[i].labelText == raw.timeslots[i].labelText
         && IsLastPositionPlusOne(TimeslotRawIds(raw.timeslots), raw.timeslots[i].id, ts[i].id)
  }

  lemma NormalizeKeepsFaculties(raw: RawDataset)
    ensures FacultiesKept(raw, Normalize(raw).faculties)
  {
    assert Normalize(raw).faculties == NormalizeFaculties(raw.faculties, IdMapsOf(raw).faculty);
  }

  lemma NormalizeKeepsCourses(raw: RawDataset)
    ensures CoursesKept(raw, Normalize(raw).courses)
  {
    var maps := IdMapsOf(raw);
    assert Normalize(raw).courses == NormalizeCourses(raw.courses, maps.course, maps.faculty);
  }

  lemma NormalizeKeepsClassrooms(raw: RawDataset)
    ensures ClassroomsKept(raw, Normalize(raw).classrooms)
  {
    assert Normalize(raw).classrooms == NormalizeClassrooms(raw.classrooms, IdMapsOf(raw).classroom);
  }

  lemma NormalizeKeepsTimeslots(raw: RawDataset)
    ensures TimeslotsKept(raw, Normalize(raw).timeslots)
  {
    assert Normalize(raw).timeslots == NormalizeTimeslots(raw.timeslots, IdMapsOf(raw).timeslot);
  }

  /** Each normalized list has its input's length and order; every record keeps
      its input identifier as `originalId` and its name or label, and its
      internal id is one more than the last position of that identifier. */
  lemma NormalizeKeepsOrderAndOriginalIds(raw: RawDataset)
    ensures FacultiesKept(raw, Normalize(raw).faculties)
    ensures CoursesKept(raw, Normalize(raw).courses)
    ensures ClassroomsKept(raw, Normalize(raw).classrooms)
    ensures TimeslotsKept(raw, Normalize(raw).timeslots)
  {
    NormalizeKeepsFaculties(raw);
    NormalizeKeepsCourses(raw);
    NormalizeKeepsClassrooms(raw);
    NormalizeKeepsTimeslots(raw);
  }

  /** With distinct identifiers in every collection, the k-th record of each
      normalized list has internal id k + 1. */
  lemma NormalizeDenseIds(raw: RawDataset)
    requires DistinctRawIds(raw)
    ensures forall i | 0 <= i < |raw.faculties| :: Normalize(raw).faculties[i].id == i + 1
    ensures forall i | 0 <= i < |raw.courses| :: Normalize(raw).courses[i].id == i + 1
    ensures forall i | 0 <= i < |raw.classrooms| :: Normalize(raw).classrooms[i].id == i + 1
    ensures forall i | 0 <= i < |raw.timeslots| :: Normalize(raw).timeslots[i].id == i + 1
  {
    DistinctIdsAreDense(FacultyRawIds(raw.faculties));
    DistinctIdsAreDense(CourseRawIds(raw.courses));
    DistinctIdsAreDense(ClassroomRawIds(raw.classrooms));
    DistinctIdsAreDense(TimeslotRawIds(raw.timeslots));
  }

  /** Distinct raw course, classroom and timeslot identifiers give distinct internal ids. */
  lemma NormalizeUniqueIds(raw: RawDataset)
    requires DistinctRawIds(raw)
    ensures UniqueCourseIds(Normalize(raw).courses)
    ensures UniqueClassroomIds(Normalize(raw).classrooms)
    ensures UniqueTimeslotIds(Normalize(raw).timeslots)
  {
    NormalizeDenseIds(raw);
  }

  /** The `i`-th normalized course is the transform of the `i`-th raw course. */
  lemma NormalizedCourseAt(raw: RawDataset, i: int)
    requires 0 <= i < |raw.courses|
    ensures |Normalize(raw).courses| == |raw.courses|
    ensures Normalize(raw).courses[i] ==
      NormalizeCourse(raw.courses[i], IdMap(CourseRawIds(raw.courses)), IdMap(FacultyRawIds(raw.faculties)))
  {
    var maps := IdMapsOf(raw);
    assert Normalize(raw).courses == NormalizeCourses(raw.courses, maps.course, maps.faculty);
  }

  /** The normalized faculty list is the transform of the raw one. */
  lemma NormalizedFaculties(raw: RawDataset)
    ensures Normalize(raw).faculties == NormalizeFaculties(raw.faculties, IdMap(FacultyRawIds(raw.faculties)))
  {
  }

  /** A faculty reference found among the faculties' identifiers maps to the id
      of the faculty record at its last position; any other maps to nothing. */
  lemma FacultyRefLookup(fs: seq<RawFaculty>, ref: RawId)
    ensures (exists m | 0 <= m < |fs| :: fs[m].id == ref) ==>
      && ref in IdMap(FacultyRawIds(fs))
      && exists m | 0 <= m < |fs| ::
           fs[m].id == ref && NormalizeFaculties(fs, IdMap(FacultyRawIds(fs)))[m].id == IdMap(FacultyRawIds(fs))[ref]
    ensures (forall m | 0 <= m < |fs| :: fs[m].id != ref) ==> ref !in IdMap(FacultyRawIds(fs))
  {
    var ids := FacultyRawIds(fs);
    var byId := IdMap(ids);
    if m :| 0 <= m < |fs| && fs[m].id == ref {
      assert ids[m] == ref;
    }
    if ref in byId {
      assert IsLastPositionPlusOne(ids, ref, byId[ref]);
      var last := byId[ref] - 1;
      assert fs[last].id == ref;
      assert NormalizeFaculties(fs, byId)[last] == NormalizeFaculty(fs[last], byId);
    }
  }

  /** Defaults of a course: missing `requiredSlots` gives 1 session, missing
      `size` gives 30; a faculty reference that names a listed faculty
      resolves to the id that faculty's record carries, and any other
      reference (absent or unknown) gives internal faculty 1. */
  lemma CourseDefaults(raw: RawDataset, i: int)
    requires 0 <= i < |raw.courses|
    ensures raw.courses[i].requiredSlots.None? ==> Normalize(raw).courses[i].sessionsPerWeek == DefaultSessions
    ensures raw.courses[i].requiredSlots.Some? ==>
      Normalize(raw).courses[i].sessionsPerWeek == raw.courses[i].requiredSlots.value
    ensures raw.courses[i].size.None? ==> Normalize(raw).courses[i].size == DefaultSize
    ensures raw.courses[i].size.Some? ==> Normalize(raw).courses[i].size == raw.courses[i].size.value
    ensures (exists m | 0 <= m < |raw.faculties| :: raw.faculties[m].id == raw.courses[i].facultyRef)
      ==> exists m | 0 <= m < |raw.faculties| ::
            && Normalize(raw).faculties[m].originalId == raw.courses[i].facultyRef
            && Normalize(raw).faculties[m].id == Normalize(raw).courses[i].facultyId
    ensures (forall m | 0 <= m < |raw.faculties| :: raw.faculties[m].id != raw.courses[i].facultyRef)
      ==> Normalize(raw).courses[i].facultyId == DefaultFaculty
  {
    NormalizedCourseAt(raw, i);
    NormalizedFaculties(raw);
    FacultyRefLookup(raw.faculties, raw.courses[i].facultyRef);
  }

  /** Defaults of a classroom: missing `capacity` gives 50, missing `type` gives "Lecture". */
  lemma ClassroomDefaults(raw: RawDataset, i: int)
    requires 0 <= i < |raw.classrooms|
    ensures var c, r := Normalize(raw).classrooms[i], raw.classrooms[i];
      && (r.capacity.None? ==> c.capacity == DefaultCapacity)
      && (r.capacity.Some? ==> c.capacity == r.capacity.value)
      && (r.kind.None? ==> c.kind == DefaultKind)
      && (r.kind.Some? ==> c.kind == r.kind.value)
  {
  }

  /** With a non-empty faculty list of distinct identifiers, every course's
      faculty id is the id of some listed faculty (internal id 1 is the first
      faculty). */
  lemma FacultyReferencesResolve(raw: RawDataset)
    requires |raw.faculties| > 0
    requires Distinct(FacultyRawIds(raw.faculties))
    ensures forall i | 0 <= i < |raw.courses| ::
      exists m | 0 <= m < |raw.faculties| :: Normalize(raw).faculties[m].id == Normalize(raw).courses[i].facultyId
  {
    var d := Normalize(raw);
    var maps := IdMapsOf(raw);
    DistinctIdsAreDense(FacultyRawIds(raw.faculties));
    assert d.faculties[0] == NormalizeFaculty(raw.faculties[0], maps.faculty);
    assert d.faculties[0].id == 1;
    forall i | 0 <= i < |raw.courses|
      ensures exists m | 0 <= m < |raw.faculties| :: d.faculties[m].id == d.courses[i].facultyId
    {
      CourseDefaults(raw, i);
    }
  }

  /** With no faculties at all, every course still gets internal faculty 1,
      which no faculty record carries. */
  lemma EmptyFacultyListDefaultsToMissingFaculty(raw: RawDataset)
    requires |raw.faculties| == 0
    ensures var d := Normalize(raw);
      && d.faculties == []
      && forall i | 0 <= i < |d.courses| :: d.courses[i].facultyId == DefaultFaculty
  {
  }
}
