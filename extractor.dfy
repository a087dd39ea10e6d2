/** The solution extractor: one timetable entry per selected decision
    variable, in dictionary order, the faculty resolved through the course. */
module Extractor {
  import opened Records
  import opened ModelBuilder

  /** One row of the generated timetable: the ids written to the database and
      the names written to the export files. */
  datatype Entry = Entry(
    courseId: int,
    facultyId: int,
    timeslotId: int,
    classroomId: int,
    course: string,
    faculty: string,
    classroom: string,
    timeslot: string)

  /** Python's `next(x for x in s if p(x))`: the position of the first element
      satisfying `p`, or None where `next` raises StopIteration. */
  function FindFirst<T>(s: seq<T>, p: T -> bool): (r: Option<nat>)
    ensures r.Some? ==> r.value < |s| && p(s[r.value]) && forall j | 0 <= j < r.value :: !p(s[j])
    ensures r.None? ==> forall j | 0 <= j < |s| :: !p(s[j])
  {
    if |s| == 0 then None
    else if p(s[0]) then Some(0)
    else
      match FindFirst(s[1..], p)
      case None => None
      case Some(i) => Some(i + 1)
  }

  predicate HasCourse(courses: seq<Course>, id: int) {
    exists i | 0 <= i < |courses| :: courses[i].id == id
  }

  predicate HasFaculty(faculties: seq<Faculty>, id: int) {
    exists i | 0 <= i < |faculties| :: faculties[i].id == id
  }

  predicate HasClassroom(rooms: seq<Classroom>, id: int) {
    exists i | 0 <= i < |rooms| :: rooms[i].id == id
  }

  predicate HasTimeslot(slots: seq<Timeslot>, id: int) {
    exists i | 0 <= i < |slots| :: slots[i].id == id
  }

  /** The first listed course with internal id `id`. */
  function CourseById(courses: seq<Course>, id: int): (c: Course)
    requires HasCourse(courses, id)
    ensures exists i | 0 <= i < |courses| ::
      courses[i] == c && c.id == id && forall j | 0 <= j < i :: courses[j].id != id
  {
    var r := FindFirst(courses, (x: Course) => x.id == id);
    courses[r.value]
  }

  /** The first listed faculty with internal id `id`, or None where the lookup raises. */
  function FacultyById(faculties: seq<Faculty>, id: int): (f: Option<Faculty>)
    ensures f.Some? <==> HasFaculty(faculties, id)
    ensures f.Some? ==> exists i | 0 <= i < |faculties| ::
      faculties[i] == f.value && f.value.id == id && forall j | 0 <= j < i :: faculties[j].id != id
  {
    match FindFirst(faculties, (x: Faculty) => x.id == id)
    case None => None
    case Some(i) => Some(faculties[i])
  }

  /** The first listed classroom with internal id `id`. */
  function ClassroomById(rooms: seq<Classroom>, id: int): (r: Classroom)
    requires HasClassroom(rooms, id)
    ensures exists i | 0 <= i < |rooms| ::
      rooms[i] == r && r.id == id && forall j | 0 <= j < i :: rooms[j].id != id
  {
    var i := FindFirst(rooms, (x: Classroom) => x.id == id);
    rooms[i.value]
  }

  /** The first listed timeslot with internal id `id`. */
  function TimeslotById(slots: seq<Timeslot>, id: int): (t: Timeslot)
    requires HasTimeslot(slots, id)
    ensures exists i | 0 <= i < |slots| ::
      slots[i] == t && t.id == id && forall j | 0 <= j < i :: slots[j].id != id
  {
    var i := FindFirst(slots, (x: Timeslot) => x.id == id);
    slots[i.value]
  }

  /** Every key names a listed course, timeslot and classroom. */
  predicate Grounded(d: Dataset, keys: seq<Key>) {
    forall k | k in keys ::
      HasCourse(d.courses, k.course) && HasTimeslot(d.timeslots, k.slot) && HasClassroom(d.classrooms, k.room)
  }

  /** The entry for one selected key: the key's own ids, the faculty of the
      first course with the key's course id, and the names of the records; None
      where the faculty lookup raises. */
  function EntryFor(d: Dataset, k: Key): (e: Option<Entry>)
    requires HasCourse(d.courses, k.course) && HasTimeslot(d.timeslots, k.slot) && HasClassroom(d.classrooms, k.room)
    ensures e.Some? <==> HasFaculty(d.faculties, CourseById(d.courses, k.course).facultyId)
    ensures e.Some? ==>
      && e.value.courseId == k.course
      && e.value.timeslotId == k.slot
      && e.value.classroomId == k.room
      && e.value.facultyId == CourseById(d.courses, k.course).facultyId
  {
    var c := CourseById(d.courses, k.course);
    match FacultyById(d.faculties, c.facultyId)
    case None => None
    case Some(f) =>
      var r := ClassroomById(d.classrooms, k.room);
      var t := TimeslotById(d.timeslots, k.slot);
      Some(Entry(k.course, c.facultyId, k.slot, k.room, c.name, f.name, r.name, t.labelText))
  }

  /** The extraction loop over the dictionary: an entry per selected key, or
      the faculty id whose lookup raised first. */
  function ExtractSpec(d: Dataset, keys: seq<Key>, sel: set<Key>): Result<seq<Entry>, int>
    requires Grounded(d, keys)
  {
    if |keys| == 0 then Ok([])
    else
      var k := keys[|keys| - 1];
      match ExtractSpec(d, keys[..|keys| - 1], sel)
      case Err(f) => Err(f)
      case Ok(es) =>
        if k !in sel then Ok(es)
        else
          match EntryFor(d, k)
          case None => Err(CourseById(d.courses, k.course).facultyId)
          case Some(e) => Ok(es + [e])
  }

  lemma {:induction false} ExtractErrorPersists(d: Dataset, keys: seq<Key>, sel: set<Key>, j: int)
    requires Grounded(d, keys)
    requires 0 <= j <= |keys|
    requires ExtractSpec(d, keys[..j], sel).Err?
    ensures ExtractSpec(d, keys, sel) == ExtractSpec(d, keys[..j], sel)
    decreases |keys|
  {
    if j < |keys| {
      var n := |keys| - 1;
      assert keys[..n][..j] == keys[..j];
      ExtractErrorPersists(d, keys[..n], sel, j);
    } else {
      assert keys[..j] == keys;
    }
  }

  /** The extraction loop as the source runs it; a failed faculty lookup
      aborts it. */
  method Extract(d: Dataset, keys: seq<Key>, sel: set<Key>) returns (r: Result<seq<Entry>, int>)
    requires Grounded(d, keys)
    ensures r == ExtractSpec(d, keys, sel)
  {
    var entries: seq<Entry> := [];
    var i := 0;
    while i < |keys|
      invariant 0 <= i <= |keys|
      invariant ExtractSpec(d, keys[..i], sel) == Ok(entries)
    {
      var k := keys[i];
      assert keys[..i + 1][..i] == keys[..i];
      if k in sel {
        var course := CourseById(d.courses, k.course);
        var faculty := FacultyById(d.faculties, course.facultyId);
        if faculty.None? {
          ExtractErrorPersists(d, keys, sel, i + 1);
          return Err(course.facultyId);
        }
        var classroom := ClassroomById(d.classrooms, k.room);
        var timeslot := TimeslotById(d.timeslots, k.slot);
        entries := entries + [Entry(k.course, course.facultyId, k.slot, k.room,
                                    course.name, faculty.value.name, classroom.name, timeslot.labelText)];
      }
      i := i + 1;
    }
    assert keys[..i] == keys;
    r := Ok(entries);
  }

  /** Extraction succeeds with one entry per selected key, in dictionary
      order, each the entry of its key. */
  lemma {:induction false} ExtractEntries(d: Dataset, keys: seq<Key>, sel: set<Key>)
    requires Grounded(d, keys)
    requires ExtractSpec(d, keys, sel).Ok?
    ensures var es, s := ExtractSpec(d, keys, sel).value, Selected(keys, sel);
      && |es| == |s|
      && forall i | 0 <= i < |s| :: s[i] in keys && EntryFor(d, s[i]) == Some(es[i])
    decreases |keys|
  {
    if |keys| > 0 {
      var n := |keys| - 1;
      var last := keys[n];
      assert forall k | k in keys[..n] :: k in keys;
      ExtractEntries(d, keys[..n], sel);
      var es', s' := ExtractSpec(d, keys[..n], sel).value, Selected(keys[..n], sel);
      if last in sel {
        var e := EntryFor(d, last).value;
        assert ExtractSpec(d, keys, sel).value == es' + [e];
        assert Selected(keys, sel) == s' + [last];
      } else {
        assert ExtractSpec(d, keys, sel).value == es';
        assert Selected(keys, sel) == s';
      }
    }
  }

  /** Extraction fails exactly when some selected key's course names a faculty
      id that no faculty record carries, and the failure names that id. */
  lemma {:induction false} ExtractFails(d: Dataset, keys: seq<Key>, sel: set<Key>)
    requires Grounded(d, keys)
    ensures ExtractSpec(d, keys, sel).Ok? <==>
      forall k | k in Selected(keys, sel) :: HasFaculty(d.faculties, CourseById(d.courses, k.course).facultyId)
    ensures ExtractSpec(d, keys, sel).Err? ==>
      exists k | k in Selected(keys, sel) ::
        && CourseById(d.courses, k.course).facultyId == ExtractSpec(d, keys, sel).error
        && !HasFaculty(d.faculties, ExtractSpec(d, keys, sel).error)
    decreases |keys|
  {
    if |keys| > 0 {
      var n := |keys| - 1;
      var init, last := keys[..n], keys[n];
      assert forall k | k in init :: k in keys;
      ExtractFails(d, init, sel);
      var prev := ExtractSpec(d, init, sel);
      var s', s := Selected(init, sel), Selected(keys, sel);
      if prev.Err? {
        assert ExtractSpec(d, keys, sel) == prev;
        assert forall k | k in s' :: k in s;
      } else if last !in sel {
        assert ExtractSpec(d, keys, sel).Ok?;
        assert s == s';
      } else {
        assert s == s' + [last];
        if EntryFor(d, last).None? {
          assert ExtractSpec(d, keys, sel) == Err(CourseById(d.courses, last.course).facultyId);
          assert last in s;
        } else {
          assert ExtractSpec(d, keys, sel).Ok?;
        }
      }
    }
  }

  // What a timetable promises, stated on the entries themselves.

  /** The number of entries of course `c`. */
  function EntriesOfCourse(es: seq<Entry>, c: int): nat {
    if |es| == 0 then 0
    else EntriesOfCourse(es[..|es| - 1], c) + (if es[|es| - 1].courseId == c then 1 else 0)
  }

  /** Every listed course appears in exactly its sessions-per-week entries. */
  predicate EntriesCover(d: Dataset, es: seq<Entry>) {
    forall i | 0 <= i < |d.courses| :: EntriesOfCourse(es, d.courses[i].id) == d.courses[i].sessionsPerWeek
  }

  /** No two entries use the same classroom in the same timeslot. */
  predicate RoomsExclusive(es: seq<Entry>) {
    forall i, j | 0 <= i < j < |es| :: es[i].timeslotId == es[j].timeslotId ==> es[i].classroomId != es[j].classroomId
  }

  /** No two entries give the same faculty the same timeslot. */
  predicate FacultiesExclusive(es: seq<Entry>) {
    forall i, j | 0 <= i < j < |es| :: es[i].timeslotId == es[j].timeslotId ==> es[i].facultyId != es[j].facultyId
  }

  /** Every entry's classroom, looked up by id, seats its course, looked up by id. */
  predicate CapacityRespected(d: Dataset, es: seq<Entry>) {
    forall i | 0 <= i < |es| ::
      && HasCourse(d.courses, es[i].courseId)
      && HasClassroom(d.classrooms, es[i].classroomId)
      && ClassroomById(d.classrooms, es[i].classroomId).capacity >= CourseById(d.courses, es[i].courseId).size
  }

  lemma {:induction false} EntriesOfCourseCountsKeys(s: seq<Key>, es: seq<Entry>, c: int)
    requires |s| == |es|
    requires forall i | 0 <= i < |s| :: es[i].courseId == s[i].course
    ensures EntriesOfCourse(es, c) == Count(s, CourseIs(c))
    decreases |s|
  {
    if |s| > 0 {
      var n := |s| - 1;
      EntriesOfCourseCountsKeys(s[..n], es[..n], c);
    }
  }

  /** Under the coverage constraint, the entries give every listed course
      exactly its sessions per week. */
  lemma ExtractedCoverage(d: Dataset, keys: seq<Key>, sel: set<Key>)
    requires Grounded(d, keys)
    requires Coverage(d, keys, sel)
    requires ExtractSpec(d, keys, sel).Ok?
    ensures EntriesCover(d, ExtractSpec(d, keys, sel).value)
  {
    var es, s := ExtractSpec(d, keys, sel).value, Selected(keys, sel);
    ExtractEntries(d, keys, sel);
    forall i | 0 <= i < |d.courses|
      ensures EntriesOfCourse(es, d.courses[i].id) == d.courses[i].sessionsPerWeek
    {
      EntriesOfCourseCountsKeys(s, es, d.courses[i].id);
    }
  }

  /** Under the room constraint, no classroom hosts two entries in one timeslot. */
  lemma ExtractedRoomsExclusive(d: Dataset, keys: seq<Key>, sel: set<Key>)
    requires Grounded(d, keys)
    requires RoomExclusive(d, keys, sel)
    requires ExtractSpec(d, keys, sel).Ok?
    ensures RoomsExclusive(ExtractSpec(d, keys, sel).value)
  {
    var es, s := ExtractSpec(d, keys, sel).value, Selected(keys, sel);
    ExtractEntries(d, keys, sel);
    forall i, j | 0 <= i < j < |es| && es[i].timeslotId == es[j].timeslotId
      ensures es[i].classroomId != es[j].classroomId
    {
      if es[i].classroomId == es[j].classroomId {
        assert s[i] in keys;
        var jt :| 0 <= jt < |d.timeslots| && d.timeslots[jt].id == s[i].slot;
        var lr :| 0 <= lr < |d.classrooms| && d.classrooms[lr].id == s[i].room;
        var q := SlotAndRoom(d.timeslots[jt].id, d.classrooms[lr].id);
        CountTwo(s, q, i, j);
      }
    }
  }

  /** With distinct course ids, under the faculty constraint no faculty gets
      two entries in one timeslot. */
  lemma ExtractedFacultiesExclusive(d: Dataset, keys: seq<Key>, sel: set<Key>)
    requires Grounded(d, keys)
    requires UniqueCourseIds(d.courses)
    requires FacultyExclusive(d, keys, sel)
    requires ExtractSpec(d, keys, sel).Ok?
    ensures FacultiesExclusive(ExtractSpec(d, keys, sel).value)
  {
    var es, s := ExtractSpec(d, keys, sel).value, Selected(keys, sel);
    var courseToFac := CourseToFac(d.courses);
    ExtractEntries(d, keys, sel);
    CourseToFacOfUniqueIds(d.courses);
    forall i, j | 0 <= i < j < |es| && es[i].timeslotId == es[j].timeslotId
      ensures es[i].facultyId != es[j].facultyId
    {
      if es[i].facultyId == es[j].facultyId {
        assert s[i] in keys && s[j] in keys;
        var jt :| 0 <= jt < |d.timeslots| && d.timeslots[jt].id == s[i].slot;
        var mf :| 0 <= mf < |d.faculties| && d.faculties[mf].id == es[i].facultyId;
        var q := SlotAndFaculty(d.timeslots[jt].id, d.faculties[mf].id, courseToFac);
        assert Matches(q, s[i]);
        assert Matches(q, s[j]);
        CountTwo(s, q, i, j);
      }
    }
  }

  /** With distinct course and classroom ids, every entry drawn from the
      candidate keys has a classroom that seats its course. */
  lemma ExtractedCapacity(d: Dataset, keys: seq<Key>, sel: set<Key>)
    requires Grounded(d, keys)
    requires UniqueCourseIds(d.courses) && UniqueClassroomIds(d.classrooms)
    requires forall k | k in keys :: IsCandidate(d.courses, d.timeslots, d.classrooms, k)
    requires ExtractSpec(d, keys, sel).Ok?
    ensures CapacityRespected(d, ExtractSpec(d, keys, sel).value)
  {
    var es, s := ExtractSpec(d, keys, sel).value, Selected(keys, sel);
    ExtractEntries(d, keys, sel);
    forall p | 0 <= p < |es|
      ensures HasCourse(d.courses, es[p].courseId) && HasClassroom(d.classrooms, es[p].classroomId)
      ensures ClassroomById(d.classrooms, es[p].classroomId).capacity >= CourseById(d.courses, es[p].courseId).size
    {
      var k := s[p];
      assert IsCandidate(d.courses, d.timeslots, d.classrooms, k);
      var i :| 0 <= i < |d.courses| && FitsSomeSlot(d.courses[i], d.timeslots, d.classrooms, k);
      var j :| 0 <= j < |d.timeslots| && FitsSomeRoom(d.courses[i], d.timeslots[j], d.classrooms, k);
      var l :| 0 <= l < |d.classrooms| && Fits(d.courses[i], d.timeslots[j], d.classrooms[l], k);
      assert CourseById(d.courses, k.course) == d.courses[i];
      assert ClassroomById(d.classrooms, k.room) == d.classrooms[l];
    }
  }

  /** The decision variables name listed records only. */
  lemma CandidateKeysGrounded(d: Dataset)
    ensures Grounded(d, CandidateKeys(d))
    ensures forall k | k in CandidateKeys(d) :: IsCandidate(d.courses, d.timeslots, d.classrooms, k)
  {
    CandidateKeysExact(d);
    forall k | k in CandidateKeys(d)
      ensures HasCourse(d.courses, k.course) && HasTimeslot(d.timeslots, k.slot) && HasClassroom(d.classrooms, k.room)
    {
      var i :| 0 <= i < |d.courses| && FitsSomeSlot(d.courses[i], d.timeslots, d.classrooms, k);
      var j :| 0 <= j < |d.timeslots| && FitsSomeRoom(d.courses[i], d.timeslots[j], d.classrooms, k);
      var l :| 0 <= l < |d.classrooms| && Fits(d.courses[i], d.timeslots[j], d.classrooms[l], k);
    }
  }
}
