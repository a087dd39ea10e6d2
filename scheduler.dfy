/** One timetable generation run: load, normalize, build the candidate
    variables, fail early where no model can be built, take the solver's
    answer, clear the previous timetable and store the extracted entries. */
module Scheduler {
  import opened Records
  import opened Normalizer
  import opened ModelBuilder
  import opened Extractor

  /** The statuses the solver can report. */
  datatype Status = Optimal | Feasible | Infeasible | ModelInvalid | Unknown {
    /** Only these two statuses carry an assignment. */
    predicate Solved() {
      this == Optimal || this == Feasible
    }
  }

  /** How a run ends. `Success` is the run returning True; `FacultyNotFound` is
      the StopIteration that the faculty lookup raises out of the run; every
      other outcome is the run returning False. */
  datatype Outcome =
    | DataFileMissing
    | InsufficientData
    | NoCandidate(course: Course)
    | NoSolution(status: Status)
    | FacultyNotFound(facultyId: int)
    | Success(entries: seq<Entry>)

  /** The run's outcome, given the dataset file's contents (None when the file
      does not exist) and the solver's status and selection. `FacultyNotFound`
      is the StopIteration raised by the faculty lookup of the extraction loop. */
  function Generate(raw: Option<RawDataset>, status: Status, sel: set<Key>): Outcome {
    match raw
    case None => DataFileMissing
    case Some(data) => Run(Normalize(data), status, sel)
  }

  /** The run from the normalized dataset on. */
  function Run(d: Dataset, status: Status, sel: set<Key>): Outcome {
    if |d.courses| == 0 || |d.timeslots| == 0 || |d.classrooms| == 0 then InsufficientData
    else
      var keys := CandidateKeys(d);
      match FirstUncoverable(d.courses, keys)
      case Some(c) => NoCandidate(c)
      case None =>
        if !status.Solved() then NoSolution(status)
        else
          CandidateKeysGrounded(d);
          match ExtractSpec(d, keys, sel)
          case Err(f) => FacultyNotFound(f)
          case Ok(es) => Success(es)
  }

  /** The solver's guarantee: a solved status comes with a selection that
      satisfies every posted constraint. */
  predicate SolverSound(d: Dataset, status: Status, sel: set<Key>) {
    status.Solved() ==> ConstraintsHold(d, CandidateKeys(d), sel)
  }

  /** The persisted timetable: the rows of the timetable table, which the
      export files mirror. */
  class TimetableStore {
    var entries: seq<Entry>

    constructor (initial: seq<Entry>)
      ensures entries == initial
    {
      entries := initial;
    }

    /** Deleting every timetable row. */
    method Clear()
      modifies this
      ensures entries == []
    {
      entries := [];
    }

    /** Adding the rows of one run and committing them. */
    method Commit(es: seq<Entry>)
      modifies this
      ensures entries == old(entries) + es
    {
      entries := entries + es;
    }
  }

  /** The coverage-constraint loop's early exit: the first course, in list
      order, without any decision variable. */
  method CheckCoverable(courses: seq<Course>, keys: seq<Key>) returns (r: Option<Course>)
    ensures r == FirstUncoverable(courses, keys)
  {
    var i := 0;
    while i < |courses|
      invariant 0 <= i <= |courses|
      invariant forall i' | 0 <= i' < i :: HasKeyFor(keys, courses[i'].id)
    {
      if !HasKeyFor(keys, courses[i].id) {
        var first := FirstUncoverable(courses, keys);
        var i0 :| 0 <= i0 < |courses| && courses[i0] == first.value
          && !HasKeyFor(keys, courses[i0].id) && forall i' | 0 <= i' < i0 :: HasKeyFor(keys, courses[i'].id);
        assert i0 == i;
        return Some(courses[i]);
      }
      i := i + 1;
    }
    return None;
  }

  /** `generate_timetable`. `ok` is its True on success and its False on the
      failures it reports itself; on `FacultyNotFound` the source returns
      nothing but raises StopIteration, and `ok == false` stands for that
      exception. The store is replaced by the new entries on success, left
      empty when the faculty lookup raises after the clear, and untouched by
      every other failure. */
  method GenerateTimetable(raw: Option<RawDataset>, status: Status, sel: set<Key>, store: TimetableStore)
    returns (ok: bool, outcome: Outcome)
    modifies store
    ensures outcome == Generate(raw, status, sel)
    ensures ok <==> outcome.Success?
    ensures outcome.Success? ==> store.entries == outcome.entries
    ensures outcome.FacultyNotFound? ==> store.entries == []
    ensures !outcome.Success? && !outcome.FacultyNotFound? ==> store.entries == old(store.entries)
  {
    if raw.None? {
      return false, DataFileMissing;
    }
    var d := NormalizeData(raw.value);
    if |d.courses| == 0 || |d.timeslots| == 0 || |d.classrooms| == 0 {
      return false, InsufficientData;
    }
    var keys := BuildCandidates(d.courses, d.timeslots, d.classrooms);
    assert keys == CandidateKeys(d);
    var uncoverable := CheckCoverable(d.courses, keys);
    if uncoverable.Some? {
      return false, NoCandidate(uncoverable.value);
    }
    if !status.Solved() {
      return false, NoSolution(status);
    }
    store.Clear();
    CandidateKeysGrounded(d);
    var r := Extract(d, keys, sel);
    match r
    case Err(f) =>
      return false, FacultyNotFound(f);
    case Ok(es) =>
      store.Commit(es);
      return true, Success(es);
  }

  // What a run promises, stated on its outcome.

  /** The model is built: all three of courses, timeslots and classrooms are
      listed, and every course has a decision variable. */
  predicate ModelBuilt(d: Dataset) {
    && |d.courses| > 0 && |d.timeslots| > 0 && |d.classrooms| > 0
    && forall i | 0 <= i < |d.courses| :: HasKeyFor(CandidateKeys(d), d.courses[i].id)
  }

  /** The run gets past the build exactly when `ModelBuilt` holds; from then on
      the solver's status decides whether the old timetable is cleared (an
      extraction outcome) or the run ends with the status. */
  lemma RunStages(d: Dataset, status: Status, sel: set<Key>)
    ensures Run(d, status, sel).InsufficientData? <==> |d.courses| == 0 || |d.timeslots| == 0 || |d.classrooms| == 0
    ensures Run(d, status, sel).NoCandidate? <==>
      |d.courses| > 0 && |d.timeslots| > 0 && |d.classrooms| > 0 && !ModelBuilt(d)
    ensures Run(d, status, sel).NoSolution? <==> ModelBuilt(d) && !status.Solved()
    ensures Run(d, status, sel).Success? || Run(d, status, sel).FacultyNotFound? <==> ModelBuilt(d) && status.Solved()
  {
  }

  /** No classroom seats course `i` of the raw dataset, both sizes with their
      defaults filled in. */
  predicate Unseatable(raw: RawDataset, i: int)
    requires 0 <= i < |raw.courses|
  {
    forall l | 0 <= l < |raw.classrooms| ::
      raw.classrooms[l].capacity.GetOr(DefaultCapacity) < raw.courses[i].size.GetOr(DefaultSize)
  }

  /** With distinct course ids and some timeslot, the `i`-th course has a
      decision variable exactly when some classroom seats it. */
  lemma CoverableIffSeatable(d: Dataset, i: int)
    requires UniqueCourseIds(d.courses)
    requires 0 <= i < |d.courses| && |d.timeslots| > 0
    ensures HasKeyFor(CandidateKeys(d), d.courses[i].id) <==>
      exists l | 0 <= l < |d.classrooms| :: d.classrooms[l].capacity >= d.courses[i].size
  {
    HasKeyForIff(d, d.courses[i].id);
  }

  /** No classroom of `d` seats its `i`-th course. */
  predicate UnseatableIn(d: Dataset, i: int)
    requires 0 <= i < |d.courses|
  {
    forall l | 0 <= l < |d.classrooms| :: d.classrooms[l].capacity < d.courses[i].size
  }

  /** With distinct course ids and non-empty lists, the build fails exactly
      when some course is unseatable, and it names the first such course. */
  lemma RunNoCandidate(d: Dataset, status: Status, sel: set<Key>)
    requires UniqueCourseIds(d.courses)
    requires |d.courses| > 0 && |d.timeslots| > 0 && |d.classrooms| > 0
    ensures Run(d, status, sel).NoCandidate? <==> exists i | 0 <= i < |d.courses| :: UnseatableIn(d, i)
    ensures Run(d, status, sel).NoCandidate? ==>
      exists i | 0 <= i < |d.courses| ::
        && UnseatableIn(d, i)
        && (forall i' | 0 <= i' < i :: !UnseatableIn(d, i'))
        && Run(d, status, sel).course == d.courses[i]
  {
    forall i | 0 <= i < |d.courses|
      ensures HasKeyFor(CandidateKeys(d), d.courses[i].id) <==> !UnseatableIn(d, i)
    {
      CoverableIffSeatable(d, i);
    }
  }

  /** Unseatability of a raw course is unseatability of its normalized record. */
  lemma UnseatableNormalized(raw: RawDataset)
    ensures |Normalize(raw).courses| == |raw.courses|
    ensures forall i | 0 <= i < |raw.courses| :: Unseatable(raw, i) == UnseatableIn(Normalize(raw), i)
  {
    NormalizeLengths(raw);
    NormalizedSizes(raw);
  }

  /** A course that no classroom can seat fails the build, whatever the solver
      would report, and only such a course does: with distinct identifiers and
      non-empty lists, the run ends with `NoCandidate` exactly when some course
      is unseatable, naming the first one. */
  lemma UnseatableCourseFailsBuild(raw: RawDataset, status: Status, sel: set<Key>)
    requires DistinctRawIds(raw)
    requires |raw.courses| > 0 && |raw.timeslots| > 0 && |raw.classrooms| > 0
    ensures Generate(Some(raw), status, sel).NoCandidate? <==> exists i | 0 <= i < |raw.courses| :: Unseatable(raw, i)
    ensures Generate(Some(raw), status, sel).NoCandidate? ==>
      exists i | 0 <= i < |raw.courses| ::
        && Unseatable(raw, i)
        && (forall i' | 0 <= i' < i :: !Unseatable(raw, i'))
        && Generate(Some(raw), status, sel).course == Normalize(raw).courses[i]
  {
    var d := Normalize(raw);
    assert Generate(Some(raw), status, sel) == Run(d, status, sel);
    NormalizeUniqueIds(raw);
    UnseatableNormalized(raw);
    RunNoCandidate(d, status, sel);
    FirstUnseatableTranslates(raw, d, Run(d, status, sel));
  }

  /** The build outcome, stated on normalized courses, restated on raw ones. */
  lemma FirstUnseatableTranslates(raw: RawDataset, d: Dataset, out: Outcome)
    requires |d.courses| == |raw.courses|
    requires forall i | 0 <= i < |raw.courses| :: Unseatable(raw, i) == UnseatableIn(d, i)
    requires out.NoCandidate? <==> exists i | 0 <= i < |d.courses| :: UnseatableIn(d, i)
    requires out.NoCandidate? ==>
      exists i | 0 <= i < |d.courses| ::
        UnseatableIn(d, i) && (forall i' | 0 <= i' < i :: !UnseatableIn(d, i')) && out.course == d.courses[i]
    ensures out.NoCandidate? <==> exists i | 0 <= i < |raw.courses| :: Unseatable(raw, i)
    ensures out.NoCandidate? ==>
      exists i | 0 <= i < |raw.courses| ::
        Unseatable(raw, i) && (forall i' | 0 <= i' < i :: !Unseatable(raw, i')) && out.course == d.courses[i]
  {
    if j :| 0 <= j < |raw.courses| && Unseatable(raw, j) {
      assert UnseatableIn(d, j);
    }
    if out.NoCandidate? {
      var i :| 0 <= i < |d.courses| && UnseatableIn(d, i) && (forall i' | 0 <= i' < i :: !UnseatableIn(d, i'))
        && out.course == d.courses[i];
      assert Unseatable(raw, i);
    }
  }
  /** A successful run stores one entry per selected decision variable, in
      candidate-key order: each entry is its key's `EntryFor`, so it carries the
      key's course, timeslot and classroom and the faculty id of the first
      course with the key's course id. */
  lemma RunSuccessEntries(d: Dataset, status: Status, sel: set<Key>)
    requires Run(d, status, sel).Success?
    ensures Grounded(d, CandidateKeys(d))
    ensures var es, s := Run(d, status, sel).entries, Selected(CandidateKeys(d), sel);
      && |es| == |s|
      && forall i | 0 <= i < |s| :: s[i] in CandidateKeys(d) && EntryFor(d, s[i]) == Some(es[i])
    ensures var es, s := Run(d, status, sel).entries, Selected(CandidateKeys(d), sel);
      && |es| == |s|
      && forall i | 0 <= i < |s| ::
           && es[i].courseId == s[i].course && es[i].timeslotId == s[i].slot && es[i].classroomId == s[i].room
           && es[i].facultyId == CourseById(d.courses, s[i].course).facultyId
           && exists c | 0 <= c < |d.courses| :: d.courses[c].id == s[i].course && d.courses[c].facultyId == es[i].facultyId
  {
    var keys := CandidateKeys(d);
    CandidateKeysGrounded(d);
    ExtractEntries(d, keys, sel);
    var es, s := Run(d, status, sel).entries, Selected(keys, sel);
    forall i | 0 <= i < |s|
      ensures exists c | 0 <= c < |d.courses| :: d.courses[c].id == s[i].course && d.courses[c].facultyId == es[i].facultyId
    {
      assert s[i] in keys;
      var course := CourseById(d.courses, s[i].course);
      var c :| 0 <= c < |d.courses| && d.courses[c] == course && course.id == s[i].course;
    }
  }

  /** When the solver keeps its promise, a successful run's entries give every
      course exactly its sessions and never double-book a classroom; with
      distinct course and classroom ids they also never double-book a faculty
      and always seat the course. */
  lemma RunSuccessIsValid(d: Dataset, status: Status, sel: set<Key>)
    requires SolverSound(d, status, sel)
    requires Run(d, status, sel).Success?
    ensures EntriesCover(d, Run(d, status, sel).entries)
    ensures RoomsExclusive(Run(d, status, sel).entries)
    ensures UniqueCourseIds(d.courses) ==> FacultiesExclusive(Run(d, status, sel).entries)
    ensures UniqueCourseIds(d.courses) && UniqueClassroomIds(d.classrooms) ==>
      CapacityRespected(d, Run(d, status, sel).entries)
  {
    var keys := CandidateKeys(d);
    CandidateKeysGrounded(d);
    ExtractedCoverage(d, keys, sel);
    ExtractedRoomsExclusive(d, keys, sel);
    if UniqueCourseIds(d.courses) {
      ExtractedFacultiesExclusive(d, keys, sel);
      if UniqueClassroomIds(d.classrooms) {
        ExtractedCapacity(d, keys, sel);
      }
    }
  }

  /** When every course's faculty id is carried by a listed faculty, the
      faculty lookup never raises. */
  lemma RunNeverAbortsWhenFacultiesResolve(d: Dataset, status: Status, sel: set<Key>)
    requires forall i | 0 <= i < |d.courses| :: HasFaculty(d.faculties, d.courses[i].facultyId)
    ensures !Run(d, status, sel).FacultyNotFound?
  {
    var keys := CandidateKeys(d);
    CandidateKeysGrounded(d);
    ExtractFails(d, keys, sel);
    forall k | k in Selected(keys, sel)
      ensures HasFaculty(d.faculties, CourseById(d.courses, k.course).facultyId)
    {
      var course := CourseById(d.courses, k.course);
      var c :| 0 <= c < |d.courses| && d.courses[c] == course;
    }
  }

  /** With no faculty listed, every selected key's faculty lookup raises, so
      extraction succeeds only on an empty selection. */
  lemma ExtractWithoutFaculties(d: Dataset, keys: seq<Key>, sel: set<Key>)
    requires Grounded(d, keys)
    requires d.faculties == []
    requires forall i | 0 <= i < |d.courses| :: d.courses[i].facultyId == DefaultFaculty
    ensures ExtractSpec(d, keys, sel) ==
      if |Selected(keys, sel)| == 0 then Ok([]) else Err(DefaultFaculty)
  {
    ExtractFails(d, keys, sel);
    var s := Selected(keys, sel);
    var r := ExtractSpec(d, keys, sel);
    if |s| == 0 {
      ExtractEntries(d, keys, sel);
    } else {
      assert s[0] in s;
      assert !HasFaculty(d.faculties, CourseById(d.courses, s[0].course).facultyId);
      assert r.Err?;
      var k :| k in s && CourseById(d.courses, k.course).facultyId == r.error;
      var course := CourseById(d.courses, k.course);
      var c :| 0 <= c < |d.courses| && d.courses[c] == course;
    }
  }

  /** When no faculty is listed and every course has faculty id 1, a built and
      solved run succeeds only with an empty selection and otherwise fails on
      faculty id 1, after the old timetable has been cleared. */
  lemma RunWithoutFaculties(d: Dataset, status: Status, sel: set<Key>)
    requires d.faculties == []
    requires forall i | 0 <= i < |d.courses| :: d.courses[i].facultyId == DefaultFaculty
    requires ModelBuilt(d) && status.Solved()
    ensures Run(d, status, sel) ==
      if |Selected(CandidateKeys(d), sel)| == 0 then Success([]) else FacultyNotFound(DefaultFaculty)
  {
    var keys := CandidateKeys(d);
    CandidateKeysGrounded(d);
    var r := ExtractSpec(d, keys, sel);
    assert Run(d, status, sel) == if r.Err? then FacultyNotFound(r.error) else Success(r.value);
    ExtractWithoutFaculties(d, keys, sel);
  }

  /** With distinct course ids, under the solver's promise two sessions of one
      course never share a timeslot: both belong to the course's faculty. */
  lemma RunSessionsUseDistinctSlots(d: Dataset, status: Status, sel: set<Key>)
    requires UniqueCourseIds(d.courses)
    requires SolverSound(d, status, sel)
    requires Run(d, status, sel).Success?
    ensures var es := Run(d, status, sel).entries;
      forall i, j | 0 <= i < j < |es| && es[i].courseId == es[j].courseId :: es[i].timeslotId != es[j].timeslotId
  {
    var es := Run(d, status, sel).entries;
    var s := Selected(CandidateKeys(d), sel);
    RunSuccessEntries(d, status, sel);
    RunSuccessIsValid(d, status, sel);
    forall i, j | 0 <= i < j < |es| && es[i].courseId == es[j].courseId
      ensures es[i].timeslotId != es[j].timeslotId
    {
      var ci :| 0 <= ci < |d.courses| && d.courses[ci].id == s[i].course && d.courses[ci].facultyId == es[i].facultyId;
      var cj :| 0 <= cj < |d.courses| && d.courses[cj].id == s[j].course && d.courses[cj].facultyId == es[j].facultyId;
      assert ci == cj;
    }
  }

  /** With a single timeslot and distinct course ids, a decision variable of
      course `i` counts towards the faculty constraint of that course's
      faculty in that timeslot. */
  lemma SingleSlotKeyMatchesFaculty(d: Dataset, k: Key, i: int)
    requires UniqueCourseIds(d.courses)
    requires |d.timeslots| == 1
    requires 0 <= i < |d.courses| && k.course == d.courses[i].id
    requires k in CandidateKeys(d)
    ensures Matches(SlotAndFaculty(d.timeslots[0].id, d.courses[i].facultyId, CourseToFac(d.courses)), k)
  {
    CandidateKeysExact(d);
    assert IsCandidate(d.courses, d.timeslots, d.classrooms, k);
    var i' :| 0 <= i' < |d.courses| && FitsSomeSlot(d.courses[i'], d.timeslots, d.classrooms, k);
    var j :| 0 <= j < |d.timeslots| && FitsSomeRoom(d.courses[i'], d.timeslots[j], d.classrooms, k);
    assert k.slot == d.timeslots[0].id;
    CourseToFacOfUniqueIds(d.courses);
    assert CourseToFac(d.courses)[d.courses[i].id] == d.courses[i].facultyId;
  }

  /** Two courses with distinct ids, both needing a session and both mapped to
      one listed faculty, cannot both be placed when there is a single
      timeslot: no selection satisfies the posted constraints. */
  lemma SharedFacultySingleSlotInfeasible(d: Dataset, sel: set<Key>, i1: int, i2: int, m: int)
    requires UniqueCourseIds(d.courses)
    requires |d.timeslots| == 1
    requires 0 <= i1 < |d.courses| && 0 <= i2 < |d.courses| && i1 != i2
    requires 0 <= m < |d.faculties|
    requires d.courses[i1].facultyId == d.faculties[m].id && d.courses[i2].facultyId == d.faculties[m].id
    requires d.courses[i1].sessionsPerWeek >= 1 && d.courses[i2].sessionsPerWeek >= 1
    ensures !ConstraintsHold(d, CandidateKeys(d), sel)
  {
    var keys := CandidateKeys(d);
    var s := Selected(keys, sel);
    var q := SlotAndFaculty(d.timeslots[0].id, d.faculties[m].id, CourseToFac(d.courses));
    if Coverage(d, keys, sel) {
      assert Count(s, CourseIs(d.courses[i1].id)) == d.courses[i1].sessionsPerWeek;
      assert Count(s, CourseIs(d.courses[i2].id)) == d.courses[i2].sessionsPerWeek;
      CountPositive(s, CourseIs(d.courses[i1].id));
      CountPositive(s, CourseIs(d.courses[i2].id));
      var p1 :| 0 <= p1 < |s| && Matches(CourseIs(d.courses[i1].id), s[p1]);
      var p2 :| 0 <= p2 < |s| && Matches(CourseIs(d.courses[i2].id), s[p2]);
      assert s[p1] in keys && s[p2] in keys;
      SingleSlotKeyMatchesFaculty(d, s[p1], i1);
      SingleSlotKeyMatchesFaculty(d, s[p2], i2);
      if p1 < p2 {
        CountTwo(s, q, p1, p2);
      } else {
        CountTwo(s, q, p2, p1);
      }
      assert !FacultyExclusive(d, keys, sel);
    }
  }

  // The same promises stated on the uploaded dataset.

  /** Under the solver's promise, a successful run stores a valid timetable:
      every course gets exactly its sessions and no classroom is double-booked;
      with distinct identifiers no faculty is double-booked either and every
      classroom seats its course. */
  lemma SuccessIsValidTimetable(raw: RawDataset, status: Status, sel: set<Key>)
    requires SolverSound(Normalize(raw), status, sel)
    requires Generate(Some(raw), status, sel).Success?
    ensures EntriesCover(Normalize(raw), Generate(Some(raw), status, sel).entries)
    ensures RoomsExclusive(Generate(Some(raw), status, sel).entries)
    ensures DistinctRawIds(raw) ==> FacultiesExclusive(Generate(Some(raw), status, sel).entries)
    ensures DistinctRawIds(raw) ==> CapacityRespected(Normalize(raw), Generate(Some(raw), status, sel).entries)
  {
    var d := Normalize(raw);
    assert Generate(Some(raw), status, sel) == Run(d, status, sel);
    RunSuccessIsValid(d, status, sel);
    if DistinctRawIds(raw) {
      NormalizeUniqueIds(raw);
    }
  }

  /** With distinct identifiers, under the solver's promise two sessions of one
      course in a successful run never share a timeslot. */
  lemma SessionsUseDistinctSlots(raw: RawDataset, status: Status, sel: set<Key>)
    requires DistinctRawIds(raw)
    requires SolverSound(Normalize(raw), status, sel)
    requires Generate(Some(raw), status, sel).Success?
    ensures var es := Generate(Some(raw), status, sel).entries;
      forall i, j | 0 <= i < j < |es| && es[i].courseId == es[j].courseId :: es[i].timeslotId != es[j].timeslotId
  {
    var d := Normalize(raw);
    assert Generate(Some(raw), status, sel) == Run(d, status, sel);
    NormalizeUniqueIds(raw);
    RunSessionsUseDistinctSlots(d, status, sel);
  }

  /** With a non-empty faculty list of distinct identifiers, the faculty lookup
      never raises, whatever the courses reference. */
  lemma ListedFacultiesNeverAbort(raw: RawDataset, status: Status, sel: set<Key>)
    requires |raw.faculties| > 0 && Distinct(FacultyRawIds(raw.faculties))
    ensures !Generate(Some(raw), status, sel).FacultyNotFound?
  {
    var d := Normalize(raw);
    assert Generate(Some(raw), status, sel) == Run(d, status, sel);
    NormalizeLengths(raw);
    FacultyReferencesResolve(raw);
    RunNeverAbortsWhenFacultiesResolve(d, status, sel);
  }

  /** With an empty faculty list, every course defaults to faculty 1, so a
      built and solved run fails on faculty 1, after the old timetable is
      cleared, unless the solver selected nothing. */
  lemma EmptyFacultyListAborts(raw: RawDataset, status: Status, sel: set<Key>)
    requires |raw.faculties| == 0
    requires ModelBuilt(Normalize(raw)) && status.Solved()
    ensures Generate(Some(raw), status, sel) ==
      if |Selected(CandidateKeys(Normalize(raw)), sel)| == 0 then Success([]) else FacultyNotFound(DefaultFaculty)
  {
    var d := Normalize(raw);
    assert Generate(Some(raw), status, sel) == Run(d, status, sel);
    EmptyFacultyListDefaultsToMissingFaculty(raw);
    RunWithoutFaculties(d, status, sel);
  }

  /** Two courses of one listed faculty, each needing at least one session, with
      a single timeslot: the solver cannot report a solution, so the run never
      clears the old timetable. */
  lemma SharedFacultySingleSlotNeverSolves(raw: RawDataset, status: Status, sel: set<Key>, i1: int, i2: int, m: int)
    requires DistinctRawIds(raw)
    requires SolverSound(Normalize(raw), status, sel)
    requires |raw.timeslots| == 1
    requires 0 <= i1 < |raw.courses| && 0 <= i2 < |raw.courses| && i1 != i2
    requires 0 <= m < |raw.faculties|
    requires raw.courses[i1].facultyRef == raw.faculties[m].id && raw.courses[i2].facultyRef == raw.faculties[m].id
    requires raw.courses[i1].requiredSlots.GetOr(DefaultSessions) >= 1
    requires raw.courses[i2].requiredSlots.GetOr(DefaultSessions) >= 1
    ensures !status.Solved()
    ensures !Generate(Some(raw), status, sel).Success? && !Generate(Some(raw), status, sel).FacultyNotFound?
  {
    var d := Normalize(raw);
    assert Generate(Some(raw), status, sel) == Run(d, status, sel);
    NormalizeLengths(raw);
    NormalizeUniqueIds(raw);
    NormalizedCourseAt(raw, i1);
    NormalizedCourseAt(raw, i2);
    CourseDefaults(raw, i1);
    CourseDefaults(raw, i2);
    var m' :| 0 <= m' < |raw.faculties| && d.faculties[m'].id == d.courses[i1].facultyId;
    SharedFacultySingleSlotInfeasible(d, sel, i1, i2, m');
    RunStages(d, status, sel);
  }

  /** An upload with two courses under one identifier: a large course and a
      small one, one classroom, one timeslot, one faculty. */
  function DuplicateCourseUpload(): RawDataset {
    RawDataset(
      [RawFaculty(Num(1), "F")],
      [RawCourse(Str("A"), "Big", Some(1), Some(100), Num(1)), RawCourse(Str("A"), "Small", Some(1), Some(10), Num(1))],
      [RawClassroom(Num(1), "R", Some(50), None)],
      [RawTimeslot(Num(1), "Mon")])
  }

  /** Both courses of that upload get internal id 2, the last position of
      their shared identifier. */
  lemma DuplicateCourseUploadNormalizes()
    ensures Normalize(DuplicateCourseUpload()).faculties == [Faculty(1, "F", Num(1))]
    ensures Normalize(DuplicateCourseUpload()).courses ==
      [Course(2, "Big", 1, 100, 1, Str("A")), Course(2, "Small", 1, 10, 1, Str("A"))]
    ensures Normalize(DuplicateCourseUpload()).classrooms == [Classroom(1, "R", 50, DefaultKind, Num(1))]
    ensures Normalize(DuplicateCourseUpload()).timeslots == [Timeslot(1, "Mon", Num(1))]
  {
    DuplicateCourseUploadCourses();
    DuplicateCourseUploadOthers();
  }

  lemma DuplicateCourseUploadCourses()
    ensures Normalize(DuplicateCourseUpload()).courses ==
      [Course(2, "Big", 1, 100, 1, Str("A")), Course(2, "Small", 1, 10, 1, Str("A"))]
  {
    var raw := DuplicateCourseUpload();
    DuplicateCourseUploadIdMaps();
    NormalizedCourseAt(raw, 0);
    NormalizedCourseAt(raw, 1);
  }

  lemma DuplicateCourseUploadOthers()
    ensures Normalize(DuplicateCourseUpload()).faculties == [Faculty(1, "F", Num(1))]
    ensures Normalize(DuplicateCourseUpload()).classrooms == [Classroom(1, "R", 50, DefaultKind, Num(1))]
    ensures Normalize(DuplicateCourseUpload()).timeslots == [Timeslot(1, "Mon", Num(1))]
  {
    var raw := DuplicateCourseUpload();
    DuplicateCourseUploadIdMaps();
    NormalizedFaculties(raw);
    assert Normalize(raw).classrooms == NormalizeClassrooms(raw.classrooms, map[Num(1) := 1]);
    assert Normalize(raw).timeslots == NormalizeTimeslots(raw.timeslots, map[Num(1) := 1]);
  }

  /** The id maps of that upload: the shared course identifier maps to 2. */
  lemma DuplicateCourseUploadIdMaps()
    ensures IdMap(FacultyRawIds(DuplicateCourseUpload().faculties)) == map[Num(1) := 1]
    ensures IdMap(CourseRawIds(DuplicateCourseUpload().courses)) == map[Str("A") := 2]
    ensures IdMap(ClassroomRawIds(DuplicateCourseUpload().classrooms)) == map[Num(1) := 1]
    ensures IdMap(TimeslotRawIds(DuplicateCourseUpload().timeslots)) == map[Num(1) := 1]
  {
    var raw := DuplicateCourseUpload();
    assert FacultyRawIds(raw.faculties) == [Num(1)];
    assert CourseRawIds(raw.courses) == [Str("A"), Str("A")];
    assert ClassroomRawIds(raw.classrooms) == [Num(1)];
    assert TimeslotRawIds(raw.timeslots) == [Num(1)];
  }

  /** On those records only the small course fits the classroom, so there is
      one decision variable. */
  lemma DuplicateCourseCandidates(d: Dataset)
    requires d.courses == [Course(2, "Big", 1, 100, 1, Str("A")), Course(2, "Small", 1, 10, 1, Str("A"))]
    requires d.classrooms == [Classroom(1, "R", 50, DefaultKind, Num(1))]
    requires d.timeslots == [Timeslot(1, "Mon", Num(1))]
    ensures CandidateKeys(d) == [Key(2, 1, 1)]
  {
    var big, small, room, slot := d.courses[0], d.courses[1], d.classrooms[0], d.timeslots[0];
    assert d.courses[..1] == [big];
    assert [big][..0] == [];
    assert d.timeslots[..0] == [];
    assert d.classrooms[..0] == [];
    assert RoomTriples(big, slot, d.classrooms) == [];
    assert SlotTriples(big, d.timeslots, d.classrooms) == [];
    assert Triples([big], d.timeslots, d.classrooms) == [];
    assert RoomTriples(small, slot, d.classrooms) == [Key(2, 1, 1)];
    assert SlotTriples(small, d.timeslots, d.classrooms) == [Key(2, 1, 1)];
    assert Triples(d.courses, d.timeslots, d.classrooms) == [Key(2, 1, 1)];
    assert InsertAll([], [Key(2, 1, 1)]) == [Key(2, 1, 1)];
  }

  /** On those records, selecting the small course's only variable satisfies
      every posted constraint. */
  lemma DuplicateCourseSolution(d: Dataset)
    requires d.faculties == [Faculty(1, "F", Num(1))]
    requires d.courses == [Course(2, "Big", 1, 100, 1, Str("A")), Course(2, "Small", 1, 10, 1, Str("A"))]
    requires d.classrooms == [Classroom(1, "R", 50, DefaultKind, Num(1))]
    requires d.timeslots == [Timeslot(1, "Mon", Num(1))]
    ensures ConstraintsHold(d, CandidateKeys(d), {Key(2, 1, 1)})
  {
    var k := Key(2, 1, 1);
    var big := d.courses[0];
    DuplicateCourseCandidates(d);
    assert [k][..0] == [];
    assert Selected([k], {k}) == [k];
    assert CourseToFac(d.courses) == map[2 := 1] by {
      assert d.courses[..1] == [big];
      assert [big][..0] == [];
    }
    assert Count([k], CourseIs(2)) == 1;
    assert Count([k], SlotAndRoom(1, 1)) == 1;
    assert Count([k], SlotAndFaculty(1, 1, map[2 := 1])) == 1;
  }

  /** On those records, extracting the only variable, selected, yields the
      entry of the first course with id 2. */
  lemma DuplicateCourseExtract(d: Dataset)
    requires d.faculties == [Faculty(1, "F", Num(1))]
    requires d.courses == [Course(2, "Big", 1, 100, 1, Str("A")), Course(2, "Small", 1, 10, 1, Str("A"))]
    requires d.classrooms == [Classroom(1, "R", 50, DefaultKind, Num(1))]
    requires d.timeslots == [Timeslot(1, "Mon", Num(1))]
    ensures Grounded(d, [Key(2, 1, 1)])
    ensures ExtractSpec(d, [Key(2, 1, 1)], {Key(2, 1, 1)}) == Ok([Entry(2, 1, 1, 1, "Big", "F", "R", "Mon")])
  {
    var k := Key(2, 1, 1);
    assert d.courses[0].id == 2 && d.timeslots[0].id == 1 && d.classrooms[0].id == 1;
    assert CourseById(d.courses, 2) == d.courses[0];
    assert ClassroomById(d.classrooms, 1) == d.classrooms[0];
    var e := Entry(2, 1, 1, 1, "Big", "F", "R", "Mon");
    assert EntryFor(d, k) == Some(e);
    assert [k][..0] == [];
    assert ExtractSpec(d, [], {k}) == Ok([]);
    assert [] + [e] == [e];
  }

  /** On those records the run with that selection stores one entry, which
      seats the large course in the classroom that holds 50. */
  lemma DuplicateCourseRun(d: Dataset)
    requires d.faculties == [Faculty(1, "F", Num(1))]
    requires d.courses == [Course(2, "Big", 1, 100, 1, Str("A")), Course(2, "Small", 1, 10, 1, Str("A"))]
    requires d.classrooms == [Classroom(1, "R", 50, DefaultKind, Num(1))]
    requires d.timeslots == [Timeslot(1, "Mon", Num(1))]
    ensures Run(d, Optimal, {Key(2, 1, 1)}) == Success([Entry(2, 1, 1, 1, "Big", "F", "R", "Mon")])
  {
    var k := Key(2, 1, 1);
    DuplicateCourseCandidates(d);
    assert FirstUncoverable(d.courses, [k]) == None by {
      assert HasKeyFor([k], 2);
    }
    DuplicateCourseExtract(d);
  }

  /** That entry puts the course of 100, the first record with id 2, in the
      classroom of 50. */
  lemma DuplicateCourseEntryOverfills(d: Dataset)
    requires d.courses == [Course(2, "Big", 1, 100, 1, Str("A")), Course(2, "Small", 1, 10, 1, Str("A"))]
    requires d.classrooms == [Classroom(1, "R", 50, DefaultKind, Num(1))]
    ensures !CapacityRespected(d, [Entry(2, 1, 1, 1, "Big", "F", "R", "Mon")])
  {
    var e := Entry(2, 1, 1, 1, "Big", "F", "R", "Mon");
    assert HasCourse(d.courses, 2) && HasClassroom(d.classrooms, 1) by {
      assert d.courses[0].id == 2 && d.classrooms[0].id == 1;
    }
    assert CourseById(d.courses, 2) == d.courses[0];
    assert ClassroomById(d.classrooms, 1) == d.classrooms[0];
    assert [e][0] == e;
  }

  /** The upload's first course, of size 100, does not fit its only classroom, of 50. */
  lemma DuplicateCourseUnseatable()
    ensures Unseatable(DuplicateCourseUpload(), 0)
  {
    var raw := DuplicateCourseUpload();
    assert raw.courses[0].size.GetOr(DefaultSize) == 100;
    assert raw.classrooms[0].capacity.GetOr(DefaultCapacity) == 50;
  }

  /** Why the capacity and fail-fast promises need distinct identifiers: with
      two courses uploaded under one identifier, the first fits no classroom
      and yet the build succeeds, and a selection satisfying every posted
      constraint leads to a successful run whose only entry seats that course
      of 100 in a classroom of 50. */
  lemma DuplicateCourseIdsBreakCapacity()
    ensures Unseatable(DuplicateCourseUpload(), 0)
    ensures !Generate(Some(DuplicateCourseUpload()), Optimal, {Key(2, 1, 1)}).NoCandidate?
    ensures SolverSound(Normalize(DuplicateCourseUpload()), Optimal, {Key(2, 1, 1)})
    ensures Generate(Some(DuplicateCourseUpload()), Optimal, {Key(2, 1, 1)}).Success?
    ensures !CapacityRespected(Normalize(DuplicateCourseUpload()),
      Generate(Some(DuplicateCourseUpload()), Optimal, {Key(2, 1, 1)}).entries)
  {
    DuplicateCourseUnseatable();
    var d := Normalize(DuplicateCourseUpload());
    DuplicateCourseUploadNormalizes();
    DuplicateCourseSolution(d);
    DuplicateCourseRun(d);
    DuplicateCourseEntryOverfills(d);
  }
}
