# Timetable builder model

A Dafny model of the timetable builder in `app/scheduler.py`. One generation run:

1. **Normalizer** (`_normalize_data`). Raw faculty, course, classroom and timeslot records are JSON objects whose identifiers can be of any JSON type. Each record gets an internal integer id: one more than the last position of its identifier, because the dict comprehension lets a later duplicate win. Missing optional fields get fixed defaults: 1 session, size 30, capacity 50, kind "Lecture" and faculty 1. Each record keeps its input identifier as `originalId`.
2. **Model builder**. The run stops with `InsufficientData` when the course, timeslot or classroom list is empty. Otherwise the triple loop inserts a decision variable for every (course, timeslot, classroom) whose capacity seats the course. The keys go into the `assign` dictionary: a repeated key keeps its first position. The coverage loop stops with `NoCandidate` at the first course without a variable. Three constraint families are posted:
   - exact sessions per course;
   - at most one session per (timeslot, classroom);
   - at most one session per (listed faculty, timeslot), the faculty found through `course_to_fac`.
3. **Solver**. CP-SAT is not modelled. Its answer is two parameters: a `Status` and the set of keys it set to 1. `SolverSound` states what CP-SAT guarantees for OPTIMAL and FEASIBLE: the selection satisfies every posted constraint.
4. **Extractor**. On a solved status the old timetable is cleared. Then one entry is produced per selected key, in dictionary order. The course, faculty, classroom and timeslot are looked up with `next(...)`, which takes the first match. A faculty id that no faculty record carries raises StopIteration. That aborts the run after the clear, which the model states as `FacultyNotFound`.

Files:

- `records.dfy`: raw and normalized records.
- `normalizer.dfy`: id maps, transforms and the per-collection loops.
- `model_builder.dfy`: candidate keys, the triple loop, counting and the constraint predicates.
- `extractor.dfy`: `next`-lookups, the extraction loop, and what its entries promise.
- `key_order.dfy`: the order of the decision variables.
- `scheduler.dfy`:
  - the run outcome `Generate` and its dataset-level part `Run`;
  - the persisted timetable `TimetableStore`;
  - the imperative `GenerateTimetable`;
  - end-to-end properties and a concrete example.

Several guarantees hold only when identifiers are distinct in the upload:

- no faculty is double-booked (`Extractor.ExtractedFacultiesExclusive`);
- every classroom seats its course (`Extractor.ExtractedCapacity`);
- a course that no classroom seats stops the build with `NoCandidate` (`Scheduler.RunNoCandidate`, `Scheduler.UnseatableCourseFailsBuild`);
- sessions of one course use distinct timeslots (`Scheduler.RunSessionsUseDistinctSlots`, `Scheduler.SessionsUseDistinctSlots`);
- the decision variables come course-major, then timeslot, then classroom (`KeyOrder.CandidateKeysCourseMajor`, `KeyOrder.CandidateKeysSortedByIds`).

With duplicate identifiers the source really does break the first three. `Scheduler.DuplicateCourseIdsBreakCapacity` shows such an upload: two courses share one identifier, and the first of them, of size 100, fits no classroom of 50. The build still succeeds, because the variables are keyed by the shared id and the second course fits. The solver's answer satisfies every posted constraint, and yet the only stored entry puts the course of 100 in the classroom of 50. This is why those lemmas take `DistinctRawIds` or `UniqueCourseIds` as a precondition.

## Model

| member | source | states |
|---|---|---|
| Normalizer.IdMap | app/scheduler.py:40-43 | every listed identifier is mapped, to one more than its last position in the list (a later duplicate overwrites an earlier one) |
| Normalizer.DistinctIdsAreDense | app/scheduler.py:40-43 | with distinct identifiers the k-th identifier maps to k + 1 |
| Normalizer.TransformFaculties | app/scheduler.py:46-52 | the faculty loop appends exactly the transformed records, in input order |
| Normalizer.TransformCourses | app/scheduler.py:55-64 | the course loop appends exactly the transformed records, in input order |
| Normalizer.TransformClassrooms | app/scheduler.py:67-75 | the classroom loop appends exactly the transformed records, in input order |
| Normalizer.TransformTimeslots | app/scheduler.py:78-84 | the timeslot loop appends exactly the transformed records, in input order |
| Normalizer.NormalizeData | app/scheduler.py:34-97 | the normalizer as run (four id maps, four loops) yields the normalized dataset `Normalize` |
| Normalizer.NormalizeLengths | app/scheduler.py:46-84 | each normalized list is as long as its input list |
| Normalizer.NormalizedSizes | app/scheduler.py:61-72 | course size and classroom capacity are the raw value or their defaults 30 and 50 |
| Normalizer.NormalizeKeepsFaculties | app/scheduler.py:46-52 | faculty k keeps its identifier as originalId and its name, and its id is one more than that identifier's last position |
| Normalizer.NormalizeKeepsCourses | app/scheduler.py:55-64 | the same for courses |
| Normalizer.NormalizeKeepsClassrooms | app/scheduler.py:67-75 | the same for classrooms |
| Normalizer.NormalizeKeepsTimeslots | app/scheduler.py:78-84 | the same for timeslots (label kept) |
| Normalizer.NormalizeKeepsOrderAndOriginalIds | app/scheduler.py:46-84 | all four lists keep length, order, original identifiers and names |
| Normalizer.NormalizeDenseIds | app/scheduler.py:40-84 | with distinct identifiers the k-th record of every normalized list has id k + 1 |
| Normalizer.NormalizeUniqueIds | app/scheduler.py:40-84 | with distinct identifiers, course, classroom and timeslot ids are pairwise different |
| Normalizer.FacultyRefLookup | app/scheduler.py:62 | a reference carried by some faculty is in the faculty id map and maps to the id of a faculty record with that identifier; a reference no faculty carries is not in the map |
| Normalizer.CourseDefaults | app/scheduler.py:60-62 | missing requiredSlots gives 1 session and missing size gives 30, present values are kept; a reference to a listed faculty resolves to the id of a faculty record with that identifier, any other reference gives faculty 1 |
| Normalizer.ClassroomDefaults | app/scheduler.py:72-73 | missing capacity gives 50 and missing type gives "Lecture", present values are kept |
| Normalizer.FacultyReferencesResolve | app/scheduler.py:62 | with a non-empty faculty list of distinct identifiers, every course's faculty id is carried by a listed faculty |
| Normalizer.EmptyFacultyListDefaultsToMissingFaculty | app/scheduler.py:62 | with no faculties, every course gets faculty 1, which no record carries |
| ModelBuilder.InsertAll | app/scheduler.py:132 | the dictionary's keys after inserting a sequence are exactly the old keys and the inserted ones, with no repeats |
| ModelBuilder.InsertAllAppend | app/scheduler.py:132 | inserting `a + b` is inserting `a`, then `b` |
| ModelBuilder.BuildCandidates | app/scheduler.py:127-132 | the triple loop leaves the dictionary holding `CandidateKeys` |
| ModelBuilder.InsertCourseKeys | app/scheduler.py:128-132 | the timeslot loop for one course inserts that course's feasible triples, timeslot by timeslot |
| ModelBuilder.InsertSlotKeys | app/scheduler.py:129-132 | the classroom loop for one course and timeslot inserts the triples whose classroom seats the course |
| ModelBuilder.RoomTriplesMembers | app/scheduler.py:129-132 | a key comes from the classroom loop iff some classroom seats the course and the key names it |
| ModelBuilder.SlotTriplesMembers | app/scheduler.py:128-132 | a key comes from the timeslot loop iff it fits some timeslot and classroom |
| ModelBuilder.SlotTriplesOnlyFits | app/scheduler.py:128-132 | only fitting keys come from the timeslot loop |
| ModelBuilder.SlotTriplesAllFits | app/scheduler.py:128-132 | every fitting key comes from the timeslot loop |
| ModelBuilder.TriplesMembers | app/scheduler.py:127-132 | a key is inserted iff it is a capacity-feasible triple of listed records |
| ModelBuilder.TriplesOnlyCandidates | app/scheduler.py:127-132 | only capacity-feasible triples are inserted |
| ModelBuilder.TriplesAllCandidates | app/scheduler.py:127-132 | every capacity-feasible triple is inserted |
| ModelBuilder.CandidateKeysExact | app/scheduler.py:127-132 | the decision variables are exactly the capacity-feasible triples, each once |
| ModelBuilder.CountTwo | app/scheduler.py:141-159 | two matching selected keys make a sum of at least 2 |
| ModelBuilder.CountOne | app/scheduler.py:141-159 | one matching selected key makes a sum of at least 1 |
| ModelBuilder.CountPositive | app/scheduler.py:141-159 | a positive sum has a matching selected key |
| ModelBuilder.Selected | app/scheduler.py:175-176 | the keys set to 1 are exactly the dictionary's keys in the selection |
| ModelBuilder.SelectedInKeyOrder | app/scheduler.py:175-176 | the keys set to 1 come in dictionary order: any two of them occur in the dictionary in the same relative order |
| ModelBuilder.SelectedDistinct | app/scheduler.py:175-176 | no selected key occurs twice, as no dictionary key does |
| ModelBuilder.CourseToFac | app/scheduler.py:152 | every course id is mapped, to the faculty id of a course with that id |
| ModelBuilder.CourseToFacLastWins | app/scheduler.py:152 | each course id maps to the faculty id of the last course carrying it: a later course overwrites an earlier one |
| ModelBuilder.CourseToFacOfUniqueIds | app/scheduler.py:152 | with distinct course ids every course id maps to that course's own faculty |
| ModelBuilder.FirstUncoverable | app/scheduler.py:136-140 | None iff every course has a variable; otherwise the first course, in list order, without one |
| ModelBuilder.HasKeyForIff | app/scheduler.py:127-140 | a course id has a variable iff there is a timeslot and some course with that id fits some classroom |
| Extractor.FindFirst | app/scheduler.py:177-180 | `next` returns the first element satisfying the filter, and raises exactly when none does |
| Extractor.CourseById | app/scheduler.py:177 | the first course with the key's id |
| Extractor.FacultyById | app/scheduler.py:178 | the first faculty with the course's faculty id, or none exactly when no faculty carries it |
| Extractor.ClassroomById | app/scheduler.py:179 | the first classroom with the key's id |
| Extractor.TimeslotById | app/scheduler.py:180 | the first timeslot with the key's id |
| Extractor.EntryFor | app/scheduler.py:177-196 | an entry exists iff the course's faculty is listed; it carries the key's course, timeslot and classroom and the course's faculty id |
| Extractor.ExtractErrorPersists | app/scheduler.py:175-178 | once a lookup has raised, later keys do not change the outcome |
| Extractor.Extract | app/scheduler.py:175-196 | the extraction loop returns `ExtractSpec`: the entries of the selected keys, or the first faculty id whose lookup raised |
| Extractor.ExtractEntries | app/scheduler.py:175-196 | on success there is one entry per selected key, in dictionary order, each that key's entry |
| Extractor.ExtractFails | app/scheduler.py:178 | extraction fails iff some selected key's course names an unlisted faculty id, and the failure names such an id |
| Extractor.EntriesOfCourseCountsKeys | app/scheduler.py:141 | the entries of a course are as many as its selected keys |
| Extractor.ExtractedCoverage | app/scheduler.py:141 | under the coverage constraint every course has exactly its sessions in the entries |
| Extractor.ExtractedRoomsExclusive | app/scheduler.py:144-149 | under the room constraint no two entries share a timeslot and classroom |
| Extractor.ExtractedFacultiesExclusive | app/scheduler.py:152-159 | with distinct course ids, under the faculty constraint no two entries share a timeslot and faculty |
| Extractor.ExtractedCapacity | app/scheduler.py:130 | with distinct course and classroom ids, every entry's classroom seats its course |
| Extractor.CandidateKeysGrounded | app/scheduler.py:127-132 | every decision variable names listed records and is a capacity-feasible triple |
| KeyOrder.RoomPositionsMatch | app/scheduler.py:129-132 | the classroom loop's keys are those of increasing classroom positions |
| KeyOrder.SlotPositionsMatch | app/scheduler.py:128-132 | the timeslot loop's keys are those of increasing (timeslot, classroom) positions |
| KeyOrder.PositionsMatch | app/scheduler.py:127-132 | the inserted keys are those of increasing (course, timeslot, classroom) positions |
| KeyOrder.ConcatIncreasing | app/scheduler.py:127-132 | two increasing position runs, the first before the second, form one |
| KeyOrder.InsertAllOfDistinct | app/scheduler.py:132 | inserting distinct keys into an empty dictionary keeps all of them in order |
| KeyOrder.KeyAtUnique | app/scheduler.py:131-132 | with distinct ids a key names one position |
| KeyOrder.KeyAtDistinct | app/scheduler.py:131-132 | with distinct ids different positions give different keys |
| KeyOrder.CandidateKeysCourseMajor | app/scheduler.py:127-132 | with distinct ids every inserted key is kept and the order is course-major, then timeslot, then classroom |
| KeyOrder.DenseCandidateKeysSorted | app/scheduler.py:127-132 | with dense ids the keys are sorted by course id, timeslot id, classroom id |
| KeyOrder.CandidateKeysSortedByIds | app/scheduler.py:40-132 | with distinct identifiers in the upload the keys are sorted by internal ids |
| Scheduler.TimetableStore.Clear | app/scheduler.py:169 | clearing leaves no timetable rows |
| Scheduler.TimetableStore.Commit | app/scheduler.py:198-203 | committing appends the new rows to the stored ones |
| Scheduler.CheckCoverable | app/scheduler.py:136-140 | the coverage loop's early exit returns `FirstUncoverable` |
| Scheduler.GenerateTimetable | app/scheduler.py:99-217 | `ok` holds iff the outcome is Success; the store then holds exactly the new entries; it is empty after a faculty-lookup failure and untouched by every earlier failure |
| Scheduler.RunStages | app/scheduler.py:119-169 | insufficient data, no candidate, no solution and the extraction outcomes happen exactly under their conditions |
| Scheduler.CoverableIffSeatable | app/scheduler.py:127-140 | with distinct course ids and a timeslot, a course has a variable iff some classroom seats it |
| Scheduler.RunNoCandidate | app/scheduler.py:136-140 | with distinct course ids the build fails iff some course is unseatable, and it names the first |
| Scheduler.UnseatableNormalized | app/scheduler.py:56-75 | a raw course is unseatable, defaults applied, iff its normalized record is |
| Scheduler.UnseatableCourseFailsBuild | app/scheduler.py:136-140 | with distinct identifiers, the run ends with NoCandidate iff some raw course fits no classroom, whatever the solver, and names the first such course |
| Scheduler.FirstUnseatableTranslates | app/scheduler.py:136-140 | the build outcome stated on normalized courses carries over to raw courses |
| Scheduler.RunSuccessEntries | app/scheduler.py:175-196 | a successful run stores one entry per selected key, in key order, each entry being its key's `EntryFor`: the key's ids and the faculty id of the first course with the key's course id |
| Scheduler.RunSuccessIsValid | app/scheduler.py:141-196 | under the solver's promise the stored entries cover every course exactly and never double-book a classroom; with distinct ids also no faculty, and every classroom seats its course |
| Scheduler.RunNeverAbortsWhenFacultiesResolve | app/scheduler.py:178 | if every course's faculty is listed the lookup never raises |
| Scheduler.ExtractWithoutFaculties | app/scheduler.py:178 | with no faculties and every course on faculty 1, extraction succeeds only on an empty selection, otherwise fails on faculty 1 |
| Scheduler.RunWithoutFaculties | app/scheduler.py:168-178 | the same for a built and solved run: Success([]) or FacultyNotFound(1), after the clear |
| Scheduler.RunSessionsUseDistinctSlots | app/scheduler.py:152-159 | with distinct course ids, two entries of one course never share a timeslot |
| Scheduler.SingleSlotKeyMatchesFaculty | app/scheduler.py:156-157 | with one timeslot, a variable of a course counts towards that course's faculty in that timeslot |
| Scheduler.SharedFacultySingleSlotInfeasible | app/scheduler.py:152-159 | two courses of one listed faculty, each needing a session, with one timeslot: no selection satisfies the constraints |
| Scheduler.SuccessIsValidTimetable | app/scheduler.py:113-196 | the end-to-end validity of a successful run, stated on the upload |
| Scheduler.SessionsUseDistinctSlots | app/scheduler.py:152-159 | with distinct identifiers, sessions of one course use distinct timeslots, stated on the upload |
| Scheduler.ListedFacultiesNeverAbort | app/scheduler.py:178 | a non-empty faculty list of distinct identifiers never lets the lookup raise |
| Scheduler.EmptyFacultyListAborts | app/scheduler.py:168-178 | with no faculties a built, solved run fails on faculty 1 after the clear unless nothing is selected |
| Scheduler.SharedFacultySingleSlotNeverSolves | app/scheduler.py:152-169 | two courses of one faculty with one timeslot: the solver cannot report a solution, so the timetable is never cleared |
| Scheduler.DuplicateCourseUploadIdMaps | app/scheduler.py:40-43 | the shared course identifier of the example upload maps to 2 |
| Scheduler.DuplicateCourseUploadCourses | app/scheduler.py:55-64 | both example courses get id 2 |
| Scheduler.DuplicateCourseUploadOthers | app/scheduler.py:46-84 | the example's faculty, classroom and timeslot records |
| Scheduler.DuplicateCourseUploadNormalizes | app/scheduler.py:34-97 | the example upload's normalized dataset |
| Scheduler.DuplicateCourseCandidates | app/scheduler.py:127-132 | only the small course fits, giving one variable |
| Scheduler.DuplicateCourseSolution | app/scheduler.py:136-159 | selecting it satisfies every posted constraint |
| Scheduler.DuplicateCourseExtract | app/scheduler.py:175-196 | its entry is that of the first course with id 2, the large one |
| Scheduler.DuplicateCourseRun | app/scheduler.py:113-196 | the run succeeds with that single entry |
| Scheduler.DuplicateCourseEntryOverfills | app/scheduler.py:177-179 | that entry puts the course of 100 in the classroom of 50 |
| Scheduler.DuplicateCourseUnseatable | app/scheduler.py:61-72 | the example's first course, of size 100, fits no classroom of the upload |
| Scheduler.DuplicateCourseIdsBreakCapacity | app/scheduler.py:40-196 | on an upload with a repeated course identifier whose first course fits no classroom, a sound solver answer yields a successful run whose entry overfills its classroom |

## Left out

- The CP-SAT search (app/scheduler.py:161-166), with its time limit and 8 workers, is a foreign library. Its answer is the `status` and `sel` parameters, constrained only by `SolverSound`. No distinct Timeout outcome exists: an expired time limit is the status `Unknown`, which the source treats like any other failure.
- Posting constraints with `model.Add` (app/scheduler.py:141, 149, 159) is modelled as the predicates `Coverage`, `RoomExclusive` and `FacultyExclusive` over the selection, not as a list of posted constraints. The `if vars_here` guards make no difference, since an empty sum is at most 1.
- Reading `data.json` (app/scheduler.py:105-110) is a parameter: `None` when the file is missing, otherwise the parsed dataset. Malformed JSON is not modelled.
- `_clear_timetable` (app/scheduler.py:18-32) and the writes (app/scheduler.py:198-211) are modelled only as the rows of `TimetableStore`. The JSON and Excel export files mirror those rows and are not modelled separately, and neither are transaction failures.
- Records missing a required key (`id`, `name`, `label`) raise KeyError in the source. The model's records always carry them.
- Identifiers are JSON null, integers or strings. Floats, booleans and containers are not modelled, and neither is Python's hash equality across types (`1 == 1.0 == True`).
- An optional field that is present but null is read as absent. In the source it would stay None and the capacity comparison would raise TypeError.
- Non-integer sizes, capacities and session counts are not modelled.
- Console messages, `app/main.py` (web routes, upload, the generation lock), `app/models.py` (table declarations; its default of 3 sessions is not used by this path) and `app/database.py` are not part of this model.
- Entries carry internal ids for the database and record names for the export, not the upload's identifiers.
- The session default on this path is 1; the ORM default of 3 in app/models.py is not used here.
- Entries are not re-verified after extraction, so there is no internal-consistency outcome.
- The default faculty is internal id 1, which is the first faculty only when faculty identifiers are distinct.
- Scheduler.GenerateTimetable: on `FacultyNotFound` the source does not return False; StopIteration propagates out of `generate_timetable` to the web handler's `except` branch. The model's `ok == false` with that outcome stands for the exception.
- Extractor.ExtractedFacultiesExclusive: requires distinct course ids. With a repeated course id, `course_to_fac` keeps the last course's faculty while the entry takes the first course's (see `Scheduler.DuplicateCourseIdsBreakCapacity` for the same effect on capacity).
- Extractor.ExtractedCapacity: requires distinct course and classroom ids. With a repeated id, `next` returns the first record, which need not be the one the key was built from.
- Scheduler.RunNoCandidate and Scheduler.UnseatableCourseFailsBuild: require distinct course ids (upload identifiers for the latter). With a repeated id, a course no classroom seats passes the build when another course with that id fits (`Scheduler.DuplicateCourseIdsBreakCapacity`).
- Scheduler.RunSessionsUseDistinctSlots: requires distinct course ids, for the same reason as the faculty guarantee it rests on.
