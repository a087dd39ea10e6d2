/** The model builder: one boolean decision variable per capacity-feasible
    (course, timeslot, classroom) triple, the early-failure check for a
    course without any variable, and the three constraint families the
    solver must satisfy. */
module ModelBuilder {
  import opened Records

  /** The key of one decision variable: internal course, timeslot and classroom ids. */
  datatype Key = Key(course: int, slot: int, room: int)

  /** Classroom `r` seats course `c`, and `k` is the key of that triple at timeslot `t`. */
  predicate Fits(c: Course, t: Timeslot, r: Classroom, k: Key) {
    k == Key(c.id, t.id, r.id) && r.capacity >= c.size
  }

  /** `k` is the key of course `c` at timeslot `t` in some listed classroom that seats it. */
  predicate FitsSomeRoom(c: Course, t: Timeslot, rooms: seq<Classroom>, k: Key) {
    exists l | 0 <= l < |rooms| :: Fits(c, t, rooms[l], k)
  }

  /** `k` is the key of course `c` at some listed timeslot in some listed classroom that seats it. */
  predicate FitsSomeSlot(c: Course, slots: seq<Timeslot>, rooms: seq<Classroom>, k: Key) {
    exists j | 0 <= j < |slots| :: FitsSomeRoom(c, slots[j], rooms, k)
  }

  /** `k` is the key of some capacity-feasible triple of listed records. */
  predicate IsCandidate(courses: seq<Course>, slots: seq<Timeslot>, rooms: seq<Classroom>, k: Key) {
    exists i | 0 <= i < |courses| :: FitsSomeSlot(courses[i], slots, rooms, k)
  }

  // The keys the triple-nested loop visits, in visiting order (repeats possible
  // when two records share an internal id).

  function FitKey(c: Course, t: Timeslot, r: Classroom): seq<Key> {
    if r.capacity >= c.size then [Key(c.id, t.id, r.id)] else []
  }

  function RoomTriples(c: Course, t: Timeslot, rooms: seq<Classroom>): seq<Key> {
    if |rooms| == 0 then []
    else RoomTriples(c, t, rooms[..|rooms| - 1]) + FitKey(c, t, rooms[|rooms| - 1])
  }

  function SlotTriples(c: Course, slots: seq<Timeslot>, rooms: seq<Classroom>): seq<Key> {
    if |slots| == 0 then []
    else SlotTriples(c, slots[..|slots| - 1], rooms) + RoomTriples(c, slots[|slots| - 1], rooms)
  }

  function Triples(courses: seq<Course>, slots: seq<Timeslot>, rooms: seq<Classroom>): seq<Key> {
    if |courses| == 0 then []
    else Triples(courses[..|courses| - 1], slots, rooms) + SlotTriples(courses[|courses| - 1], slots, rooms)
  }

  /** Inserting a key into a dictionary: a key already present keeps its place. */
  function AddKey(keys: seq<Key>, k: Key): seq<Key> {
    if k in keys then keys else keys + [k]
  }

  /** The keys of a dictionary holding `keys` after inserting `s` in order. */
  function InsertAll(keys: seq<Key>, s: seq<Key>): (r: seq<Key>)
    ensures forall k :: k in r <==> k in keys || k in s
    ensures Distinct(keys) ==> Distinct(r)
  {
    if |s| == 0 then keys
    else
      var r' := InsertAll(keys, s[..|s| - 1]);
      assert forall k :: k in s <==> k in s[..|s| - 1] || k == s[|s| - 1];
      AddKey(r', s[|s| - 1])
  }

  /** Inserting one more key is one `AddKey` step. */
  lemma InsertAllSnoc(keys: seq<Key>, s: seq<Key>, x: Key)
    ensures InsertAll(keys, s + [x]) == AddKey(InsertAll(keys, s), x)
  {
    var t := s + [x];
    assert t[..|t| - 1] == s;
  }

  lemma {:induction false} InsertAllAppend(keys: seq<Key>, a: seq<Key>, b: seq<Key>)
    ensures InsertAll(keys, a + b) == InsertAll(InsertAll(keys, a), b)
    decreases |b|
  {
    if |b| == 0 {
      assert a + b == a;
    } else {
      var n := |b| - 1;
      var x := b[n];
      var pre := b[..n];
      assert b == pre + [x];
      assert a + b == (a + pre) + [x];
      InsertAllAppend(keys, a, pre);
      InsertAllSnoc(keys, a + pre, x);
      InsertAllSnoc(InsertAll(keys, a), pre, x);
    }
  }

  /** The keys of the `assign` dictionary, in insertion order. */
  function CandidateKeys(d: Dataset): seq<Key> {
    InsertAll([], Triples(d.courses, d.timeslots, d.classrooms))
  }

  /** The candidate build as the source runs it: courses, then timeslots, then
      classrooms, inserting the key of every triple whose classroom seats the course. */
  method BuildCandidates(courses: seq<Course>, slots: seq<Timeslot>, rooms: seq<Classroom>)
    returns (keys: seq<Key>)
    ensures keys == InsertAll([], Triples(courses, slots, rooms))
  {
    keys := [];
    var i := 0;
    while i < |courses|
      invariant 0 <= i <= |courses|
      invariant keys == InsertAll([], Triples(courses[..i], slots, rooms))
    {
      assert courses[..i + 1][..i] == courses[..i];
      InsertAllAppend([], Triples(courses[..i], slots, rooms), SlotTriples(courses[i], slots, rooms));
      keys := InsertCourseKeys(keys, courses[i], slots, rooms);
      i := i + 1;
    }
    assert courses[..i] == courses;
  }

  /** The middle loop: every timeslot for course `c`. */
  method InsertCourseKeys(keys0: seq<Key>, c: Course, slots: seq<Timeslot>, rooms: seq<Classroom>)
    returns (keys: seq<Key>)
    ensures keys == InsertAll(keys0, SlotTriples(c, slots, rooms))
  {
    keys := keys0;
    var j := 0;
    while j < |slots|
      invariant 0 <= j <= |slots|
      invariant keys == InsertAll(keys0, SlotTriples(c, slots[..j], rooms))
    {
      assert slots[..j + 1][..j] == slots[..j];
      InsertAllAppend(keys0, SlotTriples(c, slots[..j], rooms), RoomTriples(c, slots[j], rooms));
      keys := InsertSlotKeys(keys, c, slots[j], rooms);
      j := j + 1;
    }
    assert slots[..j] == slots;
  }

  /** The inner loop: every classroom for course `c` at timeslot `t`; a key
      already in the dictionary keeps its place. */
  method InsertSlotKeys(keys0: seq<Key>, c: Course, t: Timeslot, rooms: seq<Classroom>)
    returns (keys: seq<Key>)
    ensures keys == InsertAll(keys0, RoomTriples(c, t, rooms))
  {
    keys := keys0;
    var l := 0;
    while l < |rooms|
      invariant 0 <= l <= |rooms|
      invariant keys == InsertAll(keys0, RoomTriples(c, t, rooms[..l]))
    {
      var r := rooms[l];
      assert rooms[..l + 1][..l] == rooms[..l];
      InsertAllAppend(keys0, RoomTriples(c, t, rooms[..l]), FitKey(c, t, r));
      if r.capacity >= c.size {
        var k := Key(c.id, t.id, r.id);
        if k !in keys {
          keys := keys + [k];
        }
      }
      l := l + 1;
    }
    assert rooms[..l] == rooms;
  }

  lemma {:induction false} RoomTriplesMembers(c: Course, t: Timeslot, rooms: seq<Classroom>, k: Key)
    ensures k in RoomTriples(c, t, rooms) <==> FitsSomeRoom(c, t, rooms, k)
    decreases |rooms|
  {
    if |rooms| > 0 {
      var n := |rooms| - 1;
      var pre := rooms[..n];
      RoomTriplesMembers(c, t, pre, k);
      assert RoomTriples(c, t, rooms) == RoomTriples(c, t, pre) + FitKey(c, t, rooms[n]);
      if k in RoomTriples(c, t, rooms) {
        if k in RoomTriples(c, t, pre) {
          var l :| 0 <= l < n && Fits(c, t, pre[l], k);
          assert pre[l] == rooms[l];
        } else {
          assert Fits(c, t, rooms[n], k);
        }
      }
      if FitsSomeRoom(c, t, rooms, k) {
        var l :| 0 <= l < |rooms| && Fits(c, t, rooms[l], k);
        if l < n {
          assert pre[l] == rooms[l];
          assert FitsSomeRoom(c, t, pre, k);
        } else {
          assert k in FitKey(c, t, rooms[n]);
        }
      }
    }
  }

  lemma SlotTriplesMembers(c: Course, slots: seq<Timeslot>, rooms: seq<Classroom>, k: Key)
    ensures k in SlotTriples(c, slots, rooms) <==> FitsSomeSlot(c, slots, rooms, k)
  {
    if k in SlotTriples(c, slots, rooms) {
      SlotTriplesOnlyFits(c, slots, rooms, k);
    }
    if FitsSomeSlot(c, slots, rooms, k) {
      SlotTriplesAllFits(c, slots, rooms, k);
    }
  }

  lemma {:induction false} SlotTriplesOnlyFits(c: Course, slots: seq<Timeslot>, rooms: seq<Classroom>, k: Key)
    requires k in SlotTriples(c, slots, rooms)
    ensures FitsSomeSlot(c, slots, rooms, k)
    decreases |slots|
  {
    var n := |slots| - 1;
    var pre := slots[..n];
    assert SlotTriples(c, slots, rooms) == SlotTriples(c, pre, rooms) + RoomTriples(c, slots[n], rooms);
    if k in SlotTriples(c, pre, rooms) {
      SlotTriplesOnlyFits(c, pre, rooms, k);
      var j :| 0 <= j < n && FitsSomeRoom(c, pre[j], rooms, k);
      assert pre[j] == slots[j];
    } else {
      RoomTriplesMembers(c, slots[n], rooms, k);
      assert FitsSomeRoom(c, slots[n], rooms, k);
    }
  }

  lemma {:induction false} SlotTriplesAllFits(c: Course, slots: seq<Timeslot>, rooms: seq<Classroom>, k: Key)
    requires FitsSomeSlot(c, slots, rooms, k)
    ensures k in SlotTriples(c, slots, rooms)
    decreases |slots|
  {
    var n := |slots| - 1;
    var pre := slots[..n];
    assert SlotTriples(c, slots, rooms) == SlotTriples(c, pre, rooms) + RoomTriples(c, slots[n], rooms);
    var j :| 0 <= j < |slots| && FitsSomeRoom(c, slots[j], rooms, k);
    if j < n {
      assert pre[j] == slots[j];
      assert FitsSomeSlot(c, pre, rooms, k);
      SlotTriplesAllFits(c, pre, rooms, k);
      assert k in SlotTriples(c, pre, rooms);
    } else {
      RoomTriplesMembers(c, slots[n], rooms, k);
      assert k in RoomTriples(c, slots[n], rooms);
    }
  }

  lemma {:induction false} TriplesMembers(courses: seq<Course>, slots: seq<Timeslot>, rooms: seq<Classroom>, k: Key)
    ensures k in Triples(courses, slots, rooms) <==> IsCandidate(courses, slots, rooms, k)
  {
    if k in Triples(courses, slots, rooms) {
      TriplesOnlyCandidates(courses, slots, rooms, k);
    }
    if IsCandidate(courses, slots, rooms, k) {
      TriplesAllCandidates(courses, slots, rooms, k);
    }
  }

  lemma {:induction false} TriplesOnlyCandidates(courses: seq<Course>, slots: seq<Timeslot>, rooms: seq<Classroom>, k: Key)
    requires k in Triples(courses, slots, rooms)
    ensures IsCandidate(courses, slots, rooms, k)
    decreases |courses|
  {
    var n := |courses| - 1;
    var pre := courses[..n];
    assert Triples(courses, slots, rooms) == Triples(pre, slots, rooms) + SlotTriples(courses[n], slots, rooms);
    if k in Triples(pre, slots, rooms) {
      TriplesOnlyCandidates(pre, slots, rooms, k);
      var i :| 0 <= i < n && FitsSomeSlot(pre[i], slots, rooms, k);
      assert pre[i] == courses[i];
    } else {
      SlotTriplesMembers(courses[n], slots, rooms, k);
      assert FitsSomeSlot(courses[n], slots, rooms, k);
    }
  }

  lemma {:induction false} TriplesAllCandidates(courses: seq<Course>, slots: seq<Timeslot>, rooms: seq<Classroom>, k: Key)
    requires IsCandidate(courses, slots, rooms, k)
    ensures k in Triples(courses, slots, rooms)
    decreases |courses|
  {
    var n := |courses| - 1;
    var pre := courses[..n];
    assert Triples(courses, slots, rooms) == Triples(pre, slots, rooms) + SlotTriples(courses[n], slots, rooms);
    var i :| 0 <= i < |courses| && FitsSomeSlot(courses[i], slots, rooms, k);
    if i < n {
      assert pre[i] == courses[i];
      assert FitsSomeSlot(pre[i], slots, rooms, k);
      TriplesAllCandidates(pre, slots, rooms, k);
      assert k in Triples(pre, slots, rooms);
    } else {
      assert FitsSomeSlot(courses[n], slots, rooms, k);
      SlotTriplesMembers(courses[n], slots, rooms, k);
      assert k in SlotTriples(courses[n], slots, rooms);
    }
  }

  /** The decision variables are exactly the capacity-feasible triples of
      listed records, each key once. */
  lemma CandidateKeysExact(d: Dataset)
    ensures forall k :: k in CandidateKeys(d) <==> IsCandidate(d.courses, d.timeslots, d.classrooms, k)
    ensures Distinct(CandidateKeys(d))
  {
    forall k ensures k in CandidateKeys(d) <==> IsCandidate(d.courses, d.timeslots, d.classrooms, k) {
      TriplesMembers(d.courses, d.timeslots, d.classrooms, k);
    }
  }

  // Counting selected variables: the `sum(...)` of each constraint.

  /** The filters of the three comprehensions over `assign.items()`. */
  datatype Query =
    | CourseIs(course: int)
    | SlotAndRoom(slot: int, room: int)
    | SlotAndFaculty(slot: int, faculty: int, courseToFac: map<int, int>)

  predicate Matches(q: Query, k: Key) {
    match q
    case CourseIs(c) => k.course == c
    case SlotAndRoom(t, r) => k.slot == t && k.room == r
    case SlotAndFaculty(t, f, courseToFac) => k.slot == t && k.course in courseToFac && courseToFac[k.course] == f
  }

  /** The number of keys of `s` that match `q`. */
  function Count(s: seq<Key>, q: Query): nat {
    if |s| == 0 then 0
    else Count(s[..|s| - 1], q) + (if Matches(q, s[|s| - 1]) then 1 else 0)
  }

  lemma {:induction false} CountTwo(s: seq<Key>, q: Query, p1: int, p2: int)
    requires 0 <= p1 < p2 < |s|
    requires Matches(q, s[p1]) && Matches(q, s[p2])
    ensures Count(s, q) >= 2
    decreases |s|
  {
    var n := |s| - 1;
    if p2 < n {
      assert s[..n][p1] == s[p1] && s[..n][p2] == s[p2];
      CountTwo(s[..n], q, p1, p2);
    } else {
      assert s[..n][p1] == s[p1];
      CountOne(s[..n], q, p1);
    }
  }

  lemma {:induction false} CountOne(s: seq<Key>, q: Query, p: int)
    requires 0 <= p < |s| && Matches(q, s[p])
    ensures Count(s, q) >= 1
    decreases |s|
  {
    var n := |s| - 1;
    if p < n {
      assert s[..n][p] == s[p];
      CountOne(s[..n], q, p);
    }
  }

  lemma {:induction false} CountPositive(s: seq<Key>, q: Query)
    requires Count(s, q) > 0
    ensures exists p | 0 <= p < |s| :: Matches(q, s[p])
    decreases |s|
  {
    var n := |s| - 1;
    if !Matches(q, s[n]) {
      CountPositive(s[..n], q);
      var p :| 0 <= p < n && Matches(q, s[..n][p]);
      assert s[p] == s[..n][p];
    }
  }

  /** The keys whose variable the solver set to 1, in dictionary order. */
  function Selected(keys: seq<Key>, sel: set<Key>): (r: seq<Key>)
    ensures forall k :: k in r <==> k in keys && k in sel
    ensures |r| <= |keys|
  {
    if |keys| == 0 then []
    else
      var last := keys[|keys| - 1];
      var r' := Selected(keys[..|keys| - 1], sel);
      assert forall k :: k in keys <==> k in keys[..|keys| - 1] || k == last;
      if last in sel then r' + [last] else r'
  }

  /** `Selected` repeats no key when the dictionary repeats none. */
  lemma {:induction false} SelectedDistinct(keys: seq<Key>, sel: set<Key>)
    requires Distinct(keys)
    ensures Distinct(Selected(keys, sel))
    decreases |keys|
  {
    if |keys| > 0 {
      var n := |keys| - 1;
      var init := keys[..n];
      assert Distinct(init);
      SelectedDistinct(init, sel);
      var r' := Selected(init, sel);
      assert keys[n] !in init;
      assert keys[n] !in r';
      var r := Selected(keys, sel);
      assert r == if keys[n] in sel then r' + [keys[n]] else r';
      forall p, q | 0 <= p < q < |r|
        ensures r[p] != r[q]
      {
        assert r[p] == r'[p];
        if q == |r'| {
          assert r[p] in r';
        } else {
          assert r[q] == r'[q];
        }
      }
    }
  }

  /** Any two elements of `r` occur in `keys` in the same relative order. */
  predicate InKeyOrder(r: seq<Key>, keys: seq<Key>) {
    forall p, q | 0 <= p < q < |r| ::
      exists a, b | 0 <= a < b < |keys| :: keys[a] == r[p] && keys[b] == r[q]
  }

  /** One step of `SelectedInKeyOrder`: if the keys selected before the last
      one keep their order, so do all selected keys. */
  lemma SelectedSnocInKeyOrder(keys: seq<Key>, sel: set<Key>, p: int, q: int)
    requires |keys| > 0
    requires InKeyOrder(Selected(keys[..|keys| - 1], sel), keys[..|keys| - 1])
    requires 0 <= p < q < |Selected(keys, sel)|
    ensures exists a, b | 0 <= a < b < |keys| :: keys[a] == Selected(keys, sel)[p] && keys[b] == Selected(keys, sel)[q]
  {
    var n := |keys| - 1;
    var init := keys[..n];
    var r := Selected(keys, sel);
    var r' := Selected(init, sel);
    assert r == if keys[n] in sel then r' + [keys[n]] else r';
    assert r[p] == r'[p];
    if q < |r'| {
      assert r[q] == r'[q];
      var a, b :| 0 <= a < b < |init| && init[a] == r'[p] && init[b] == r'[q];
      assert keys[a] == init[a] && keys[b] == init[b];
    } else {
      assert r[q] == keys[n];
      assert r[p] in r';
      var a :| 0 <= a < n && init[a] == r[p];
      assert keys[a] == init[a];
    }
  }

  /** `Selected` keeps the dictionary's order. */
  lemma {:induction false} SelectedInKeyOrder(keys: seq<Key>, sel: set<Key>)
    ensures InKeyOrder(Selected(keys, sel), keys)
    decreases |keys|
  {
    if |keys| == 0 {
      assert Selected(keys, sel) == [];
    } else {
      SelectedInKeyOrder(keys[..|keys| - 1], sel);
      forall p, q | 0 <= p < q < |Selected(keys, sel)|
        ensures exists a, b | 0 <= a < b < |keys| :: keys[a] == Selected(keys, sel)[p] && keys[b] == Selected(keys, sel)[q]
      {
        SelectedSnocInKeyOrder(keys, sel, p, q);
      }
    }
  }

  /** `i` is the last position in `courses` of a course with id `c`. */
  predicate IsLastCourseWith(courses: seq<Course>, c: int, i: int) {
    && 0 <= i < |courses|
    && courses[i].id == c
    && forall j | i < j < |courses| :: courses[j].id != c
  }

  /** The map `{c.id: c.faculty_id for c in courses}`: a later course with the
      same id overwrites an earlier one (`CourseToFacLastWins`). */
  function CourseToFac(courses: seq<Course>): (m: map<int, int>)
    ensures forall i | 0 <= i < |courses| :: courses[i].id in m
    ensures forall c | c in m :: exists i | 0 <= i < |courses| :: courses[i].id == c && m[c] == courses[i].facultyId
  {
    if |courses| == 0 then map[]
    else
      var init := courses[..|courses| - 1];
      var m' := CourseToFac(init);
      var last := courses[|courses| - 1];
      assert forall i | 0 <= i < |init| :: init[i] == courses[i];
      m'[last.id := last.facultyId]
  }

  /** A last course with another id keeps the last position of `c` in the rest. */
  lemma LastCourseWithExtends(courses: seq<Course>, c: int, i: int)
    requires |courses| > 0 && courses[|courses| - 1].id != c
    requires IsLastCourseWith(courses[..|courses| - 1], c, i)
    ensures IsLastCourseWith(courses, c, i)
  {
    var init := courses[..|courses| - 1];
    forall j | i < j < |courses|
      ensures courses[j].id != c
    {
      if j < |init| {
        assert courses[j] == init[j];
      }
    }
  }

  /** Each id of `CourseToFac` maps to the faculty of the last course carrying it. */
  lemma {:induction false} CourseToFacLastWins(courses: seq<Course>)
    ensures forall c | c in CourseToFac(courses) ::
      exists i :: IsLastCourseWith(courses, c, i) && CourseToFac(courses)[c] == courses[i].facultyId
    decreases |courses|
  {
    if |courses| > 0 {
      var n := |courses| - 1;
      var init := courses[..n];
      var m := CourseToFac(courses);
      var m' := CourseToFac(init);
      var last := courses[n];
      assert m == m'[last.id := last.facultyId];
      CourseToFacLastWins(init);
      forall c | c in m
        ensures exists i :: IsLastCourseWith(courses, c, i) && m[c] == courses[i].facultyId
      {
        if c == last.id {
          assert IsLastCourseWith(courses, c, n);
        } else {
          var i :| IsLastCourseWith(init, c, i) && m'[c] == init[i].facultyId;
          LastCourseWithExtends(courses, c, i);
        }
      }
    }
  }

  /** With distinct course ids, `CourseToFac` gives every course its own faculty. */
  lemma CourseToFacOfUniqueIds(courses: seq<Course>)
    requires UniqueCourseIds(courses)
    ensures forall i | 0 <= i < |courses| :: CourseToFac(courses)[courses[i].id] == courses[i].facultyId
  {
  }

  /** Constraint 1: every listed course gets exactly its sessions per week. */
  predicate Coverage(d: Dataset, keys: seq<Key>, sel: set<Key>) {
    forall i | 0 <= i < |d.courses| ::
      Count(Selected(keys, sel), CourseIs(d.courses[i].id)) == d.courses[i].sessionsPerWeek
  }

  /** Constraint 2: at most one session per listed (timeslot, classroom) pair. */
  predicate RoomExclusive(d: Dataset, keys: seq<Key>, sel: set<Key>) {
    forall j, l | 0 <= j < |d.timeslots| && 0 <= l < |d.classrooms| ::
      Count(Selected(keys, sel), SlotAndRoom(d.timeslots[j].id, d.classrooms[l].id)) <= 1
  }

  /** Constraint 3: at most one session per (listed faculty, listed timeslot)
      pair, a key belonging to the faculty that `CourseToFac` gives its course. */
  predicate FacultyExclusive(d: Dataset, keys: seq<Key>, sel: set<Key>) {
    forall m, j | 0 <= m < |d.faculties| && 0 <= j < |d.timeslots| ::
      Count(Selected(keys, sel), SlotAndFaculty(d.timeslots[j].id, d.faculties[m].id, CourseToFac(d.courses))) <= 1
  }

  /** The constraints the solver is handed. */
  predicate ConstraintsHold(d: Dataset, keys: seq<Key>, sel: set<Key>) {
    Coverage(d, keys, sel) && RoomExclusive(d, keys, sel) && FacultyExclusive(d, keys, sel)
  }

  /** Some key of `keys` belongs to course `c`. */
  predicate HasKeyFor(keys: seq<Key>, c: int) {
    exists p | 0 <= p < |keys| :: keys[p].course == c
  }

  /** The first course, in list order, without any decision variable: the
      course whose coverage check fails the build. */
  function FirstUncoverable(courses: seq<Course>, keys: seq<Key>): (r: Option<Course>)
    ensures r.None? <==> forall i | 0 <= i < |courses| :: HasKeyFor(keys, courses[i].id)
    ensures r.Some? ==> exists i | 0 <= i < |courses| ::
      && courses[i] == r.value
      && !HasKeyFor(keys, courses[i].id)
      && forall i' | 0 <= i' < i :: HasKeyFor(keys, courses[i'].id)
  {
    if |courses| == 0 then None
    else if !HasKeyFor(keys, courses[0].id) then Some(courses[0])
    else
      var r := FirstUncoverable(courses[1..], keys);
      assert forall i | 1 <= i < |courses| :: courses[i] == courses[1..][i - 1];
      r
  }

  /** A course has a decision variable exactly when there is a timeslot and
      some course record with its id fits in some classroom. */
  lemma {:induction false} HasKeyForIff(d: Dataset, c: int)
    ensures HasKeyFor(CandidateKeys(d), c) <==>
      && |d.timeslots| > 0
      && exists i, l | 0 <= i < |d.courses| && 0 <= l < |d.classrooms| ::
           d.courses[i].id == c && d.classrooms[l].capacity >= d.courses[i].size
  {
    var keys := CandidateKeys(d);
    CandidateKeysExact(d);
    if HasKeyFor(keys, c) {
      var p :| 0 <= p < |keys| && keys[p].course == c;
      var k := keys[p];
      assert k in keys;
      assert IsCandidate(d.courses, d.timeslots, d.classrooms, k);
      var i :| 0 <= i < |d.courses| && FitsSomeSlot(d.courses[i], d.timeslots, d.classrooms, k);
      var j :| 0 <= j < |d.timeslots| && FitsSomeRoom(d.courses[i], d.timeslots[j], d.classrooms, k);
      var l :| 0 <= l < |d.classrooms| && Fits(d.courses[i], d.timeslots[j], d.classrooms[l], k);
      assert d.courses[i].id == c && d.classrooms[l].capacity >= d.courses[i].size;
    }
    if |d.timeslots| > 0 && exists i, l | 0 <= i < |d.courses| && 0 <= l < |d.classrooms| ::
         d.courses[i].id == c && d.classrooms[l].capacity >= d.courses[i].size {
      var i, l :| 0 <= i < |d.courses| && 0 <= l < |d.classrooms| &&
         d.courses[i].id == c && d.classrooms[l].capacity >= d.courses[i].size;
      var k := Key(c, d.timeslots[0].id, d.classrooms[l].id);
      assert Fits(d.courses[i], d.timeslots[0], d.classrooms[l], k);
      assert FitsSomeRoom(d.courses[i], d.timeslots[0], d.classrooms, k);
      assert FitsSomeSlot(d.courses[i], d.timeslots, d.classrooms, k);
      assert IsCandidate(d.courses, d.timeslots, d.classrooms, k);
      assert k in keys;
      var p :| 0 <= p < |keys| && keys[p] == k;
    }
  }
}
