/** The order of the decision variables: the `assign` dictionary lists them
    course by course, then timeslot by timeslot, then classroom by classroom,
    following the three lists. */
module KeyOrder {
  import opened Records
  import opened Normalizer
  import opened ModelBuilder

  /** List positions of a course, a timeslot and a classroom. */
  datatype Pos = Pos(course: nat, slot: nat, room: nat)

  /** Course position first, then timeslot position, then classroom position. */
  predicate PosBefore(a: Pos, b: Pos) {
    || a.course < b.course
    || (a.course == b.course && a.slot < b.slot)
    || (a.course == b.course && a.slot == b.slot && a.room < b.room)
  }

  /** `k` is the key of the records at position `x`. */
  predicate KeyAt(courses: seq<Course>, slots: seq<Timeslot>, rooms: seq<Classroom>, k: Key, x: Pos) {
    && x.course < |courses| && x.slot < |slots| && x.room < |rooms|
    && k == Key(courses[x.course].id, slots[x.slot].id, rooms[x.room].id)
  }

  // The positions the loops are at when they insert a key, parallel to
  // RoomTriples, SlotTriples and Triples.

  function RoomPositions(c: Course, rooms: seq<Classroom>, i: nat, j: nat): seq<Pos> {
    if |rooms| == 0 then []
    else
      var n := |rooms| - 1;
      RoomPositions(c, rooms[..n], i, j) + (if rooms[n].capacity >= c.size then [Pos(i, j, n)] else [])
  }

  function SlotPositions(c: Course, slots: seq<Timeslot>, rooms: seq<Classroom>, i: nat): seq<Pos> {
    if |slots| == 0 then []
    else
      var n := |slots| - 1;
      SlotPositions(c, slots[..n], rooms, i) + RoomPositions(c, rooms, i, n)
  }

  function Positions(courses: seq<Course>, slots: seq<Timeslot>, rooms: seq<Classroom>): seq<Pos> {
    if |courses| == 0 then []
    else
      var n := |courses| - 1;
      Positions(courses[..n], slots, rooms) + SlotPositions(courses[n], slots, rooms, n)
  }

  /** Positions in strictly increasing order. */
  predicate Increasing(ps: seq<Pos>) {
    forall p, q | 0 <= p < q < |ps| :: PosBefore(ps[p], ps[q])
  }

  /** Two increasing runs, the first wholly before the second, make one. */
  lemma ConcatIncreasing(a: seq<Pos>, b: seq<Pos>)
    requires Increasing(a) && Increasing(b)
    requires forall p, q | 0 <= p < |a| && 0 <= q < |b| :: PosBefore(a[p], b[q])
    ensures Increasing(a + b)
  {
    var s := a + b;
    forall p, q | 0 <= p < q < |s|
      ensures PosBefore(s[p], s[q])
    {
      if q < |a| {
        assert s[p] == a[p] && s[q] == a[q];
      } else if p < |a| {
        assert s[p] == a[p] && s[q] == b[q - |a|];
      } else {
        assert s[p] == b[p - |a|] && s[q] == b[q - |a|];
      }
    }
  }

  /** For one course and timeslot, the `p`-th key is that of the classroom at
      the `p`-th position, and classroom positions increase. */
  lemma {:induction false} RoomPositionsMatch(c: Course, t: Timeslot, rooms: seq<Classroom>, i: nat, j: nat)
    ensures |RoomPositions(c, rooms, i, j)| == |RoomTriples(c, t, rooms)|
    ensures forall p | 0 <= p < |RoomPositions(c, rooms, i, j)| ::
      var x := RoomPositions(c, rooms, i, j)[p];
      && x.course == i && x.slot == j && x.room < |rooms|
      && RoomTriples(c, t, rooms)[p] == Key(c.id, t.id, rooms[x.room].id)
    ensures Increasing(RoomPositions(c, rooms, i, j))
    decreases |rooms|
  {
    if |rooms| > 0 {
      var n := |rooms| - 1;
      RoomPositionsMatch(c, t, rooms[..n], i, j);
      var ps', ks' := RoomPositions(c, rooms[..n], i, j), RoomTriples(c, t, rooms[..n]);
      var pl, kl := (if rooms[n].capacity >= c.size then [Pos(i, j, n)] else []), FitKey(c, t, rooms[n]);
      var ps, ks := RoomPositions(c, rooms, i, j), RoomTriples(c, t, rooms);
      assert ps == ps' + pl && ks == ks' + kl;
      forall p | 0 <= p < |ps|
        ensures ps[p].course == i && ps[p].slot == j && ps[p].room < |rooms|
        ensures ks[p] == Key(c.id, t.id, rooms[ps[p].room].id)
      {
        if p < |ps'| {
          assert ps[p] == ps'[p] && ks[p] == ks'[p];
          assert rooms[..n][ps'[p].room] == rooms[ps'[p].room];
        }
      }
      ConcatIncreasing(ps', pl);
    }
  }

  /** For one course, the `p`-th key is that of the timeslot and classroom at
      the `p`-th position, and positions increase, timeslot first. */
  lemma {:induction false} SlotPositionsMatch(c: Course, slots: seq<Timeslot>, rooms: seq<Classroom>, i: nat)
    ensures |SlotPositions(c, slots, rooms, i)| == |SlotTriples(c, slots, rooms)|
    ensures forall p | 0 <= p < |SlotPositions(c, slots, rooms, i)| ::
      var x := SlotPositions(c, slots, rooms, i)[p];
      && x.course == i && x.slot < |slots| && x.room < |rooms|
      && SlotTriples(c, slots, rooms)[p] == Key(c.id, slots[x.slot].id, rooms[x.room].id)
    ensures Increasing(SlotPositions(c, slots, rooms, i))
    decreases |slots|
  {
    if |slots| > 0 {
      var n := |slots| - 1;
      SlotPositionsMatch(c, slots[..n], rooms, i);
      RoomPositionsMatch(c, slots[n], rooms, i, n);
      var ps', ks' := SlotPositions(c, slots[..n], rooms, i), SlotTriples(c, slots[..n], rooms);
      var pr, kr := RoomPositions(c, rooms, i, n), RoomTriples(c, slots[n], rooms);
      var ps, ks := SlotPositions(c, slots, rooms, i), SlotTriples(c, slots, rooms);
      assert ps == ps' + pr && ks == ks' + kr;
      forall p | 0 <= p < |ps|
        ensures ps[p].course == i && ps[p].slot < |slots| && ps[p].room < |rooms|
        ensures ks[p] == Key(c.id, slots[ps[p].slot].id, rooms[ps[p].room].id)
      {
        if p < |ps'| {
          assert ps[p] == ps'[p] && ks[p] == ks'[p];
          assert slots[..n][ps'[p].slot] == slots[ps'[p].slot];
        } else {
          assert ps[p] == pr[p - |ps'|] && ks[p] == kr[p - |ps'|];
        }
      }
      ConcatIncreasing(ps', pr);
    }
  }

  /** The `p`-th key of the loop's visiting order is that of the records at
      the `p`-th position, and positions increase: course first, then
      timeslot, then classroom. */
  lemma {:induction false} PositionsMatch(courses: seq<Course>, slots: seq<Timeslot>, rooms: seq<Classroom>)
    ensures |Positions(courses, slots, rooms)| == |Triples(courses, slots, rooms)|
    ensures forall p | 0 <= p < |Positions(courses, slots, rooms)| ::
      KeyAt(courses, slots, rooms, Triples(courses, slots, rooms)[p], Positions(courses, slots, rooms)[p])
    ensures Increasing(Positions(courses, slots, rooms))
    decreases |courses|
  {
    if |courses| > 0 {
      var n := |courses| - 1;
      PositionsMatch(courses[..n], slots, rooms);
      SlotPositionsMatch(courses[n], slots, rooms, n);
      var ps', ks' := Positions(courses[..n], slots, rooms), Triples(courses[..n], slots, rooms);
      var pc, kc := SlotPositions(courses[n], slots, rooms, n), SlotTriples(courses[n], slots, rooms);
      var ps, ks := Positions(courses, slots, rooms), Triples(courses, slots, rooms);
      assert ps == ps' + pc && ks == ks' + kc;
      forall p | 0 <= p < |ps|
        ensures KeyAt(courses, slots, rooms, ks[p], ps[p])
      {
        if p < |ps'| {
          assert ps[p] == ps'[p] && ks[p] == ks'[p];
          assert KeyAt(courses[..n], slots, rooms, ks'[p], ps'[p]);
          assert courses[..n][ps'[p].course] == courses[ps'[p].course];
        } else {
          assert ps[p] == pc[p - |ps'|] && ks[p] == kc[p - |ps'|];
        }
      }
      ConcatIncreasing(ps', pc);
    }
  }

  /** Inserting keys that are all different into an empty dictionary keeps
      them all, in insertion order. */
  lemma {:induction false} InsertAllOfDistinct(s: seq<Key>)
    requires Distinct(s)
    ensures InsertAll([], s) == s
    decreases |s|
  {
    if |s| > 0 {
      var n := |s| - 1;
      assert Distinct(s[..n]);
      InsertAllOfDistinct(s[..n]);
      assert s[n] !in s[..n];
      assert s[..n] + [s[n]] == s;
    }
  }

  /** With distinct ids, a key names one position only. */
  lemma KeyAtUnique(d: Dataset, k: Key, x: Pos, y: Pos)
    requires UniqueCourseIds(d.courses) && UniqueTimeslotIds(d.timeslots) && UniqueClassroomIds(d.classrooms)
    requires KeyAt(d.courses, d.timeslots, d.classrooms, k, x)
    requires KeyAt(d.courses, d.timeslots, d.classrooms, k, y)
    ensures x == y
  {
  }

  /** With distinct ids, different positions name different keys. */
  lemma KeyAtDistinct(d: Dataset, k1: Key, k2: Key, x: Pos, y: Pos)
    requires UniqueCourseIds(d.courses) && UniqueTimeslotIds(d.timeslots) && UniqueClassroomIds(d.classrooms)
    requires KeyAt(d.courses, d.timeslots, d.classrooms, k1, x)
    requires KeyAt(d.courses, d.timeslots, d.classrooms, k2, y)
    requires x != y
    ensures k1 != k2
  {
  }

  /** With distinct course, timeslot and classroom ids, the dictionary holds
      every key the loops insert, in insertion order, and that order is
      course-major, then timeslot, then classroom: of two keys, the earlier
      one's records come first in the lists. */
  lemma CandidateKeysCourseMajor(d: Dataset)
    requires UniqueCourseIds(d.courses) && UniqueTimeslotIds(d.timeslots) && UniqueClassroomIds(d.classrooms)
    ensures CandidateKeys(d) == Triples(d.courses, d.timeslots, d.classrooms)
    ensures forall p, q, x, y |
      && 0 <= p < q < |CandidateKeys(d)|
      && KeyAt(d.courses, d.timeslots, d.classrooms, CandidateKeys(d)[p], x)
      && KeyAt(d.courses, d.timeslots, d.classrooms, CandidateKeys(d)[q], y)
      :: PosBefore(x, y)
  {
    var ps, ks := Positions(d.courses, d.timeslots, d.classrooms), Triples(d.courses, d.timeslots, d.classrooms);
    PositionsMatch(d.courses, d.timeslots, d.classrooms);
    forall p, q | 0 <= p < q < |ks|
      ensures ks[p] != ks[q]
    {
      assert PosBefore(ps[p], ps[q]);
      KeyAtDistinct(d, ks[p], ks[q], ps[p], ps[q]);
    }
    InsertAllOfDistinct(ks);
    forall p, q, x, y |
      && 0 <= p < q < |ks|
      && KeyAt(d.courses, d.timeslots, d.classrooms, ks[p], x)
      && KeyAt(d.courses, d.timeslots, d.classrooms, ks[q], y)
      ensures PosBefore(x, y)
    {
      KeyAtUnique(d, ks[p], x, ps[p]);
      KeyAtUnique(d, ks[q], y, ps[q]);
    }
  }

  /** Course id first, then timeslot id, then classroom id. */
  predicate KeyBefore(a: Key, b: Key) {
    || a.course < b.course
    || (a.course == b.course && a.slot < b.slot)
    || (a.course == b.course && a.slot == b.slot && a.room < b.room)
  }

  /** Every record's id is one more than its list position. */
  predicate DenseIds(d: Dataset) {
    && (forall i | 0 <= i < |d.courses| :: d.courses[i].id == i + 1)
    && (forall j | 0 <= j < |d.timeslots| :: d.timeslots[j].id == j + 1)
    && (forall l | 0 <= l < |d.classrooms| :: d.classrooms[l].id == l + 1)
  }

  /** With dense ids, the keys are sorted by course id, then timeslot id, then
      classroom id. */
  lemma DenseCandidateKeysSorted(d: Dataset)
    requires DenseIds(d)
    ensures forall p, q | 0 <= p < q < |CandidateKeys(d)| :: KeyBefore(CandidateKeys(d)[p], CandidateKeys(d)[q])
  {
    var ps, ks := Positions(d.courses, d.timeslots, d.classrooms), Triples(d.courses, d.timeslots, d.classrooms);
    CandidateKeysCourseMajor(d);
    PositionsMatch(d.courses, d.timeslots, d.classrooms);
    forall p, q | 0 <= p < q < |ks|
      ensures KeyBefore(ks[p], ks[q])
    {
      assert KeyAt(d.courses, d.timeslots, d.classrooms, ks[p], ps[p]);
      assert KeyAt(d.courses, d.timeslots, d.classrooms, ks[q], ps[q]);
      assert PosBefore(ps[p], ps[q]);
    }
  }

  /** With distinct identifiers in the upload, the decision variables are
      sorted by internal course id, then timeslot id, then classroom id. */
  lemma CandidateKeysSortedByIds(raw: RawDataset)
    requires DistinctRawIds(raw)
    ensures forall p, q | 0 <= p < q < |CandidateKeys(Normalize(raw))| ::
      KeyBefore(CandidateKeys(Normalize(raw))[p], CandidateKeys(Normalize(raw))[q])
  {
    NormalizeLengths(raw);
    NormalizeDenseIds(raw);
    DenseCandidateKeysSorted(Normalize(raw));
  }
}
