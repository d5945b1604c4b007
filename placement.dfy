/** One attempt of the room balancer (allocator.py:38-63): the students are taken
    in the processing order and each is put greedily into an open room with the
    fewest students of its class, then the fewest students overall; a student
    with no open room is left unassigned.

    The specification is a run: the sequence of states (room lists and
    unassigned list) the attempt passes through, one decision per processed
    student, each decision allowed by the choice rule against the state it was
    taken in. */
module Placement {
  import opened Students

  /** Where one student of the processing order went. */
  datatype Destination = Unassigned | Placed(room: Room)

  /** The state of an attempt, and its outcome: `room_assignments` and
      `unassigned_students`. */
  datatype Attempt = Attempt(assignments: map<Room, seq<Student>>, unassigned: seq<Student>)

  // ---------------------------------------------------------------------------
  // Specification
  // ---------------------------------------------------------------------------

  /** Lines 38 and 41: every room starts empty and nobody is unassigned. */
  function Initial(rooms: seq<Room>): (a: Attempt)
    ensures HasRooms(a, rooms)
    ensures forall r :: r in a.assignments ==> a.assignments[r] == []
    ensures a.unassigned == []
  {
    Attempt(map r | r in rooms :: [], [])
  }

  /** The state has a student list for every room and for nothing else. */
  ghost predicate HasRooms(a: Attempt, rooms: seq<Room>)
  {
    forall r :: r in a.assignments <==> r in rooms
  }

  /** A room with these occupants can take a student of class `cls`: it is
      below the room cap and below the class cap for `cls`. */
  predicate Open(occupants: seq<Student>, cls: ClassLabel, maxPerRoom: int, maxPerClass: int)
  {
    |occupants| < maxPerRoom && ClassSize(occupants, cls) < maxPerClass
  }

  /** `x` is one of the rooms the choice rule allows for a student of class
      `cls`: an open room, with no open room holding fewer students of `cls`,
      and none holding as many of `cls` but fewer students overall. */
  ghost predicate IsBestRoom(x: Room, rooms: seq<Room>, occ: map<Room, seq<Student>>, cls: ClassLabel,
                             maxPerRoom: int, maxPerClass: int)
    requires forall r :: r in rooms ==> r in occ
  {
    && x in rooms
    && Open(occ[x], cls, maxPerRoom, maxPerClass)
    && forall y :: y in rooms && Open(occ[y], cls, maxPerRoom, maxPerClass) ==>
         || ClassSize(occ[x], cls) < ClassSize(occ[y], cls)
         || (ClassSize(occ[x], cls) == ClassSize(occ[y], cls) && |occ[x]| <= |occ[y]|)
  }

  /** The choice rule for student `s` in state `a`: unassigned only when no
      room is open, otherwise placed in a best room. */
  ghost predicate Allowed(a: Attempt, rooms: seq<Room>, s: Student, d: Destination, maxPerRoom: int, maxPerClass: int)
    requires HasRooms(a, rooms)
  {
    match d
    case Unassigned => forall r :: r in rooms ==> !Open(a.assignments[r], s.cls, maxPerRoom, maxPerClass)
    case Placed(x) => IsBestRoom(x, rooms, a.assignments, s.cls, maxPerRoom, maxPerClass)
  }

  /** The effect of a decision: the student is appended to the chosen room's
      list, or to the unassigned list. */
  function Apply(a: Attempt, s: Student, d: Destination): (r: Attempt)
    requires d.Placed? ==> d.room in a.assignments
    ensures forall x :: x in r.assignments <==> x in a.assignments
    ensures forall x :: x in a.assignments && d != Placed(x) ==> r.assignments[x] == a.assignments[x]
    ensures d.Unassigned? ==> r.unassigned == a.unassigned + [s]
    ensures d.Placed? ==> r.unassigned == a.unassigned && r.assignments[d.room] == a.assignments[d.room] + [s]
  {
    match d
    case Unassigned => Attempt(a.assignments, a.unassigned + [s])
    case Placed(x) => Attempt(a.assignments[x := a.assignments[x] + [s]], a.unassigned)
  }

  /** `after` follows `before` by an allowed decision `d` for student `s`. */
  ghost predicate Step(rooms: seq<Room>, maxPerRoom: int, maxPerClass: int,
                       before: Attempt, s: Student, d: Destination, after: Attempt)
  {
    && HasRooms(before, rooms)
    && Allowed(before, rooms, s, d, maxPerRoom, maxPerClass)
    && after == Apply(before, s, d)
  }

  /** `states` is a run of the rule over the first `|decisions|` students of
      `order`: it starts from the initial state and the `k`-th decision takes
      `states[k]` to `states[k + 1]`. */
  ghost predicate IsRun(order: seq<Student>, rooms: seq<Room>, maxPerRoom: int, maxPerClass: int,
                        decisions: seq<Destination>, states: seq<Attempt>)
  {
    && |decisions| <= |order|
    && |states| == |decisions| + 1
    && states[0] == Initial(rooms)
    && forall k :: 0 <= k < |decisions| ==> StepAt(order, rooms, maxPerRoom, maxPerClass, decisions, states, k)
  }

  /** The `k`-th decision of a run is allowed and takes `states[k]` to `states[k + 1]`. */
  ghost predicate StepAt(order: seq<Student>, rooms: seq<Room>, maxPerRoom: int, maxPerClass: int,
                         decisions: seq<Destination>, states: seq<Attempt>, k: int)
    requires 0 <= k < |decisions| <= |order| && |states| == |decisions| + 1
  {
    Step(rooms, maxPerRoom, maxPerClass, states[k], order[k], decisions[k], states[k + 1])
  }

  /** `res` is what an attempt over `order` yields: the last state of a run
      over all of `order`. */
  ghost predicate IsAttemptOf(order: seq<Student>, rooms: seq<Room>, maxPerRoom: int, maxPerClass: int,
                              decisions: seq<Destination>, states: seq<Attempt>, res: Attempt)
  {
    && |decisions| == |order|
    && IsRun(order, rooms, maxPerRoom, maxPerClass, decisions, states)
    && res == states[|order|]
  }

  /** Both caps hold for a room's occupants. A room is never filled past
      `maxPerRoom`, nor past `maxPerClass` for any class; with a cap below 1
      nothing is placed at all. */
  ghost predicate WithinCaps(occupants: seq<Student>, maxPerRoom: int, maxPerClass: int)
  {
    && (occupants == [] || |occupants| <= maxPerRoom)
    && forall c :: ClassSize(occupants, c) == 0 || ClassSize(occupants, c) <= maxPerClass
  }

  /** The room labels without repetitions, in order of first occurrence (the key
      order of `{room: [] for room in available_rooms}`). */
  function Dedup(rooms: seq<Room>): (d: seq<Room>)
    ensures forall r :: r in d <==> r in rooms
    ensures Distinct(d)
  {
    if rooms == [] then []
    else
      var d := Dedup(rooms[..|rooms| - 1]);
      if rooms[|rooms| - 1] in d then d else d + [rooms[|rooms| - 1]]
  }

  /** All students placed in the rooms `rs`, counted with multiplicity. */
  ghost function RoomsMultiset(assignments: map<Room, seq<Student>>, rs: seq<Room>): multiset<Student>
    requires forall r :: r in rs ==> r in assignments
  {
    if rs == [] then multiset{}
    else RoomsMultiset(assignments, rs[..|rs| - 1]) + multiset(assignments[rs[|rs| - 1]])
  }

  /** Nothing is lost or duplicated: the unassigned students and the occupants
      of all rooms are exactly the students of `order`. */
  ghost predicate Conserves(order: seq<Student>, rooms: seq<Room>, res: Attempt)
  {
    && (forall r :: r in rooms ==> r in res.assignments)
    && multiset(res.unassigned) + RoomsMultiset(res.assignments, Dedup(rooms)) == multiset(order)
  }

  // ---------------------------------------------------------------------------
  // Properties of the specification
  // ---------------------------------------------------------------------------

  /** A run extended by one allowed decision is a run. */
  lemma RunExtend(order: seq<Student>, rooms: seq<Room>, maxPerRoom: int, maxPerClass: int,
                  decisions: seq<Destination>, states: seq<Attempt>, d: Destination, after: Attempt)
    requires IsRun(order, rooms, maxPerRoom, maxPerClass, decisions, states)
    requires |decisions| < |order|
    requires Step(rooms, maxPerRoom, maxPerClass, states[|decisions|], order[|decisions|], d, after)
    ensures IsRun(order, rooms, maxPerRoom, maxPerClass, decisions + [d], states + [after])
  {
    var decisions', states' := decisions + [d], states + [after];
    forall k | 0 <= k < |decisions'| ensures StepAt(order, rooms, maxPerRoom, maxPerClass, decisions', states', k) {
      if k < |decisions| {
        assert StepAt(order, rooms, maxPerRoom, maxPerClass, decisions, states, k);
        assert states'[k] == states[k] && states'[k + 1] == states[k + 1] && decisions'[k] == decisions[k];
      }
    }
  }

  /** What a step of a run does: a placed student goes to a listed room that
      was open, and the next state applies the decision. */
  lemma StepEffect(order: seq<Student>, rooms: seq<Room>, maxPerRoom: int, maxPerClass: int,
                   decisions: seq<Destination>, states: seq<Attempt>, k: nat)
    requires IsRun(order, rooms, maxPerRoom, maxPerClass, decisions, states)
    requires k < |decisions|
    ensures HasRooms(states[k], rooms)
    ensures decisions[k].Placed? ==>
              decisions[k].room in rooms && Open(states[k].assignments[decisions[k].room], order[k].cls, maxPerRoom, maxPerClass)
    ensures states[k + 1] == Apply(states[k], order[k], decisions[k])
  {
    assert StepAt(order, rooms, maxPerRoom, maxPerClass, decisions, states, k);
  }

  /** Every state of a run has a list for exactly the listed rooms. */
  lemma {:induction false} RoomsStay(order: seq<Student>, rooms: seq<Room>, maxPerRoom: int, maxPerClass: int,
                                     decisions: seq<Destination>, states: seq<Attempt>, k: nat)
    requires IsRun(order, rooms, maxPerRoom, maxPerClass, decisions, states)
    requires k < |states|
    ensures HasRooms(states[k], rooms)
  {
    if k > 0 {
      StepEffect(order, rooms, maxPerRoom, maxPerClass, decisions, states, k - 1);
    }
  }

  /** A student is left unassigned exactly when every room is full or at the
      class cap for its class, and then no room changes; a placed student goes
      to a listed room, which gains that student at the end, and no other room
      changes. */
  lemma DecisionEffect(order: seq<Student>, rooms: seq<Room>, maxPerRoom: int, maxPerClass: int,
                       decisions: seq<Destination>, states: seq<Attempt>, k: nat)
    requires IsRun(order, rooms, maxPerRoom, maxPerClass, decisions, states)
    requires k < |decisions|
    ensures HasRooms(states[k], rooms) && HasRooms(states[k + 1], rooms)
    ensures decisions[k] == Unassigned <==>
              forall r :: r in rooms ==> !Open(states[k].assignments[r], order[k].cls, maxPerRoom, maxPerClass)
    ensures decisions[k] == Unassigned ==>
              && states[k + 1].assignments == states[k].assignments
              && states[k + 1].unassigned == states[k].unassigned + [order[k]]
    ensures decisions[k].Placed? ==>
              && decisions[k].room in rooms
              && states[k + 1].unassigned == states[k].unassigned
              && states[k + 1].assignments[decisions[k].room] == states[k].assignments[decisions[k].room] + [order[k]]
              && forall r :: r in rooms && r != decisions[k].room ==> states[k + 1].assignments[r] == states[k].assignments[r]
  {
    RoomsStay(order, rooms, maxPerRoom, maxPerClass, decisions, states, k + 1);
    assert StepAt(order, rooms, maxPerRoom, maxPerClass, decisions, states, k);
  }

  /** Caps: in every state of a run, no room exceeds the room cap or a class cap. */
  lemma {:induction false} CapsHold(order: seq<Student>, rooms: seq<Room>, maxPerRoom: int, maxPerClass: int,
                                    decisions: seq<Destination>, states: seq<Attempt>, k: nat)
    requires IsRun(order, rooms, maxPerRoom, maxPerClass, decisions, states)
    requires k < |states|
    ensures HasRooms(states[k], rooms)
    ensures forall r :: r in rooms ==> WithinCaps(states[k].assignments[r], maxPerRoom, maxPerClass)
  {
    RoomsStay(order, rooms, maxPerRoom, maxPerClass, decisions, states, k);
    if k > 0 {
      CapsHold(order, rooms, maxPerRoom, maxPerClass, decisions, states, k - 1);
      var prev, s, d := states[k - 1].assignments, order[k - 1], decisions[k - 1];
      StepEffect(order, rooms, maxPerRoom, maxPerClass, decisions, states, k - 1);
      forall r | r in rooms ensures WithinCaps(states[k].assignments[r], maxPerRoom, maxPerClass) {
        if d == Placed(r) {
          assert Open(prev[r], s.cls, maxPerRoom, maxPerClass);
          assert states[k].assignments[r] == prev[r] + [s];
          forall c ensures ClassSize(prev[r] + [s], c) == 0 || ClassSize(prev[r] + [s], c) <= maxPerClass {
            ClassSizeAppend(prev[r], s, c);
          }
        } else {
          assert states[k].assignments[r] == prev[r];
        }
      }
    }
  }

  /** Adding a student to one room adds it once to the students of a list of
      distinct rooms that includes that room, and not at all otherwise. */
  lemma {:induction false} RoomsMultisetAppend(assignments: map<Room, seq<Student>>, rs: seq<Room>, x: Room, s: Student)
    requires Distinct(rs)
    requires forall r :: r in rs ==> r in assignments
    requires x in assignments
    ensures RoomsMultiset(assignments[x := assignments[x] + [s]], rs) ==
            RoomsMultiset(assignments, rs) + (if x in rs then multiset{s} else multiset{})
  {
    if rs != [] {
      var init, last := rs[..|rs| - 1], rs[|rs| - 1];
      var updated := assignments[x := assignments[x] + [s]];
      DistinctEnds(rs);
      RoomsMultisetAppend(assignments, init, x, s);
      assert x in rs <==> x in init || x == last;
      if x == last {
        assert multiset(updated[last]) == multiset(assignments[last]) + multiset{s};
      } else {
        assert updated[last] == assignments[last];
      }
    }
  }

  lemma {:induction false} RoomsMultisetEmpty(assignments: map<Room, seq<Student>>, rs: seq<Room>)
    requires forall r :: r in rs ==> r in assignments && assignments[r] == []
    ensures RoomsMultiset(assignments, rs) == multiset{}
  {
    if rs != [] {
      RoomsMultisetEmpty(assignments, rs[..|rs| - 1]);
    }
  }

  /** Conservation: in every state of a run, the students processed so far are
      each either unassigned or in exactly one room. */
  lemma {:induction false} Conservation(order: seq<Student>, rooms: seq<Room>, maxPerRoom: int, maxPerClass: int,
                                        decisions: seq<Destination>, states: seq<Attempt>, k: nat)
    requires IsRun(order, rooms, maxPerRoom, maxPerClass, decisions, states)
    requires k < |states|
    ensures HasRooms(states[k], rooms)
    ensures multiset(states[k].unassigned) + RoomsMultiset(states[k].assignments, Dedup(rooms)) == multiset(order[..k])
  {
    RoomsStay(order, rooms, maxPerRoom, maxPerClass, decisions, states, k);
    if k == 0 {
      RoomsMultisetEmpty(states[0].assignments, Dedup(rooms));
    } else {
      Conservation(order, rooms, maxPerRoom, maxPerClass, decisions, states, k - 1);
      StepEffect(order, rooms, maxPerRoom, maxPerClass, decisions, states, k - 1);
      assert order[..k] == order[..k - 1] + [order[k - 1]];
      ConservationStep(states[k - 1], states[k], rooms, decisions[k - 1], order[k - 1], order[..k - 1]);
    }
  }

  /** The induction step of `Conservation`: one decision adds its student
      exactly once, to a room or to the unassigned list. */
  lemma ConservationStep(prev: Attempt, next: Attempt, rooms: seq<Room>, d: Destination, s: Student, done: seq<Student>)
    requires HasRooms(prev, rooms)
    requires d.Placed? ==> d.room in rooms
    requires next == Apply(prev, s, d)
    requires multiset(prev.unassigned) + RoomsMultiset(prev.assignments, Dedup(rooms)) == multiset(done)
    ensures HasRooms(next, rooms)
    ensures multiset(next.unassigned) + RoomsMultiset(next.assignments, Dedup(rooms)) == multiset(done + [s])
  {
    assert multiset(done + [s]) == multiset(done) + multiset{s};
    if d.Placed? {
      RoomsMultisetAppend(prev.assignments, Dedup(rooms), d.room, s);
    } else {
      assert multiset(next.unassigned) == multiset(prev.unassigned) + multiset{s};
    }
  }

  /** An attempt's result keeps every student and respects both caps in every room. */
  lemma AttemptIsSound(order: seq<Student>, rooms: seq<Room>, maxPerRoom: int, maxPerClass: int,
                       decisions: seq<Destination>, states: seq<Attempt>, res: Attempt)
    requires IsAttemptOf(order, rooms, maxPerRoom, maxPerClass, decisions, states, res)
    ensures Conserves(order, rooms, res)
    ensures HasRooms(res, rooms)
    ensures forall r :: r in rooms ==> WithinCaps(res.assignments[r], maxPerRoom, maxPerClass)
  {
    Conservation(order, rooms, maxPerRoom, maxPerClass, decisions, states, |order|);
    assert order[..|order|] == order;
    CapsHold(order, rooms, maxPerRoom, maxPerClass, decisions, states, |order|);
  }

  // ---------------------------------------------------------------------------
  // The attempt
  // ---------------------------------------------------------------------------

  /** A read of a `defaultdict(int)`: a class not yet seen counts 0. */
  function CountOf(counts: map<ClassLabel, int>, c: ClassLabel): int
  {
    if c in counts then counts[c] else 0
  }

  /** Lines 45-48: the rooms below the room cap and below the class cap for `cls`. */
  function OpenRooms(rooms: seq<Room>, sizes: map<Room, int>, classCounts: map<Room, map<ClassLabel, int>>,
                     cls: ClassLabel, maxPerRoom: int, maxPerClass: int): (open: seq<Room>)
    requires forall r :: r in rooms ==> r in sizes && r in classCounts
    ensures forall x :: x in open <==>
              x in rooms && sizes[x] < maxPerRoom && CountOf(classCounts[x], cls) < maxPerClass
  {
    if rooms == [] then []
    else
      var r := rooms[0];
      (if sizes[r] < maxPerRoom && CountOf(classCounts[r], cls) < maxPerClass then [r] else [])
      + OpenRooms(rooms[1..], sizes, classCounts, cls, maxPerRoom, maxPerClass)
  }

  /** Line 54: the fewest students of class `cls` in any of `rooms`. */
  function MinClassCount(rooms: seq<Room>, classCounts: map<Room, map<ClassLabel, int>>, cls: ClassLabel): (m: int)
    requires rooms != [] && forall r :: r in rooms ==> r in classCounts
    ensures exists x :: x in rooms && CountOf(classCounts[x], cls) == m
    ensures forall x :: x in rooms ==> m <= CountOf(classCounts[x], cls)
  {
    if |rooms| == 1 then CountOf(classCounts[rooms[0]], cls)
    else
      var m := MinClassCount(rooms[1..], classCounts, cls);
      if CountOf(classCounts[rooms[0]], cls) <= m then CountOf(classCounts[rooms[0]], cls) else m
  }

  /** Line 55: the rooms holding exactly `m` students of class `cls`. */
  function WithClassCount(rooms: seq<Room>, classCounts: map<Room, map<ClassLabel, int>>, cls: ClassLabel, m: int)
    : (r: seq<Room>)
    requires forall r :: r in rooms ==> r in classCounts
    ensures forall x :: x in r <==> x in rooms && CountOf(classCounts[x], cls) == m
  {
    if rooms == [] then []
    else
      (if CountOf(classCounts[rooms[0]], cls) == m then [rooms[0]] else [])
      + WithClassCount(rooms[1..], classCounts, cls, m)
  }

  /** Line 57: the fewest students in any of `rooms`. */
  function MinSize(rooms: seq<Room>, sizes: map<Room, int>): (m: int)
    requires rooms != [] && forall r :: r in rooms ==> r in sizes
    ensures exists x :: x in rooms && sizes[x] == m
    ensures forall x :: x in rooms ==> m <= sizes[x]
  {
    if |rooms| == 1 then sizes[rooms[0]]
    else
      var m := MinSize(rooms[1..], sizes);
      if sizes[rooms[0]] <= m then sizes[rooms[0]] else m
  }

  /** Line 58: the rooms holding exactly `m` students. */
  function WithSize(rooms: seq<Room>, sizes: map<Room, int>, m: int): (r: seq<Room>)
    requires forall r :: r in rooms ==> r in sizes
    ensures forall x :: x in r <==> x in rooms && sizes[x] == m
  {
    if rooms == [] then []
    else (if sizes[rooms[0]] == m then [rooms[0]] else []) + WithSize(rooms[1..], sizes, m)
  }

  /** By the counters: `chosen` is one of `candidates`, none holds fewer
      students of class `cls`, and none with as many of `cls` holds fewer
      students overall. */
  predicate IsFewest(chosen: Room, candidates: seq<Room>, sizes: map<Room, int>,
                     classCounts: map<Room, map<ClassLabel, int>>, cls: ClassLabel)
    requires forall r :: r in candidates ==> r in sizes && r in classCounts
  {
    && chosen in candidates
    && forall x :: x in candidates ==>
         || CountOf(classCounts[chosen], cls) < CountOf(classCounts[x], cls)
         || (CountOf(classCounts[chosen], cls) == CountOf(classCounts[x], cls) && sizes[chosen] <= sizes[x])
  }

  /** Lines 54-58: the candidates narrowed to those with the fewest students
      of class `cls`, then to those with the fewest students: exactly the
      candidates the rule allows. */
  function Finalists(candidates: seq<Room>, sizes: map<Room, int>, classCounts: map<Room, map<ClassLabel, int>>,
                     cls: ClassLabel): (finalists: seq<Room>)
    requires candidates != []
    requires forall r :: r in candidates ==> r in sizes && r in classCounts
    ensures finalists != []
    ensures forall x :: x in finalists <==> IsFewest(x, candidates, sizes, classCounts, cls)
  {
    var minClassCount := MinClassCount(candidates, classCounts, cls);
    var fewestOfClass := WithClassCount(candidates, classCounts, cls, minClassCount);
    var minRoomSize := MinSize(fewestOfClass, sizes);
    var finalists := WithSize(fewestOfClass, sizes, minRoomSize);
    assert forall x :: IsFewest(x, candidates, sizes, classCounts, cls) ==> x in finalists by {
      forall x | IsFewest(x, candidates, sizes, classCounts, cls) ensures x in finalists {
        var z :| z in candidates && CountOf(classCounts[z], cls) == minClassCount;
        assert x in fewestOfClass;
        var w :| w in fewestOfClass && sizes[w] == minRoomSize;
      }
    }
    finalists
  }

  /** Line 60: the random pick among the finalists is an arbitrary choice. */
  method ChooseRoom(candidates: seq<Room>, sizes: map<Room, int>, classCounts: map<Room, map<ClassLabel, int>>,
                    cls: ClassLabel) returns (chosen: Room)
    requires candidates != []
    requires forall r :: r in candidates ==> r in sizes && r in classCounts
    ensures IsFewest(chosen, candidates, sizes, classCounts, cls)
  {
    var finalists := Finalists(candidates, sizes, classCounts, cls);
    chosen :| chosen in finalists;
  }

  /** The counters of lines 39-40 agree with the state: `sizes` holds each
      room's number of students and `classCounts` each room's number of
      students per class (absent classes count 0). */
  ghost predicate Agrees(a: Attempt, rooms: seq<Room>, sizes: map<Room, int>,
                         classCounts: map<Room, map<ClassLabel, int>>)
  {
    && HasRooms(a, rooms)
    && (forall r :: r in sizes <==> r in rooms)
    && (forall r :: r in classCounts <==> r in rooms)
    && (forall r :: r in sizes ==> sizes[r] == |a.assignments[r]|)
    && (forall r :: r in classCounts ==> CountsMatch(classCounts[r], a.assignments[r]))
  }

  ghost predicate CountsMatch(counts: map<ClassLabel, int>, occupants: seq<Student>)
  {
    forall c :: CountOf(counts, c) == ClassSize(occupants, c)
  }

  /** The counters start out agreeing with the initial state. */
  lemma InitialAgrees(rooms: seq<Room>)
    ensures Agrees(Initial(rooms), rooms, map r | r in rooms :: 0, map r | r in rooms :: map[])
  {
  }

  /** Given counters that agree with the state, the narrowing of lines 54-58
      picks exactly the rooms the choice rule allows: a candidate with the
      fewest students of the class, then the fewest students, is a best room,
      and every best room is such a candidate. */
  lemma NarrowingMatchesRule(a: Attempt, rooms: seq<Room>, s: Student, maxPerRoom: int, maxPerClass: int,
                             sizes: map<Room, int>, classCounts: map<Room, map<ClassLabel, int>>,
                             candidates: seq<Room>, x: Room)
    requires Agrees(a, rooms, sizes, classCounts)
    requires forall y :: y in candidates <==>
               y in rooms && sizes[y] < maxPerRoom && CountOf(classCounts[y], s.cls) < maxPerClass
    ensures IsFewest(x, candidates, sizes, classCounts, s.cls) <==> Allowed(a, rooms, s, Placed(x), maxPerRoom, maxPerClass)
  {
    forall y | y in rooms ensures CountOf(classCounts[y], s.cls) == ClassSize(a.assignments[y], s.cls) {
      assert CountsMatch(classCounts[y], a.assignments[y]);
    }
  }

  /** Lines 50-52: with no open room, leaving the student unassigned is an
      allowed step, and the counters still agree. */
  lemma SkipStep(a: Attempt, rooms: seq<Room>, s: Student, maxPerRoom: int, maxPerClass: int,
                 sizes: map<Room, int>, classCounts: map<Room, map<ClassLabel, int>>)
    requires Agrees(a, rooms, sizes, classCounts)
    requires forall x :: x in rooms ==> !(sizes[x] < maxPerRoom && CountOf(classCounts[x], s.cls) < maxPerClass)
    ensures Step(rooms, maxPerRoom, maxPerClass, a, s, Unassigned, Apply(a, s, Unassigned))
    ensures Agrees(Apply(a, s, Unassigned), rooms, sizes, classCounts)
  {
  }

  /** Placing the student in a room the rule allows is an allowed step. */
  lemma PlaceStep(a: Attempt, rooms: seq<Room>, s: Student, maxPerRoom: int, maxPerClass: int, chosen: Room)
    requires HasRooms(a, rooms)
    requires Allowed(a, rooms, s, Placed(chosen), maxPerRoom, maxPerClass)
    ensures chosen in rooms && chosen in a.assignments
    ensures Step(rooms, maxPerRoom, maxPerClass, a, s, Placed(chosen), Apply(a, s, Placed(chosen)))
  {
  }

  /** Lines 61-63 keep the counters in step with the room lists: only the
      chosen room's size, and its counter for the student's class, go up by one. */
  lemma CountersAfterPlacement(a: Attempt, rooms: seq<Room>, s: Student, sizes: map<Room, int>,
                               classCounts: map<Room, map<ClassLabel, int>>, chosen: Room,
                               a': Attempt, sizes': map<Room, int>, classCounts': map<Room, map<ClassLabel, int>>)
    requires Agrees(a, rooms, sizes, classCounts)
    requires chosen in rooms
    requires a' == Apply(a, s, Placed(chosen))
    requires sizes' == sizes[chosen := sizes[chosen] + 1]
    requires classCounts' == classCounts[chosen := classCounts[chosen][s.cls := CountOf(classCounts[chosen], s.cls) + 1]]
    ensures Agrees(a', rooms, sizes', classCounts')
  {
    var occ, occ' := a.assignments, a'.assignments;
    assert occ' == occ[chosen := occ[chosen] + [s]];
    assert CountsMatch(classCounts'[chosen], occ'[chosen]) by {
      assert CountsMatch(classCounts[chosen], occ[chosen]);
      forall c ensures CountOf(classCounts'[chosen], c) == ClassSize(occ'[chosen], c) {
        ClassSizeAppend(occ[chosen], s, c);
      }
    }
    forall r | r in classCounts' ensures CountsMatch(classCounts'[r], occ'[r]) {
      if r != chosen {
        assert CountsMatch(classCounts[r], occ[r]);
      }
    }
  }

  /** Lines 44-63 for one student: it goes to a room the choice rule allows
      (the random pick among the finalists is an arbitrary choice), or to the
      unassigned list when no room is open; the counters follow the room lists.
      `d` records the decision. */
  method Assign(student: Student, rooms: seq<Room>, maxPerRoom: int, maxPerClass: int,
                a: Attempt, sizes: map<Room, int>, classCounts: map<Room, map<ClassLabel, int>>)
    returns (a': Attempt, sizes': map<Room, int>, classCounts': map<Room, map<ClassLabel, int>>, ghost d: Destination)
    requires Agrees(a, rooms, sizes, classCounts)
    ensures Step(rooms, maxPerRoom, maxPerClass, a, student, d, a')
    ensures Agrees(a', rooms, sizes', classCounts')
  {
    var cls := student.cls;
    var candidates := OpenRooms(rooms, sizes, classCounts, cls, maxPerRoom, maxPerClass);
    if candidates == [] {
      SkipStep(a, rooms, student, maxPerRoom, maxPerClass, sizes, classCounts);
      d := Unassigned;
      a', sizes', classCounts' := Apply(a, student, Unassigned), sizes, classCounts;
    } else {
      var chosen := ChooseRoom(candidates, sizes, classCounts, cls);
      NarrowingMatchesRule(a, rooms, student, maxPerRoom, maxPerClass, sizes, classCounts, candidates, chosen);
      PlaceStep(a, rooms, student, maxPerRoom, maxPerClass, chosen);
      d := Placed(chosen);
      a' := Apply(a, student, Placed(chosen));
      sizes' := sizes[chosen := sizes[chosen] + 1];
      classCounts' := classCounts[chosen := classCounts[chosen][cls := CountOf(classCounts[chosen], cls) + 1]];
      CountersAfterPlacement(a, rooms, student, sizes, classCounts, chosen, a', sizes', classCounts');
    }
  }

  /** One attempt over the processing order `order` (lines 38-63); `decisions`
      and `states` record the run it took. */
  method RunAttempt(order: seq<Student>, rooms: seq<Room>, maxPerRoom: int, maxPerClass: int)
    returns (res: Attempt, ghost decisions: seq<Destination>, ghost states: seq<Attempt>)
    ensures IsAttemptOf(order, rooms, maxPerRoom, maxPerClass, decisions, states, res)
    ensures Conserves(order, rooms, res)
    ensures HasRooms(res, rooms)
    ensures forall r :: r in rooms ==> WithinCaps(res.assignments[r], maxPerRoom, maxPerClass)
  {
    var current := Initial(rooms);
    var sizes: map<Room, int> := map r | r in rooms :: 0;
    var classCounts: map<Room, map<ClassLabel, int>> := map r | r in rooms :: map[];
    decisions, states := [], [current];
    InitialAgrees(rooms);

    var i := 0;
    while i < |order|
      invariant 0 <= i <= |order| && |decisions| == i
      invariant IsRun(order, rooms, maxPerRoom, maxPerClass, decisions, states)
      invariant states[i] == current
      invariant Agrees(current, rooms, sizes, classCounts)
    {
      var next;
      ghost var d;
      next, sizes, classCounts, d := Assign(order[i], rooms, maxPerRoom, maxPerClass, current, sizes, classCounts);
      RunExtend(order, rooms, maxPerRoom, maxPerClass, decisions, states, d, next);
      decisions, states := decisions + [d], states + [next];
      current := next;
      i := i + 1;
    }
    res := current;
    AttemptIsSound(order, rooms, maxPerRoom, maxPerClass, decisions, states, res);
  }
}
