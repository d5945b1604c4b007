/** `build_assignments` (allocator.py:25-72): repeat the randomized attempt up
    to `attempts` times, keep the attempt with the fewest unassigned students
    (the earliest one on a tie), and stop as soon as an attempt leaves nobody
    unassigned.

    The random draws are inputs: attempt `t` uses the class order
    `classOrders[t]` and the per-class shuffles `shuffles[t]`. */
module Balancer {
  import opened Students
  import opened Ordering
  import opened Placement

  datatype Option<T> = None | Some(value: T)

  /** The attempt held in `best_assignments`/`best_unassigned` after the
      attempts `runs`, in order: a later attempt replaces the kept one only
      when it leaves strictly fewer students unassigned (lines 65-67). */
  function Kept(runs: seq<Attempt>): (r: Option<Attempt>)
    ensures r.None? <==> runs == []
    ensures r.Some? ==> r.value in runs
  {
    if runs == [] then None
    else
      var prev, last := Kept(runs[..|runs| - 1]), runs[|runs| - 1];
      if prev.None? || |last.unassigned| < |prev.value.unassigned| then Some(last) else prev
  }

  /** The kept attempt is the earliest of those with the fewest unassigned
      students: none leaves fewer unassigned, and every earlier one leaves
      strictly more. */
  lemma {:induction false} KeptIsEarliestFewest(runs: seq<Attempt>) returns (k: nat)
    requires runs != []
    ensures k < |runs| && Kept(runs) == Some(runs[k])
    ensures forall j :: 0 <= j < |runs| ==> |runs[k].unassigned| <= |runs[j].unassigned|
    ensures forall j :: 0 <= j < k ==> |runs[k].unassigned| < |runs[j].unassigned|
  {
    var init, last := runs[..|runs| - 1], runs[|runs| - 1];
    if init == [] {
      k := 0;
    } else {
      var k' := KeptIsEarliestFewest(init);
      assert forall j :: 0 <= j < |init| ==> runs[j] == init[j];
      if |last.unassigned| < |init[k'].unassigned| {
        k := |runs| - 1;
      } else {
        k := k';
      }
    }
  }

  /** One more attempt replaces the kept one only when it leaves strictly
      fewer students unassigned; otherwise the kept attempt stays. */
  lemma KeptReplacedOnlyOnImprovement(runs: seq<Attempt>, n: nat)
    requires 0 < n < |runs|
    ensures Kept(runs[..n]).Some? && Kept(runs[..n + 1]).Some?
    ensures Kept(runs[..n + 1]) == Kept(runs[..n]) || |runs[n].unassigned| < |Kept(runs[..n]).value.unassigned|
    ensures Kept(runs[..n + 1]) != Kept(runs[..n]) ==> Kept(runs[..n + 1]) == Some(runs[n])
  {
    assert runs[..n + 1][..n] == runs[..n];
  }

  /** The number of unassigned students of the kept attempt never grows as
      attempts are added. */
  lemma KeptNonIncreasing(runs: seq<Attempt>, m: nat, n: nat)
    requires 0 < m <= n <= |runs|
    ensures Kept(runs[..m]).Some? && Kept(runs[..n]).Some?
    ensures |Kept(runs[..n]).value.unassigned| <= |Kept(runs[..m]).value.unassigned|
  {
    var km := KeptIsEarliestFewest(runs[..m]);
    var kn := KeptIsEarliestFewest(runs[..n]);
    assert runs[..n][km] == runs[..m][km];
  }

  /** The outcome for one attempt number: the attempt's processing order, its
      run and its result. */
  ghost predicate IsRunOfAttempt(students: seq<Student>, rooms: seq<Room>, maxPerRoom: int, maxPerClass: int,
                                 order: seq<Student>, decisions: seq<Destination>, states: seq<Attempt>, res: Attempt)
  {
    && IsProcessingOrder(students, order)
    && IsAttemptOf(order, rooms, maxPerRoom, maxPerClass, decisions, states, res)
  }

  /** What every attempt guarantees about the table as a whole: every student
      is in exactly one room or unassigned, every room is a key, and both caps
      hold in every room. */
  ghost predicate Sound(students: seq<Student>, rooms: seq<Room>, maxPerRoom: int, maxPerClass: int, res: Attempt)
  {
    && Conserves(students, rooms, res)
    && HasRooms(res, rooms)
    && forall r :: r in rooms ==> WithinCaps(res.assignments[r], maxPerRoom, maxPerClass)
  }

  /** An attempt over a processing order of the table is sound for the table. */
  lemma AttemptOfTableIsSound(students: seq<Student>, rooms: seq<Room>, maxPerRoom: int, maxPerClass: int,
                              order: seq<Student>, decisions: seq<Destination>, states: seq<Attempt>, res: Attempt)
    requires IsRunOfAttempt(students, rooms, maxPerRoom, maxPerClass, order, decisions, states, res)
    ensures Sound(students, rooms, maxPerRoom, maxPerClass, res)
  {
    AttemptIsSound(order, rooms, maxPerRoom, maxPerClass, decisions, states, res);
  }

  /** `runs` are attempts over processing orders of the table, each with its
      order and run, and each sound. */
  ghost predicate Attempts(students: seq<Student>, rooms: seq<Room>, maxPerRoom: int, maxPerClass: int,
                           orders: seq<seq<Student>>, decisions: seq<seq<Destination>>, states: seq<seq<Attempt>>,
                           runs: seq<Attempt>)
  {
    && |orders| == |decisions| == |states| == |runs|
    && forall u :: 0 <= u < |runs| ==> AttemptAt(students, rooms, maxPerRoom, maxPerClass, orders, decisions, states, runs, u)
  }

  /** Attempt number `u` is an attempt over a processing order of the table, and sound. */
  ghost predicate AttemptAt(students: seq<Student>, rooms: seq<Room>, maxPerRoom: int, maxPerClass: int,
                            orders: seq<seq<Student>>, decisions: seq<seq<Destination>>, states: seq<seq<Attempt>>,
                            runs: seq<Attempt>, u: int)
    requires 0 <= u < |runs| && |orders| == |decisions| == |states| == |runs|
  {
    && IsRunOfAttempt(students, rooms, maxPerRoom, maxPerClass, orders[u], decisions[u], states[u], runs[u])
    && Sound(students, rooms, maxPerRoom, maxPerClass, runs[u])
  }

  lemma AttemptsExtend(students: seq<Student>, rooms: seq<Room>, maxPerRoom: int, maxPerClass: int,
                       orders: seq<seq<Student>>, decisions: seq<seq<Destination>>, states: seq<seq<Attempt>>,
                       runs: seq<Attempt>, order: seq<Student>, ds: seq<Destination>, ss: seq<Attempt>, res: Attempt)
    requires Attempts(students, rooms, maxPerRoom, maxPerClass, orders, decisions, states, runs)
    requires IsRunOfAttempt(students, rooms, maxPerRoom, maxPerClass, order, ds, ss, res)
    ensures Attempts(students, rooms, maxPerRoom, maxPerClass, orders + [order], decisions + [ds], states + [ss], runs + [res])
  {
    AttemptOfTableIsSound(students, rooms, maxPerRoom, maxPerClass, order, ds, ss, res);
    var orders', decisions', states', runs' := orders + [order], decisions + [ds], states + [ss], runs + [res];
    forall u | 0 <= u < |runs'|
      ensures AttemptAt(students, rooms, maxPerRoom, maxPerClass, orders', decisions', states', runs', u)
    {
      if u < |runs| {
        assert AttemptAt(students, rooms, maxPerRoom, maxPerClass, orders, decisions, states, runs, u);
        assert orders'[u] == orders[u] && decisions'[u] == decisions[u] && states'[u] == states[u] && runs'[u] == runs[u];
      }
    }
  }

  /** Attempt `u` processed the order drawn by `classOrders[u]` and `shuffles[u]`. */
  ghost predicate DrawnOrders(orders: seq<seq<Student>>, classOrders: seq<seq<ClassLabel>>,
                              shuffles: seq<map<ClassLabel, seq<Student>>>)
  {
    && |orders| <= |classOrders| == |shuffles|
    && forall u :: 0 <= u < |orders| ==> IsDrawnOrder(orders[u], classOrders[u], shuffles[u])
  }

  lemma DrawnOrdersExtend(orders: seq<seq<Student>>, classOrders: seq<seq<ClassLabel>>,
                          shuffles: seq<map<ClassLabel, seq<Student>>>, order: seq<Student>)
    requires DrawnOrders(orders, classOrders, shuffles) && |orders| < |classOrders|
    requires IsDrawnOrder(order, classOrders[|orders|], shuffles[|orders|])
    ensures DrawnOrders(orders + [order], classOrders, shuffles)
  {
    var orders' := orders + [order];
    forall u | 0 <= u < |orders'| ensures IsDrawnOrder(orders'[u], classOrders[u], shuffles[u]) {
      if u < |orders| {
        assert orders'[u] == orders[u];
      }
    }
  }

  /** Lines 25-72. `runs` are the attempts made, in order, attempt `u` over
      the processing order drawn by `classOrders[u]` and `shuffles[u]`; the
      result is the kept one, or `None` when no attempt was made. */
  method BuildAssignments(students: seq<Student>, rooms: seq<Room>, maxPerRoom: int, maxPerClass: int, attempts: int,
                          classOrders: seq<seq<ClassLabel>>, shuffles: seq<map<ClassLabel, seq<Student>>>)
    returns (best: Option<Attempt>, ghost runs: seq<Attempt>, ghost orders: seq<seq<Student>>,
             ghost decisions: seq<seq<Destination>>, ghost states: seq<seq<Attempt>>)
    requires attempts <= |classOrders| && |shuffles| == |classOrders|
    requires forall t :: 0 <= t < |classOrders| ==>
               IsClassOrder(students, classOrders[t]) && AreShuffles(students, classOrders[t], shuffles[t])
    ensures Attempts(students, rooms, maxPerRoom, maxPerClass, orders, decisions, states, runs)
    ensures DrawnOrders(orders, classOrders, shuffles)
    ensures attempts <= 0 ==> runs == []
    ensures attempts > 0 ==> 1 <= |runs| <= attempts
    ensures |runs| < attempts ==> runs[|runs| - 1].unassigned == []
    ensures forall t :: 0 <= t < |runs| - 1 ==> runs[t].unassigned != []
    ensures best == Kept(runs)
    ensures best.None? <==> attempts <= 0
    ensures best.Some? ==> Sound(students, rooms, maxPerRoom, maxPerClass, best.value)
  {
    best := None;
    runs, orders, decisions, states := [], [], [], [];
    var t := 0;
    while t < attempts
      invariant 0 <= t && (t <= attempts || t == 0)
      invariant |runs| == |orders| == t
      invariant DrawnOrders(orders, classOrders, shuffles)
      invariant Attempts(students, rooms, maxPerRoom, maxPerClass, orders, decisions, states, runs)
      invariant forall u :: 0 <= u < t ==> runs[u].unassigned != []
      invariant best == Kept(runs)
    {
      var order := ProcessingOrder(classOrders[t], shuffles[t]);
      ProcessingOrderIsValid(students, classOrders[t], shuffles[t]);
      DrawnOrdersExtend(orders, classOrders, shuffles, order);
      var res, ds, ss := RunAttempt(order, rooms, maxPerRoom, maxPerClass);
      AttemptsExtend(students, rooms, maxPerRoom, maxPerClass, orders, decisions, states, runs, order, ds, ss, res);
      if best.None? || |res.unassigned| < |best.value.unassigned| {
        best := Some(res);
      }
      assert (runs + [res])[..t] == runs;
      runs, orders, decisions, states := runs + [res], orders + [order], decisions + [ds], states + [ss];
      t := t + 1;
      if res.unassigned == [] {
        break;
      }
    }
    if best.Some? {
      var k := KeptIsEarliestFewest(runs);
      assert AttemptAt(students, rooms, maxPerRoom, maxPerClass, orders, decisions, states, runs, k);
    }
  }
}
