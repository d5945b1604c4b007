/** The order in which one attempt visits the students (allocator.py:26, 31-36).
    The classes are sorted by decreasing size with a random tie-break and each
    class's rows are shuffled; both random draws are inputs here: `classOrder`
    is one possible result of the sort and `shuffled[c]` one possible result of
    `sample(frac=1)` on class `c`. */
module Ordering {
  import opened Students

  /** Students of one class are contiguous in `order`. */
  ghost predicate Grouped(order: seq<Student>)
  {
    forall i, j, k :: 0 <= i < j < k < |order| && order[i].cls == order[k].cls ==> order[j].cls == order[i].cls
  }

  /** Larger classes (counted in `students`) come before smaller ones. */
  ghost predicate LargestClassesFirst(students: seq<Student>, order: seq<Student>)
  {
    forall i, j :: 0 <= i < j < |order| ==> ClassSize(students, order[i].cls) >= ClassSize(students, order[j].cls)
  }

  /** The orders an attempt can process: every student exactly as often as in
      the table, grouped by class, classes by non-increasing size. */
  ghost predicate IsProcessingOrder(students: seq<Student>, order: seq<Student>)
  {
    && multiset(order) == multiset(students)
    && Grouped(order)
    && LargestClassesFirst(students, order)
  }

  /** The possible results of `sorted(class_sizes, key=(-size, random()))`:
      every class once, by non-increasing size. */
  ghost predicate IsClassOrder(students: seq<Student>, classOrder: seq<ClassLabel>)
  {
    && Distinct(classOrder)
    && (forall c :: c in classOrder <==> c in Classes(students))
    && BySize(students, classOrder)
  }

  /** Each class of `classOrder` has a shuffle: a permutation of its rows. */
  ghost predicate AreShuffles(students: seq<Student>, classOrder: seq<ClassLabel>, shuffled: map<ClassLabel, seq<Student>>)
  {
    forall c :: c in classOrder ==> c in shuffled && multiset(shuffled[c]) == multiset(OfClass(students, c))
  }

  /** The classes' shuffled rows concatenated in class order (`ordered_students`). */
  function ProcessingOrder(classOrder: seq<ClassLabel>, shuffled: map<ClassLabel, seq<Student>>): (order: seq<Student>)
    requires forall c :: c in classOrder ==> c in shuffled
    ensures forall y :: y in order ==> exists c :: c in classOrder && y in shuffled[c]
    ensures forall c, y :: c in classOrder && y in shuffled[c] ==> y in order
  {
    if classOrder == [] then []
    else shuffled[classOrder[0]] + ProcessingOrder(classOrder[1..], shuffled)
  }

  /** `order` is what lines 31-36 build from the draws `classOrder` and `shuffled`. */
  ghost predicate IsDrawnOrder(order: seq<Student>, classOrder: seq<ClassLabel>, shuffled: map<ClassLabel, seq<Student>>)
  {
    && (forall c :: c in classOrder ==> c in shuffled)
    && order == ProcessingOrder(classOrder, shuffled)
  }

  /** Each student of a listed class occurs as often as in the table; others do not occur. */
  lemma {:induction false} ProcessingOrderCounts(students: seq<Student>, classOrder: seq<ClassLabel>,
                                                 shuffled: map<ClassLabel, seq<Student>>, x: Student)
    requires Distinct(classOrder)
    requires AreShuffles(students, classOrder, shuffled)
    ensures multiset(ProcessingOrder(classOrder, shuffled))[x] == if x.cls in classOrder then multiset(students)[x] else 0
  {
    if classOrder != [] {
      var c, rest := classOrder[0], classOrder[1..];
      ProcessingOrderCounts(students, rest, shuffled, x);
      OfClassMultiset(students, c, x);
      DistinctEnds(classOrder);
    }
  }

  /** Every student of the order belongs to a listed class. */
  lemma ProcessingOrderClasses(students: seq<Student>, classOrder: seq<ClassLabel>, shuffled: map<ClassLabel, seq<Student>>)
    requires Distinct(classOrder)
    requires AreShuffles(students, classOrder, shuffled)
    ensures forall y :: y in ProcessingOrder(classOrder, shuffled) ==> y.cls in classOrder
  {
    forall y | y in ProcessingOrder(classOrder, shuffled) ensures y.cls in classOrder {
      ProcessingOrderCounts(students, classOrder, shuffled, y);
    }
  }

  /** A shuffle holds only students of its own class. */
  lemma ShuffleIsOneClass(students: seq<Student>, c: ClassLabel, block: seq<Student>)
    requires multiset(block) == multiset(OfClass(students, c))
    ensures forall y :: y in block ==> y.cls == c
  {
    forall y | y in block ensures y.cls == c {
      assert y in multiset(OfClass(students, c));
      OfClassMultiset(students, c, y);
    }
  }

  lemma {:induction false} ProcessingOrderGrouped(students: seq<Student>, classOrder: seq<ClassLabel>,
                                                  shuffled: map<ClassLabel, seq<Student>>)
    requires Distinct(classOrder)
    requires AreShuffles(students, classOrder, shuffled)
    ensures Grouped(ProcessingOrder(classOrder, shuffled))
  {
    if classOrder != [] {
      var c, rest := classOrder[0], classOrder[1..];
      var block, tail := shuffled[c], ProcessingOrder(rest, shuffled);
      var order := block + tail;
      ProcessingOrderGrouped(students, rest, shuffled);
      ProcessingOrderClasses(students, rest, shuffled);
      ShuffleIsOneClass(students, c, block);
      DistinctEnds(classOrder);
      GroupedConcat(block, tail, c);
    }
  }

  /** A block of one class followed by a grouped tail without that class is grouped. */
  lemma GroupedConcat(block: seq<Student>, tail: seq<Student>, c: ClassLabel)
    requires forall y :: y in block ==> y.cls == c
    requires forall y :: y in tail ==> y.cls != c
    requires Grouped(tail)
    ensures Grouped(block + tail)
  {
    var order := block + tail;
    forall i, k | 0 <= i < |block| <= k < |order| ensures order[i].cls != order[k].cls {
      assert order[i] in block && order[k] == tail[k - |block|] && tail[k - |block|] in tail;
    }
    forall i, j, k | 0 <= i < j < k < |order| && order[i].cls == order[k].cls
      ensures order[j].cls == order[i].cls
    {
      if k < |block| {
        assert order[i] in block && order[j] in block && order[k] in block;
      } else if i >= |block| {
        assert order[i] == tail[i - |block|] && order[j] == tail[j - |block|] && order[k] == tail[k - |block|];
      }
    }
  }

  /** Classes listed by non-increasing size. */
  ghost predicate BySize(students: seq<Student>, classOrder: seq<ClassLabel>)
  {
    forall i, j :: 0 <= i < j < |classOrder| ==> ClassSize(students, classOrder[i]) >= ClassSize(students, classOrder[j])
  }

  lemma {:induction false} ProcessingOrderLargestFirst(students: seq<Student>, classOrder: seq<ClassLabel>,
                                                       shuffled: map<ClassLabel, seq<Student>>)
    requires Distinct(classOrder) && BySize(students, classOrder)
    requires AreShuffles(students, classOrder, shuffled)
    ensures LargestClassesFirst(students, ProcessingOrder(classOrder, shuffled))
  {
    if classOrder != [] {
      var c, rest := classOrder[0], classOrder[1..];
      var block, tail := shuffled[c], ProcessingOrder(rest, shuffled);
      DistinctEnds(classOrder);
      assert BySize(students, rest) by {
        forall i, j | 0 <= i < j < |rest| ensures ClassSize(students, rest[i]) >= ClassSize(students, rest[j]) {
          assert rest[i] == classOrder[i + 1] && rest[j] == classOrder[j + 1];
        }
      }
      ProcessingOrderLargestFirst(students, rest, shuffled);
      ProcessingOrderClasses(students, rest, shuffled);
      ShuffleIsOneClass(students, c, block);
      HeadIsLargest(students, classOrder);
      LargestFirstConcat(students, block, tail, c);
    }
  }

  /** The first class of a list by non-increasing size is at least as large as every later one. */
  lemma HeadIsLargest(students: seq<Student>, classOrder: seq<ClassLabel>)
    requires BySize(students, classOrder) && classOrder != []
    ensures forall d :: d in classOrder[1..] ==> ClassSize(students, d) <= ClassSize(students, classOrder[0])
  {
    forall d | d in classOrder[1..] ensures ClassSize(students, d) <= ClassSize(students, classOrder[0]) {
      var m :| 0 <= m < |classOrder[1..]| && classOrder[1..][m] == d;
      assert classOrder[m + 1] == d;
    }
  }

  /** A block of one class followed by a tail of classes no larger, itself
      largest-first, is largest-first. */
  lemma LargestFirstConcat(students: seq<Student>, block: seq<Student>, tail: seq<Student>, c: ClassLabel)
    requires forall y :: y in block ==> y.cls == c
    requires forall y :: y in tail ==> ClassSize(students, y.cls) <= ClassSize(students, c)
    requires LargestClassesFirst(students, tail)
    ensures LargestClassesFirst(students, block + tail)
  {
    var order := block + tail;
    forall i, j | 0 <= i < j < |order|
      ensures ClassSize(students, order[i].cls) >= ClassSize(students, order[j].cls)
    {
      if j < |block| {
        assert order[i] in block && order[j] in block;
      } else if i >= |block| {
        assert order[i] == tail[i - |block|] && order[j] == tail[j - |block|];
      } else {
        assert order[i] in block && order[j] == tail[j - |block|] && tail[j - |block|] in tail;
      }
    }
  }

  /** Lines 31-36 produce a processing order: the concatenated shuffles are a
      permutation of the students, grouped by class, largest classes first. */
  lemma ProcessingOrderIsValid(students: seq<Student>, classOrder: seq<ClassLabel>, shuffled: map<ClassLabel, seq<Student>>)
    requires IsClassOrder(students, classOrder)
    requires AreShuffles(students, classOrder, shuffled)
    ensures IsProcessingOrder(students, ProcessingOrder(classOrder, shuffled))
  {
    var order := ProcessingOrder(classOrder, shuffled);
    forall x ensures multiset(order)[x] == multiset(students)[x] {
      ProcessingOrderCounts(students, classOrder, shuffled, x);
      if x.cls !in classOrder {
        assert x !in students;
      }
    }
    assert multiset(order) == multiset(students);
    ProcessingOrderGrouped(students, classOrder, shuffled);
    ProcessingOrderLargestFirst(students, classOrder, shuffled);
  }
}
