/** The records the allocator works on: a student row of the student table
    and the labels of classes and rooms. */
module Students {

  /** A class label, such as "7A" (the class column of the student table). */
  type ClassLabel = string

  /** A room label (the room column of the rooms table, read as text). */
  type Room = string

  /** One row of the student table: identifier, class, family name, given name.
      The identifier is text, so leading zeros survive. */
  datatype Student = Student(id: string, cls: ClassLabel, surname: string, name: string)

  /** The students of `s` that belong to class `c`, in their order in `s`
      (the rows selected by `students_df[students_df[class] == c]`). */
  function OfClass(s: seq<Student>, c: ClassLabel): seq<Student>
  {
    if s == [] then []
    else OfClass(s[..|s| - 1], c) + (if s[|s| - 1].cls == c then [s[|s| - 1]] else [])
  }

  /** How many students of `s` are in class `c`. */
  function ClassSize(s: seq<Student>, c: ClassLabel): nat
  {
    |OfClass(s, c)|
  }

  /** The class labels that occur among the students (the keys of `value_counts`). */
  function Classes(s: seq<Student>): set<ClassLabel>
  {
    set x | x in s :: x.cls
  }

  /** No element occurs twice in `s`. */
  ghost predicate Distinct<T>(s: seq<T>)
  {
    forall i, j :: 0 <= i < j < |s| ==> s[i] != s[j]
  }

  /** Dropping the first or the last element of a list without repetitions
      leaves a list without repetitions that does not contain it. */
  lemma DistinctEnds<T>(s: seq<T>)
    requires s != [] && Distinct(s)
    ensures s[0] !in s[1..] && Distinct(s[1..])
    ensures s[|s| - 1] !in s[..|s| - 1] && Distinct(s[..|s| - 1])
  {
    forall k | 0 <= k < |s| - 1 ensures s[1..][k] != s[0] && s[..|s| - 1][k] != s[|s| - 1] {
      assert s[1..][k] == s[k + 1] && s[..|s| - 1][k] == s[k];
    }
  }

  /** Selecting a class keeps each student of that class as often as it occurs
      and drops every other student. */
  lemma {:induction false} OfClassMultiset(s: seq<Student>, c: ClassLabel, x: Student)
    ensures multiset(OfClass(s, c))[x] == if x.cls == c then multiset(s)[x] else 0
  {
    if s != [] {
      var init, last := s[..|s| - 1], s[|s| - 1];
      assert s == init + [last];
      OfClassMultiset(init, c, x);
    }
  }

  /** The class sizes add up over a student appended at the end. */
  lemma ClassSizeAppend(s: seq<Student>, x: Student, c: ClassLabel)
    ensures ClassSize(s + [x], c) == ClassSize(s, c) + (if x.cls == c then 1 else 0)
  {
    assert (s + [x])[..|s|] == s;
  }
}
