/** The structural check made before balancing: the rooms table must have the
    room column and the student table the four student columns. A table is
    modelled by the set of its column names. */
module Validation {

  /** The room column of the rooms table ("Кабинет"). */
  const RoomColumn: string := "Кабинет"

  /** The student columns: identifier, class, family name, given name. */
  const StudentColumns: set<string> := {"ИИН", "Сыныбы", "Тегі", "Аты"}

  /** The same four columns in code-point order. */
  const StudentColumnsSorted: seq<string> := ["Аты", "ИИН", "Сыныбы", "Тегі"]

  /** What the check reports: the missing room column, or the missing
      student columns, sorted. */
  datatype InputError =
    | MissingRoomColumn
    | MissingStudentColumns(columns: seq<string>)

  datatype Outcome = Pass | Fail(error: InputError)

  /** Code-point lexicographic order on strings, as Python compares `str`. */
  predicate LexLess(a: string, b: string)
  {
    if a == [] then b != []
    else if b == [] then false
    else if a[0] != b[0] then a[0] < b[0]
    else LexLess(a[1..], b[1..])
  }

  predicate Sorted(s: seq<string>)
  {
    forall i, j :: 0 <= i < j < |s| ==> LexLess(s[i], s[j])
  }

  lemma StudentColumnsSortedIsSorted()
    ensures Sorted(StudentColumnsSorted)
    ensures forall c :: c in StudentColumnsSorted <==> c in StudentColumns
  {
  }

  /** The elements of `s` that are not in `present`, in the order of `s`. */
  function Without(s: seq<string>, present: set<string>): (r: seq<string>)
    requires Sorted(s)
    ensures forall c :: c in r <==> c in s && c !in present
    ensures Sorted(r)
  {
    if s == [] then []
    else
      var rest := Without(s[1..], present);
      if s[0] in present then rest
      else
        assert forall j :: 0 <= j < |rest| ==> LexLess(s[0], rest[j]) by {
          forall j | 0 <= j < |rest| ensures LexLess(s[0], rest[j]) {
            assert rest[j] in rest;
            var k :| 0 <= k < |s[1..]| && s[1..][k] == rest[j];
            assert s[k + 1] == rest[j];
          }
        }
        [s[0]] + rest
  }

  /** The missing student columns, sorted (`sorted(REQUIRED - columns)`). */
  function MissingColumns(studentColumns: set<string>): (r: seq<string>)
    ensures forall c :: c in r <==> c in StudentColumns && c !in studentColumns
    ensures Sorted(r)
  {
    StudentColumnsSortedIsSorted();
    Without(StudentColumnsSorted, studentColumns)
  }

  /** `validate_inputs`: the room column is checked first, then the student columns. */
  function ValidateInputs(roomColumns: set<string>, studentColumns: set<string>): (r: Outcome)
    ensures r.Pass? <==> RoomColumn in roomColumns && StudentColumns <= studentColumns
    ensures r == Fail(MissingRoomColumn) <==> RoomColumn !in roomColumns
    ensures r.Fail? && r.error.MissingStudentColumns? ==>
              r.error.columns != [] && Sorted(r.error.columns) &&
              forall c :: c in r.error.columns <==> c in StudentColumns && c !in studentColumns
  {
    if RoomColumn !in roomColumns then Fail(MissingRoomColumn)
    else
      var missing := MissingColumns(studentColumns);
      if missing == [] then
        assert forall c :: c in StudentColumns ==> c in studentColumns by {
          forall c | c in StudentColumns ensures c in studentColumns {
            assert c !in studentColumns ==> c in missing;
          }
        }
        Pass
      else
        assert missing[0] in StudentColumns && missing[0] !in studentColumns;
        Fail(MissingStudentColumns(missing))
  }
}
