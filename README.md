# Exam-room balancer, modelled in Dafny

This project models the room balancer of `allocator.py`. Given a student table and a list of rooms, it spreads the students over the rooms under two caps:

- a room holds at most `max_per_room` students (default 23);
- a room holds at most `max_per_class_in_room` students of any one class (default 3).

Each attempt does the following:

1. It orders the classes by decreasing size, breaking ties at random.
2. It shuffles the students of each class and concatenates the classes.
3. It places the students greedily, one at a time:
   - the open rooms are those below both caps;
   - among them it keeps the rooms with the fewest students of the student's class;
   - among those it keeps the rooms with the fewest students;
   - it picks one of the remaining rooms at random.
4. A student with no open room is left unassigned.

Up to `attempts` attempts are made (default 400). The balancer keeps the earliest attempt with the fewest unassigned students and stops at the first attempt that leaves nobody unassigned.

The model also covers the input check that comes before balancing. The rooms table must have the room column. The student table must have the four student columns. A failure names the missing columns in sorted order.

Modules:

- `Students` (students.dfy): the student record and class selection.
- `Validation` (validation.dfy): `validate_inputs`, over sets of column names.
- `Ordering` (ordering.dfy): the processing order of one attempt. The random class tie-break and the per-class shuffles are inputs, and the model proves that every such input yields a permutation of the table that is grouped by class with the largest classes first.
- `Placement` (placement.dfy): one attempt.
  - The specification is a run: the sequence of states the attempt passes through, with one decision per student. Each decision must be allowed by the choice rule against the state it was taken in.
  - The method `RunAttempt` keeps the source's counters `room_sizes` and `room_class_counts` beside the room lists. It is proved to follow such a run, with the counters agreeing with the lists at every step.
  - `random.choice` is an arbitrary choice (`:|`) among the final candidates.
- `Balancer` (balancer.dfy): the attempts loop. The kept result is specified by the fold `Kept` over the attempts made.

## Model

| member | source | states |
|---|---|---|
| Validation.ValidateInputs | allocator.py:15-22 | passes iff the room column is present and every student column is present; fails on the room column exactly when it is absent; a student-column failure lists the missing columns, non-empty, sorted, and exactly those required and absent |
| Validation.MissingColumns | allocator.py:19-21 | the result holds exactly the required student columns absent from the table, in sorted (code-point) order |
| Students.OfClassMultiset | allocator.py:35 | selecting the rows of a class keeps each student of that class as often as it occurs and no other student |
| Ordering.ProcessingOrder | allocator.py:32-36 | every student of the order comes from the shuffle of a listed class, and every student of a listed class's shuffle is in the order |
| Ordering.ProcessingOrderCounts | allocator.py:34-36 | the concatenated shuffles hold each student of a listed class as often as the table does, and no other student |
| Ordering.ProcessingOrderGrouped | allocator.py:34-36 | in the concatenated shuffles the students of each class are contiguous |
| Ordering.ProcessingOrderLargestFirst | allocator.py:31-36 | with the classes sorted by non-increasing size, no student comes before a student of a larger class |
| Ordering.ProcessingOrderIsValid | allocator.py:26-36 | for every possible class order and shuffles, the processing order is a permutation of the table, grouped by class, largest classes first |
| Placement.Initial | allocator.py:38-41 | the initial state has an empty list for exactly the listed rooms and nobody unassigned |
| Placement.Apply | allocator.py:51-61 | a decision keeps the set of rooms, appends the student to the unassigned list or to the chosen room's list, and changes nothing else |
| Placement.OpenRooms | allocator.py:45-48 | a room is a candidate iff it is listed, below the room cap and below the class cap for the student's class |
| Placement.MinClassCount | allocator.py:54 | the result is some candidate's count for the class and no candidate's count is lower |
| Placement.WithClassCount | allocator.py:55 | keeps exactly the candidates whose count for the class equals the given minimum |
| Placement.MinSize | allocator.py:57 | the result is some candidate's size and no candidate's size is lower |
| Placement.WithSize | allocator.py:58 | keeps exactly the candidates whose size equals the given minimum |
| Placement.Finalists | allocator.py:54-58 | from non-empty candidates the narrowing leaves a non-empty list, and a room survives iff it is a candidate with the fewest students of the class and, among those, the fewest students |
| Placement.ChooseRoom | allocator.py:54-60 | the chosen room is a candidate with the fewest students of the class, and among those the fewest students |
| Placement.InitialAgrees | allocator.py:38-41 | the initial counters (size 0, no class counts) agree with the empty room lists |
| Placement.NarrowingMatchesRule | allocator.py:45-58 | when the counters agree with the room lists, a room survives the narrowing iff the choice rule allows placing the student there |
| Placement.SkipStep | allocator.py:50-52 | with no open room, leaving the student unassigned is an allowed step and the counters still agree |
| Placement.PlaceStep | allocator.py:60-61 | appending the student to a room the rule allows is an allowed step |
| Placement.CountersAfterPlacement | allocator.py:61-63 | raising the chosen room's size and its count for the student's class by one keeps the counters equal to the room lists |
| Placement.Assign | allocator.py:44-63 | one student is placed in a room the choice rule allows, or left unassigned only when no room is open, and the counters still agree with the room lists |
| Placement.RunAttempt | allocator.py:38-63 | the result is the last state of a run of the choice rule over the whole processing order; every student is kept exactly once; every room is a key; both caps hold in every room |
| Placement.DecisionEffect | allocator.py:45-63 | a student is unassigned iff no room is open for it, and then no room changes; otherwise the student goes to a listed room, is appended to that room's list, and no other room and not the unassigned list changes |
| Placement.CapsHold | allocator.py:45-48 | in every state of a run no room exceeds the room cap or the class cap for any class |
| Placement.Conservation | allocator.py:43-63 | in every state of a run, the unassigned students plus the students in the rooms are exactly the students processed so far, counted with multiplicity |
| Placement.AttemptIsSound | allocator.py:38-63 | an attempt's result conserves the processing order, has a list for exactly the listed rooms, and keeps both caps in every room |
| Placement.Dedup | allocator.py:38 | the distinct rooms, each once, exactly the rooms listed |
| Balancer.Kept | allocator.py:65-67 | no kept result iff no attempt was made; the kept result is one of the attempts |
| Balancer.KeptIsEarliestFewest | allocator.py:65-67 | the kept attempt leaves no more students unassigned than any attempt, and strictly fewer than every earlier attempt |
| Balancer.KeptReplacedOnlyOnImprovement | allocator.py:65-67 | one more attempt replaces the kept one only when it leaves strictly fewer students unassigned |
| Balancer.KeptNonIncreasing | allocator.py:65-67 | the kept number of unassigned students never grows as attempts are added |
| Balancer.AttemptOfTableIsSound | allocator.py:30-63 | an attempt over a processing order of the table keeps every student of the table exactly once, has every room as a key and keeps both caps |
| Balancer.BuildAssignments | allocator.py:25-72 | attempt `u` runs over the processing order built from the `u`-th class order and shuffles, which is a processing order of the table; every attempt made is a run of the rule over that order and is sound; no attempt is made iff `attempts` is at most 0; at least one and at most `attempts` attempts are made otherwise; fewer than `attempts` are made only when the last leaves nobody unassigned; every attempt but the last leaves somebody unassigned; the result is the earliest attempt with the fewest unassigned students, and it is sound |

## Left out

- Reading and writing workbooks is not modelled: `_format_workbook`, `_build_sheet_df`, the Excel output of `generate_outputs` and `read_excel_from_upload` (allocator.py:75-177). These are pandas and openpyxl calls.
- The glue in `generate_outputs` (allocator.py:116-135 and 164-171) is not modelled: it drops empty room cells, turns the room labels and identifiers into text, and counts the assigned students. The model takes room labels and identifiers as strings from the start.
- The timestamps in the output file names (allocator.py:137) are not modelled; they read the wall clock.
- app.py is not part of this model. It is the Streamlit user interface: uploads, download buttons and deleting temporary files.
- The sources of randomness are inputs or arbitrary choices: `random.random` in the class sort, `DataFrame.sample(frac=1)` and `random.choice`. The model proves properties that hold for every outcome of these draws, and says nothing about their distribution.
- The sort itself is not computed. `BuildAssignments` takes, for each attempt, a class order that lists every class once by non-increasing size, together with one shuffle per class. It therefore requires at least `attempts` such draws.
- Class labels that pandas treats as missing (NaN) are not modelled: `value_counts` drops them, so such students are never processed and vanish from the result. In the model every class label is a string, and every student is processed.
- Validation.ValidateInputs: reports which check failed and the sorted missing columns, not the text of the error message.
- Tables are modelled as the set of their column names (for validation) and as a sequence of four-field student records (for balancing). Other columns, and the types pandas infers, are not modelled.
- `room_class_counts` is a `defaultdict(int)`, and reading a class that is not yet present inserts a 0 entry. The model reads an absent class as 0 without inserting it. The counters are not part of the result, so the result does not change.
- The order of the keys of the returned room mapping is not modelled, since Dafny maps are unordered. The rooms in order of first occurrence (`Placement.Dedup`) serve only to count the students held in the rooms.
