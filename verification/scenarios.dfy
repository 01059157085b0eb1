/** Concrete cases over the seed data of constants.ts, stated as lemmas:
    the two CSE students, the three subjects and faculty member `fac_1`'s
    two assignments, one of which uses the batch wildcard. */
module Scenarios {
  import opened Seqs
  import opened Domain
  import opened Resolution
  import opened Roster
  import opened Marking
  import opened Aggregate

  const Rahul := User("stu_1", "Rahul Singh", Student, Some(StudentData("b_cse", "batch_cse_2_a", "0827CS211001", None)))
  const Priya := User("stu_2", "Priya Patel", Student, Some(StudentData("b_cse", "batch_cse_2_a", "0827CS211002", None)))

  const Maths := Subject("sub_math", "Engineering Mathematics", "M101")
  const DataStructures := Subject("sub_ds", "Data Structures", "CS201")
  const Networks := Subject("sub_network", "Computer Networks", "CS304")
  const SeedSubjects := [Maths, DataStructures, Networks]

  const SeedSubjectInfo := map[
    "sub_math" := SubjectInfo("Engineering Mathematics", "M101"),
    "sub_ds" := SubjectInfo("Data Structures", "CS201"),
    "sub_network" := SubjectInfo("Computer Networks", "CS304")]

  const AssignDs := Assignment("assign_1", "fac_1", "b_cse", "batch_cse_2_a", "sub_ds")
  const AssignNetworks := Assignment("assign_2", "fac_1", "b_cse", ALL, "sub_network")
  const SeedAssignments := [AssignDs, AssignNetworks]

  /** The wildcard assignment shows Computer Networks to a student of batch
      A, next to Data Structures. */
  lemma SeedStudentSeesNetworks()
    ensures VisibleSubjects(Rahul, SeedAssignments, SeedSubjects).Some?
    ensures Networks in VisibleSubjects(Rahul, SeedAssignments, SeedSubjects).value
    ensures DataStructures in VisibleSubjects(Rahul, SeedAssignments, SeedSubjects).value
  {
    StudentSeesGrantedSubject(Rahul, SeedAssignments, SeedSubjects, AssignNetworks, Networks);
    StudentSeesGrantedSubject(Rahul, SeedAssignments, SeedSubjects, AssignDs, DataStructures);
  }

  /** Yet the same assignment never lets `fac_1` select Computer Networks,
      whichever CSE batch is picked (the picker never offers `ALL`). */
  lemma SeedFacultyCannotSelectNetworks(assignments: seq<Assignment>, batchId: string)
    requires assignments == SeedAssignments
    requires batchId != ALL
    ensures "sub_network" !in SubjectOptionIds(AvailableSubjects(assignments, "b_cse", batchId, SeedSubjectInfo))
  {
    forall a | a in assignments && a.subjectId == "sub_network" ensures a.batchId == ALL {
      assert a == AssignDs || a == AssignNetworks;
    }
    WildcardOnlySubjectNotSelectable(assignments, "b_cse", SeedSubjectInfo, "sub_network", batchId);
  }

  /** The seed students carry no roll number, so both read as the empty
      roll number and neither sorts after a student who has one. */
  lemma SeedRollNumbersMissing()
    ensures RollKey(Rahul) == "" && RollKey(Priya) == ""
  {
  }

  const Lecture1 := SaveContext("2024-01-10", "sub_ds", "b_cse", "batch_cse_2_a", "fac_1")

  /** "Present All" on the seed roster, then a click on Priya. */
  lemma {:induction false} SeedMarks(roster: seq<User>, marks1: StatusMap, marks2: StatusMap)
    requires roster == [Rahul, Priya]
    requires marks1 == MarkAll(map[], roster, true) && marks2 == Toggle(marks1, "stu_2")
    ensures Reading(marks2, "stu_1") && !Reading(marks2, "stu_2")
  {
    assert Uids(roster) == ["stu_1", "stu_2"];
    assert Reading(marks1, "stu_1") && Reading(marks1, "stu_2");
  }

  /** The seed roster has distinct uids. */
  lemma SeedRosterDistinct(roster: seq<User>)
    requires roster == [Rahul, Priya]
    ensures NoDup(Uids(roster)) && Rahul in roster && Priya in roster
  {
    assert Uids(roster) == ["stu_1", "stu_2"];
  }

  /** One save of distinct slots and roster into an empty ledger: one entry
      per slot and student, each carrying the save's mark. */
  lemma OneSave(ctx: SaveContext, slots: seq<nat>, roster: seq<User>, marks: StatusMap, now: int, s: nat, u: User)
    requires NoDup(slots) && NoDup(Uids(roster)) && s in slots && u in roster
    ensures
      var ledger := Upsert(map[], BuildRecords(ctx, slots, roster, marks, now));
      && |ledger.Keys| == |slots| * |roster|
      && RecordId(ctx.date, u.uid, ctx.subjectId, s) in ledger
      && ledger[RecordId(ctx.date, u.uid, ctx.subjectId, s)].isPresent == Reading(marks, u.uid)
  {
    SaveEntryCount(map[], ctx, slots, roster, marks, now);
    SaveEntryAt(map[], ctx, slots, roster, marks, now, s, u);
  }

  /** Two saves of the same slots and roster, into an empty ledger: what is
      left is one entry per slot and student, each carrying the second
      save's mark. */
  lemma TwoSaves(
    ctx: SaveContext, slots: seq<nat>, roster: seq<User>,
    marks1: StatusMap, now1: int, marks2: StatusMap, now2: int, s: nat, u: User)
    requires NoDup(slots) && NoDup(Uids(roster)) && s in slots && u in roster
    ensures
      var ledger := Upsert(Upsert(map[], BuildRecords(ctx, slots, roster, marks1, now1)), BuildRecords(ctx, slots, roster, marks2, now2));
      && |ledger.Keys| == |slots| * |roster|
      && RecordId(ctx.date, u.uid, ctx.subjectId, s) in ledger
      && ledger[RecordId(ctx.date, u.uid, ctx.subjectId, s)].isPresent == Reading(marks2, u.uid)
  {
    ResaveReplacesPreviousSave(map[], ctx, slots, roster, marks1, now1, marks2, now2);
    OneSave(ctx, slots, roster, marks2, now2, s, u);
  }

  /** Mark both students present and save slot 1; then toggle Priya to
      absent and save again. Under the upsert-by-id ledger, exactly two
      records remain, Rahul's present and Priya's absent. */
  lemma {:induction false} SeedResaveKeepsTwoRecords(
    roster: seq<User>, slots: seq<nat>, marks1: StatusMap, marks2: StatusMap, now1: int, now2: int)
    requires roster == [Rahul, Priya] && slots == [1]
    requires marks1 == MarkAll(map[], roster, true) && marks2 == Toggle(marks1, "stu_2")
    ensures
      var first := BuildRecords(Lecture1, slots, roster, marks1, now1);
      var second := BuildRecords(Lecture1, slots, roster, marks2, now2);
      var ledger := Upsert(Upsert(map[], first), second);
      && |ledger.Keys| == 2
      && RecordId(Lecture1.date, Rahul.uid, Lecture1.subjectId, 1) in ledger
      && RecordId(Lecture1.date, Priya.uid, Lecture1.subjectId, 1) in ledger
      && ledger[RecordId(Lecture1.date, Rahul.uid, Lecture1.subjectId, 1)].isPresent
      && !ledger[RecordId(Lecture1.date, Priya.uid, Lecture1.subjectId, 1)].isPresent
  {
    SeedRosterDistinct(roster);
    assert NoDup(slots) && 1 in slots;
    SeedMarks(roster, marks1, marks2);
    TwoSaves(Lecture1, slots, roster, marks1, now1, marks2, now2, 1, Rahul);
    TwoSaves(Lecture1, slots, roster, marks1, now1, marks2, now2, 1, Priya);
  }

  /** The threshold on a concrete history: 3 of 4 lectures is on track,
      2 of 3 (67%) is LOW. */
  lemma SeedThresholdExamples()
    ensures !IsLow(Percent(3, 4)) && Percent(2, 3) == 67 && IsLow(Percent(2, 3))
  {
  }
}
