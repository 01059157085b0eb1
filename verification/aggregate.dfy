/** Attendance percentages: the faculty history table's per-student row
    (views/Faculty.tsx) and the student dashboard's per-subject card
    (views/Student.tsx `calc`), with the 75% LOW threshold both use.

    `Math.round((p / n) * 100)` is computed on doubles in the source; here
    it is the exact round-half-up of 100·p/n. */
module Aggregate {
  import opened Seqs
  import opened Domain
  import opened Arith

  datatype Stats = Stats(total: nat, present: nat, pct: nat)

  /** The percentage shown for `present` of `total` records. */
  function Percent(present: nat, total: nat): (pct: nat)
    ensures total == 0 ==> pct == 0
    ensures total > 0 ==> 2 * total * pct <= 200 * present + total < 2 * total * (pct + 1)
    ensures present <= total ==> pct <= 100
  {
    if total == 0 then 0
    else
      var b := 2 * total;
      var a := 200 * present + total;
      var pct := a / b;
      assert b * pct <= a < b * (pct + 1) by {
        assert a == b * pct + a % b && a % b < b;
        assert b * (pct + 1) == b * pct + b;
      }
      assert present <= total ==> pct <= 100 by {
        if present <= total {
          assert a < b * 101;
          MulStrictCancel(b, pct, 101);
        }
      }
      pct
  }

  /** Every record present gives 100. */
  lemma PercentOfAll(n: nat)
    requires n > 0
    ensures Percent(n, n) == 100
  {
    DivBracket(200 * n + n, 2 * n, 100);
  }

  /** No record present gives 0. */
  lemma PercentOfNone(n: nat)
    ensures Percent(0, n) == 0
  {
    if n > 0 {
      DivBracket(n, 2 * n, 0);
    }
  }

  /** The red badge / "Low Attendance" condition. */
  predicate IsLow(pct: nat) {
    pct < 75
  }

  function IsPresent(): AttendanceRecord -> bool {
    (r: AttendanceRecord) => r.isPresent
  }

  /** Total, present and percentage of a list of records. */
  function Summarize(records: seq<AttendanceRecord>): (s: Stats)
    ensures s.total == |records|
    ensures s.present == Count(records, IsPresent())
    ensures s.pct == Percent(s.present, s.total)
    ensures s.present <= s.total && s.pct <= 100
    ensures s.present == 0 ==> s.pct == 0
    ensures s.total > 0 && s.present == s.total ==> s.pct == 100
  {
    var p := Count(records, IsPresent());
    var pct := Percent(p, |records|);
    assert |records| > 0 && p == |records| ==> pct == 100 by {
      if |records| > 0 && p == |records| {
        PercentOfAll(|records|);
      }
    }
    assert p == 0 ==> pct == 0 by {
      PercentOfNone(|records|);
    }
    Stats(|records|, p, pct)
  }

  function ForStudent(uid: string): AttendanceRecord -> bool {
    (r: AttendanceRecord) => r.studentId == uid
  }

  function ForSubject(subjectId: string): AttendanceRecord -> bool {
    (r: AttendanceRecord) => r.subjectId == subjectId
  }

  /** A present record of the student. */
  function PresentFor(uid: string): AttendanceRecord -> bool {
    (r: AttendanceRecord) => r.studentId == uid && r.isPresent
  }

  /** A present record of the subject. */
  function PresentIn(subjectId: string): AttendanceRecord -> bool {
    (r: AttendanceRecord) => r.subjectId == subjectId && r.isPresent
  }

  /** A faculty history row: the class records of one student. */
  function StudentSummary(classRecords: seq<AttendanceRecord>, uid: string): (s: Stats)
    ensures s.total == Count(classRecords, ForStudent(uid))
    ensures s.present == Count(classRecords, PresentFor(uid))
    ensures s.pct == Percent(s.present, s.total)
    ensures s.present <= s.total && s.pct <= 100
  {
    FilterConj(classRecords, ForStudent(uid), IsPresent(), PresentFor(uid));
    Summarize(Filter(classRecords, ForStudent(uid)))
  }

  /** `calc(sid)` on the student dashboard: the student's records of one
      subject. */
  function SubjectSummary(attendance: seq<AttendanceRecord>, subjectId: string): (s: Stats)
    ensures s.total == Count(attendance, ForSubject(subjectId))
    ensures s.present == Count(attendance, PresentIn(subjectId))
    ensures s.pct == Percent(s.present, s.total)
    ensures s.present <= s.total && s.pct <= 100
  {
    FilterConj(attendance, ForSubject(subjectId), IsPresent(), PresentIn(subjectId));
    Summarize(Filter(attendance, ForSubject(subjectId)))
  }

  /** A summary depends only on which records there are, not their order. */
  lemma SummarizePermutation(a: seq<AttendanceRecord>, b: seq<AttendanceRecord>)
    requires multiset(a) == multiset(b)
    ensures Summarize(a) == Summarize(b)
  {
    FilterPermutation(a, b, IsPresent());
    assert |a| == |multiset(a)| == |multiset(b)| == |b|;
  }

  /** `calc(sid)` is invariant under any reordering of the fetched records. */
  lemma SubjectSummaryPermutation(a: seq<AttendanceRecord>, b: seq<AttendanceRecord>, subjectId: string)
    requires multiset(a) == multiset(b)
    ensures SubjectSummary(a, subjectId) == SubjectSummary(b, subjectId)
  {
    FilterPermutation(a, b, ForSubject(subjectId));
    SummarizePermutation(Filter(a, ForSubject(subjectId)), Filter(b, ForSubject(subjectId)));
  }

  /** Likewise for a faculty history row. */
  lemma StudentSummaryPermutation(a: seq<AttendanceRecord>, b: seq<AttendanceRecord>, uid: string)
    requires multiset(a) == multiset(b)
    ensures StudentSummary(a, uid) == StudentSummary(b, uid)
  {
    FilterPermutation(a, b, ForStudent(uid));
    SummarizePermutation(Filter(a, ForStudent(uid)), Filter(b, ForStudent(uid)));
  }

  /** Counts add up over concatenated record lists. */
  lemma SummarizeAppend(a: seq<AttendanceRecord>, b: seq<AttendanceRecord>)
    ensures Summarize(a + b).total == Summarize(a).total + Summarize(b).total
    ensures Summarize(a + b).present == Summarize(a).present + Summarize(b).present
  {
    FilterAppend(a, b, IsPresent());
  }

  /** LOW exactly when there are no records or fewer than 74.5% of them are
      present; so 3 of 4 (75%) is on track while 0 records is LOW. */
  lemma LowIffBelowThreshold(present: nat, total: nat)
    requires present <= total
    ensures IsLow(Percent(present, total)) <==> total == 0 || 200 * present < 149 * total
  {
    if total > 0 {
      var pct := Percent(present, total);
      if pct < 75 {
        MulMonotone(2 * total, pct + 1, 75);
      } else {
        MulMonotone(2 * total, 75, pct);
      }
    }
  }

  /** One row of the faculty history table. */
  datatype Row = Row(uid: string, stats: Stats, low: bool)

  /** The history table: a row per roster student, in roster order. */
  function ClassRows(students: seq<User>, classRecords: seq<AttendanceRecord>): (rows: seq<Row>)
    ensures |rows| == |students|
    ensures forall i :: 0 <= i < |rows| ==>
      && rows[i].uid == students[i].uid
      && rows[i].stats.total == Count(classRecords, ForStudent(students[i].uid))
      && rows[i].stats.present == Count(classRecords, PresentFor(students[i].uid))
      && rows[i].stats.pct == Percent(rows[i].stats.present, rows[i].stats.total)
      && rows[i].stats.present <= rows[i].stats.total <= |classRecords|
      && (rows[i].low <==> rows[i].stats.pct < 75)
  {
    Map(students, (s: User) =>
      var st := StudentSummary(classRecords, s.uid);
      Row(s.uid, st, IsLow(st.pct)))
  }

  /** A history row is LOW exactly when the student has no class record or
      fewer than 74.5% of them are present. */
  lemma ClassRowLowIffBelowThreshold(students: seq<User>, classRecords: seq<AttendanceRecord>, i: nat)
    requires i < |students|
    ensures
      var total := Count(classRecords, ForStudent(students[i].uid));
      var present := Count(classRecords, PresentFor(students[i].uid));
      ClassRows(students, classRecords)[i].low <==> total == 0 || 200 * present < 149 * total
  {
    var row := ClassRows(students, classRecords)[i];
    LowIffBelowThreshold(row.stats.present, row.stats.total);
  }

  function InRoster(uids: seq<string>): AttendanceRecord -> bool {
    (r: AttendanceRecord) => r.studentId in uids
  }

  function TotalOf(rows: seq<Row>): nat {
    if |rows| == 0 then 0 else rows[0].stats.total + TotalOf(rows[1..])
  }

  lemma {:induction false} CountSplit(s: seq<AttendanceRecord>, uid: string, rest: seq<string>)
    requires uid !in rest
    ensures Count(s, InRoster([uid] + rest)) == Count(s, ForStudent(uid)) + Count(s, InRoster(rest))
  {
    if |s| > 0 {
      CountSplit(s[1..], uid, rest);
      CountCons(s, InRoster([uid] + rest));
      CountCons(s, ForStudent(uid));
      CountCons(s, InRoster(rest));
    }
  }

  lemma ClassRowsTail(students: seq<User>, classRecords: seq<AttendanceRecord>)
    requires |students| > 0
    ensures ClassRows(students, classRecords)[1..] == ClassRows(students[1..], classRecords)
  {
  }

  /** With a roster of distinct uids, the history table's "Total Classes"
      column sums to the number of class records that belong to a roster
      student: no record is counted twice or for the wrong student. */
  lemma {:induction false} ClassRowsAccountForRecords(students: seq<User>, classRecords: seq<AttendanceRecord>)
    requires NoDup(Uids(students))
    ensures TotalOf(ClassRows(students, classRecords)) == Count(classRecords, InRoster(Uids(students)))
  {
    var rows := ClassRows(students, classRecords);
    if |students| == 0 {
      assert Count(classRecords, InRoster([])) == 0 by {
        FilterNone(classRecords, InRoster([]));
      }
    } else {
      var tail := students[1..];
      var ids := Uids(students);
      UidsCons(students);
      assert ids[1..] == Uids(tail);
      NoDupTail(ids);
      ClassRowsAccountForRecords(tail, classRecords);
      ClassRowsTail(students, classRecords);
      assert TotalOf(rows) == rows[0].stats.total + TotalOf(ClassRows(tail, classRecords));
      assert rows[0].stats.total == Count(classRecords, ForStudent(students[0].uid));
      CountSplit(classRecords, students[0].uid, Uids(tail));
    }
  }
}
