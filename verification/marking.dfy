/** Marking attendance on the faculty dashboard (views/Faculty.tsx): the
    present/absent map and its controls, the lecture-slot picker, the
    records a save builds and their ids, and the ledger those records are
    written to.

    The ledger itself lives behind `db.saveAttendance`, which is not part of
    this model. It is ASSUMED here to be a map from record id to record
    that each write overwrites (an upsert by id); every ledger property
    below holds under that assumption only. */
module Marking {
  import opened Seqs
  import opened Text
  import opened Domain

  // ---------------------------------------------------------------------
  // Presence map and its controls
  // ---------------------------------------------------------------------

  /** `attendanceStatus`: uid to presence; a missing key reads as absent.
      Uids are taken not to be names the JavaScript object inherits from
      `Object.prototype` (`constructor`, `toString`, `__proto__`, ...). */
  type StatusMap = map<string, bool>

  /** `!!attendanceStatus[uid]`. */
  predicate Reading(status: StatusMap, uid: string) {
    uid in status && status[uid]
  }

  /** `markAll(v)`: every roster uid set to `v`. */
  function MarkAll(status: StatusMap, students: seq<User>, v: bool): (r: StatusMap)
    ensures forall u :: u in Uids(students) ==> u in r && r[u] == v
    ensures forall k :: k !in Uids(students) ==> (k in r <==> k in status)
    ensures forall k :: k in status && k !in Uids(students) ==> r[k] == status[k]
    decreases |students|
  {
    if |students| == 0 then status
    else
      assert Uids(students) == [students[0].uid] + Uids(students[1..]);
      MarkAll(status[students[0].uid := v], students[1..], v)
  }

  /** `toggleStatus(uid)`: `{...p, [uid]: !p[uid]}`. */
  function Toggle(status: StatusMap, uid: string): (r: StatusMap)
    ensures Reading(r, uid) == !Reading(status, uid)
    ensures uid in r
    ensures forall k :: k != uid ==> (k in r <==> k in status)
    ensures forall k :: k != uid && k in status ==> r[k] == status[k]
  {
    status[uid := !Reading(status, uid)]
  }

  /** Toggling the same student twice restores every reading. */
  lemma ToggleTwice(status: StatusMap, uid: string, k: string)
    ensures Reading(Toggle(Toggle(status, uid), uid), k) == Reading(status, k)
  {
  }

  // ---------------------------------------------------------------------
  // Lecture slots
  // ---------------------------------------------------------------------

  /** The slot buttons on the marking screen. */
  const SlotButtons: seq<nat> := [1, 2, 3, 4, 5, 6, 7]

  /** A selection reachable from the picker: slots 1..7, each at most once. */
  predicate ValidSlots(slots: seq<nat>) {
    NoDup(slots) && forall i :: 0 <= i < |slots| ==> 1 <= slots[i] <= 7
  }

  /** The slot button handler: remove `n` when selected, else append it. */
  function ToggleSlot(slots: seq<nat>, n: nat): (r: seq<nat>)
    ensures n in r <==> n !in slots
    ensures forall x :: x != n ==> (x in r <==> x in slots)
    ensures ValidSlots(slots) && n in SlotButtons ==> ValidSlots(r)
    ensures n !in slots ==> r == slots + [n]
  {
    if n in slots then
      var r := Filter(slots, (x: nat) => x != n);
      assert forall i :: 0 <= i < |r| ==> r[i] in slots;
      r
    else
      assert NoDup(slots) ==> NoDup(slots + [n]) by {
        if NoDup(slots) {
          NoDupAppend(slots, [n]);
        }
      }
      slots + [n]
  }

  // ---------------------------------------------------------------------
  // Record ids and the records a save builds
  // ---------------------------------------------------------------------

  /** `${date}_${uid}_${subjectId}_L${slot}`. */
  function RecordId(date: string, uid: string, subjectId: string, slot: nat): string {
    date + "_" + uid + "_" + subjectId + "_L" + Decimal(slot)
  }

  /** Position of the last `c` in `s`, or -1. */
  function LastIndexOfChar(s: string, c: char): int {
    if |s| == 0 then -1
    else if s[|s| - 1] == c then |s| - 1
    else LastIndexOfChar(s[..|s| - 1], c)
  }

  lemma {:induction false} LastMarkerPosition(a: string, d: string, c: char)
    requires c !in d
    ensures LastIndexOfChar(a + [c] + d, c) == |a|
  {
    if |d| > 0 {
      var d' := d[..|d| - 1];
      assert (a + [c] + d)[..|a + [c] + d| - 1] == a + [c] + d';
      LastMarkerPosition(a, d', c);
    }
  }

  /** Splitting at the last occurrence of a marker character that neither
      tail contains. */
  lemma SplitAtLastMarker(a1: string, d1: string, a2: string, d2: string, c: char)
    requires a1 + [c] + d1 == a2 + [c] + d2
    requires c !in d1 && c !in d2
    ensures d1 == d2 && a1 == a2
  {
    var s := a1 + [c] + d1;
    LastMarkerPosition(a1, d1, c);
    LastMarkerPosition(a2, d2, c);
    assert |d1| == |d2|;
    assert d1 == s[|s| - |d1|..] == d2;
    assert a1 == s[..|a1|] == a2;
  }

  /** Within one date and subject, the id determines the student and the
      slot. */
  lemma RecordIdInjective(date: string, subjectId: string, u1: string, n1: nat, u2: string, n2: nat)
    requires RecordId(date, u1, subjectId, n1) == RecordId(date, u2, subjectId, n2)
    ensures u1 == u2 && n1 == n2
  {
    var p1 := date + "_" + u1 + "_" + subjectId + "_";
    var p2 := date + "_" + u2 + "_" + subjectId + "_";
    assert RecordId(date, u1, subjectId, n1) == p1 + ['L'] + Decimal(n1);
    assert RecordId(date, u2, subjectId, n2) == p2 + ['L'] + Decimal(n2);
    assert 'L' !in Decimal(n1) && 'L' !in Decimal(n2) by {
      assert !IsDigit('L');
    }
    SplitAtLastMarker(p1, Decimal(n1), p2, Decimal(n2), 'L');
    DecimalInjective(n1, n2);
    assert u1 == p1[|date| + 1..|date| + 1 + |u1|];
    assert u2 == p2[|date| + 1..|date| + 1 + |u2|];
  }

  /** Across subjects the id is not injective: the separator `_` may occur
      inside a uid or a subject id, so two different (uid, subject) pairs
      can share an id and, under the upsert-by-id ledger, overwrite each
      other. */
  lemma RecordIdAmbiguousAcrossSubjects()
    ensures RecordId("2024-01-10", "stu_1", "ds", 1) == RecordId("2024-01-10", "stu", "1_ds", 1)
  {
    assert Decimal(1) == "1";
  }

  /** The selected class and the marker of a save. */
  datatype SaveContext = SaveContext(
    date: string, subjectId: string, branchId: string, batchId: string, markedBy: string)

  /** The record pushed for one slot and one student; `now` stands for
      `Date.now()`. */
  function MakeRecord(ctx: SaveContext, slot: nat, student: User, status: StatusMap, now: int): AttendanceRecord {
    AttendanceRecord(
      RecordId(ctx.date, student.uid, ctx.subjectId, slot),
      ctx.date, student.uid, ctx.subjectId, ctx.branchId, ctx.batchId,
      Reading(status, student.uid), ctx.markedBy, now, slot)
  }

  /** A record as a save of `ctx` with these slots, roster and marks
      produces it. */
  predicate FromSave(rec: AttendanceRecord, ctx: SaveContext, slots: seq<nat>, students: seq<User>, status: StatusMap, now: int) {
    && rec.date == ctx.date && rec.subjectId == ctx.subjectId
    && rec.branchId == ctx.branchId && rec.batchId == ctx.batchId
    && rec.markedBy == ctx.markedBy && rec.timestamp == now
    && rec.lectureSlot in slots && rec.studentId in Uids(students)
    && rec.isPresent == Reading(status, rec.studentId)
    && rec.id == RecordId(ctx.date, rec.studentId, ctx.subjectId, rec.lectureSlot)
  }

  function SlotRecords(ctx: SaveContext, slot: nat, students: seq<User>, status: StatusMap, now: int): (r: seq<AttendanceRecord>)
    ensures |r| == |students|
    ensures forall j :: 0 <= j < |students| ==> r[j] == MakeRecord(ctx, slot, students[j], status, now)
  {
    Map(students, (s: User) => MakeRecord(ctx, slot, s, status, now))
  }

  /** The nested `forEach` of `handleSave`: slot-major, one record per slot
      and student. */
  function BuildRecords(ctx: SaveContext, slots: seq<nat>, students: seq<User>, status: StatusMap, now: int): (r: seq<AttendanceRecord>)
    ensures |r| == |slots| * |students|
    ensures forall rec :: rec in r ==> FromSave(rec, ctx, slots, students, status, now)
  {
    if |slots| == 0 then []
    else
      var head := SlotRecords(ctx, slots[0], students, status, now);
      var rest := BuildRecords(ctx, slots[1..], students, status, now);
      var n := |students|;
      var r := head + rest;
      assert |r| == |slots| * n by {
        assert |slots| * n == n + (|slots| - 1) * n;
      }
      forall rec | rec in head ensures FromSave(rec, ctx, slots, students, status, now) {
        var j :| 0 <= j < |head| && head[j] == rec;
        assert rec.studentId == Uids(students)[j];
      }
      forall rec | rec in rest ensures FromSave(rec, ctx, slots, students, status, now) {
        assert FromSave(rec, ctx, slots[1..], students, status, now);
        assert rec.lectureSlot in slots[1..];
      }
      r
  }

  /** Where the `i`-th slot's block of `n` records starts. */
  function SlotStart(i: nat, n: nat): nat {
    if i == 0 then 0 else n + SlotStart(i - 1, n)
  }

  lemma {:induction false} SlotStartIsProduct(i: nat, n: nat)
    ensures SlotStart(i, n) == i * n
  {
    if i > 0 {
      SlotStartIsProduct(i - 1, n);
      assert i * n == (i - 1) * n + n;
    }
  }

  lemma {:induction false} SlotMajorAt(
    ctx: SaveContext, slots: seq<nat>, students: seq<User>, status: StatusMap, now: int, i: nat, j: nat)
    requires i < |slots| && j < |students|
    ensures SlotStart(i, |students|) + j < |BuildRecords(ctx, slots, students, status, now)|
    ensures BuildRecords(ctx, slots, students, status, now)[SlotStart(i, |students|) + j]
         == MakeRecord(ctx, slots[i], students[j], status, now)
  {
    var head := SlotRecords(ctx, slots[0], students, status, now);
    var rest := BuildRecords(ctx, slots[1..], students, status, now);
    assert BuildRecords(ctx, slots, students, status, now) == head + rest;
    if i > 0 {
      SlotMajorAt(ctx, slots[1..], students, status, now, i - 1, j);
      var k := SlotStart(i - 1, |students|) + j;
      assert SlotStart(i, |students|) + j == |students| + k;
      assert slots[1..][i - 1] == slots[i];
      assert (head + rest)[|students| + k] == rest[k] == MakeRecord(ctx, slots[i], students[j], status, now);
    } else {
      assert SlotStart(i, |students|) + j == j;
      assert (head + rest)[j] == head[j] == MakeRecord(ctx, slots[i], students[j], status, now);
    }
  }

  /** Slot-major order: the record for the `i`-th slot and the `j`-th
      student sits at `i * |students| + j`. */
  lemma SlotMajorOrder(
    ctx: SaveContext, slots: seq<nat>, students: seq<User>, status: StatusMap, now: int, i: nat, j: nat)
    requires i < |slots| && j < |students|
    ensures i * |students| + j < |BuildRecords(ctx, slots, students, status, now)|
    ensures BuildRecords(ctx, slots, students, status, now)[i * |students| + j]
         == MakeRecord(ctx, slots[i], students[j], status, now)
  {
    SlotMajorAt(ctx, slots, students, status, now, i, j);
    SlotStartIsProduct(i, |students|);
  }

  /** Outcome of `handleSave`. */
  datatype SaveOutcome =
    | SlotRequired                                  // "Select slot" alert, nothing written
    | Write(records: seq<AttendanceRecord>)         // handed to `db.saveAttendance`

  function HandleSave(ctx: SaveContext, slots: seq<nat>, students: seq<User>, status: StatusMap, now: int): (r: SaveOutcome)
    ensures r.SlotRequired? <==> |slots| == 0
    ensures r.Write? ==> |r.records| == |slots| * |students|
    ensures r.Write? ==> forall rec :: rec in r.records ==> FromSave(rec, ctx, slots, students, status, now)
    ensures r.Write? ==> forall s, u :: s in slots && u in students ==> MakeRecord(ctx, s, u, status, now) in r.records
  {
    if |slots| == 0 then SlotRequired
    else
      var recs := BuildRecords(ctx, slots, students, status, now);
      forall s, u | s in slots && u in students ensures MakeRecord(ctx, s, u, status, now) in recs {
        var i :| 0 <= i < |slots| && slots[i] == s;
        var j :| 0 <= j < |students| && students[j] == u;
        SlotMajorAt(ctx, slots, students, status, now, i, j);
      }
      Write(recs)
  }

  /** Within one slot, distinct uids give distinct ids. */
  lemma SlotIdsDistinct(ctx: SaveContext, slot: nat, students: seq<User>, status: StatusMap, now: int)
    requires NoDup(Uids(students))
    ensures NoDup(Ids(SlotRecords(ctx, slot, students, status, now)))
  {
    var head := SlotRecords(ctx, slot, students, status, now);
    forall i, j | 0 <= i < j < |head| ensures Ids(head)[i] != Ids(head)[j] {
      assert Uids(students)[i] != Uids(students)[j];
      if Ids(head)[i] == Ids(head)[j] {
        RecordIdInjective(ctx.date, ctx.subjectId, students[i].uid, slot, students[j].uid, slot);
      }
    }
  }

  /** The first slot's ids differ from every id of the later slots. */
  lemma SlotIdsApart(ctx: SaveContext, slots: seq<nat>, students: seq<User>, status: StatusMap, now: int)
    requires |slots| > 0 && slots[0] !in slots[1..]
    ensures forall x :: x in Ids(SlotRecords(ctx, slots[0], students, status, now)) ==>
      x !in Ids(BuildRecords(ctx, slots[1..], students, status, now))
  {
    var head := SlotRecords(ctx, slots[0], students, status, now);
    var rest := BuildRecords(ctx, slots[1..], students, status, now);
    forall i, k | 0 <= i < |head| && 0 <= k < |rest| ensures Ids(head)[i] != Ids(rest)[k] {
      assert FromSave(rest[k], ctx, slots[1..], students, status, now);
      if Ids(head)[i] == Ids(rest)[k] {
        RecordIdInjective(ctx.date, ctx.subjectId, students[i].uid, slots[0], rest[k].studentId, rest[k].lectureSlot);
      }
    }
  }

  /** Distinct slots and distinct uids give pairwise distinct ids. */
  lemma {:induction false} SaveIdsDistinct(ctx: SaveContext, slots: seq<nat>, students: seq<User>, status: StatusMap, now: int)
    requires NoDup(slots) && NoDup(Uids(students))
    ensures NoDup(Ids(BuildRecords(ctx, slots, students, status, now)))
  {
    if |slots| > 0 {
      var head := SlotRecords(ctx, slots[0], students, status, now);
      var rest := BuildRecords(ctx, slots[1..], students, status, now);
      NoDupTail(slots);
      SaveIdsDistinct(ctx, slots[1..], students, status, now);
      SlotIdsDistinct(ctx, slots[0], students, status, now);
      SlotIdsApart(ctx, slots, students, status, now);
      NoDupAppend(Ids(head), Ids(rest));
      assert Ids(head + rest) == Ids(head) + Ids(rest);
    }
  }

  /** The ids of a save depend on the class, the slots and the roster only:
      not on the marks and not on the clock. */
  lemma SaveIdsIgnoreMarks(
    ctx: SaveContext, slots: seq<nat>, students: seq<User>,
    status1: StatusMap, now1: int, status2: StatusMap, now2: int)
    ensures Ids(BuildRecords(ctx, slots, students, status1, now1))
         == Ids(BuildRecords(ctx, slots, students, status2, now2))
  {
    var r1 := BuildRecords(ctx, slots, students, status1, now1);
    var r2 := BuildRecords(ctx, slots, students, status2, now2);
    forall k | 0 <= k < |r1| ensures r1[k].id == r2[k].id {
      SaveIdAt(ctx, slots, students, status1, now1, status2, now2, k);
    }
  }

  lemma {:induction false} SaveIdAt(
    ctx: SaveContext, slots: seq<nat>, students: seq<User>,
    status1: StatusMap, now1: int, status2: StatusMap, now2: int, k: nat)
    requires k < |BuildRecords(ctx, slots, students, status1, now1)|
    ensures BuildRecords(ctx, slots, students, status1, now1)[k].id
         == BuildRecords(ctx, slots, students, status2, now2)[k].id
  {
    var n := |students|;
    if k >= n {
      assert |slots| > 1 by {
        assert |slots| * n > n;
      }
      SaveIdAt(ctx, slots[1..], students, status1, now1, status2, now2, k - n);
    }
  }

  // ---------------------------------------------------------------------
  // Ledger (assumed upsert-by-id store)
  // ---------------------------------------------------------------------

  type Ledger = map<string, AttendanceRecord>

  function WrittenIds(records: seq<AttendanceRecord>): set<string> {
    set rec | rec in records :: rec.id
  }

  /** Writing `records` in order, each replacing the entry with its id. */
  function Upsert(ledger: Ledger, records: seq<AttendanceRecord>): (r: Ledger)
    ensures r.Keys == ledger.Keys + WrittenIds(records)
    ensures forall k :: k in ledger && k !in WrittenIds(records) ==> r[k] == ledger[k]
    ensures forall k :: k in WrittenIds(records) ==> r[k] in records && r[k].id == k
  {
    if |records| == 0 then ledger
    else
      var n := |records| - 1;
      var before := records[..n];
      var last := records[n];
      assert records == before + [last];
      assert WrittenIds(records) == WrittenIds(before) + {last.id};
      Upsert(ledger, before)[last.id := last]
  }

  /** When a batch's ids are distinct, each of its records is stored as is. */
  lemma {:induction false} UpsertStoresEach(ledger: Ledger, records: seq<AttendanceRecord>)
    requires NoDup(Ids(records))
    ensures forall rec :: rec in records ==> Upsert(ledger, records)[rec.id] == rec
  {
    if |records| > 0 {
      var n := |records| - 1;
      var before := records[..n];
      var last := records[n];
      assert records == before + [last];
      assert Ids(before) == Ids(records)[..n];
      assert NoDup(Ids(before));
      UpsertStoresEach(ledger, before);
      forall rec | rec in before ensures rec.id != last.id {
        var i :| 0 <= i < n && before[i] == rec;
        assert Ids(records)[i] != Ids(records)[n];
      }
    }
  }

  /** Upserting is overriding the ledger with the map the batch writes. */
  lemma {:induction false} UpsertIsOverride(ledger: Ledger, records: seq<AttendanceRecord>)
    ensures Upsert(ledger, records) == ledger + Upsert(map[], records)
  {
    if |records| > 0 {
      var n := |records| - 1;
      var last := records[n];
      UpsertIsOverride(ledger, records[..n]);
      var w := Upsert(map[], records[..n]);
      var m1 := (ledger + w)[last.id := last];
      var m2 := ledger + w[last.id := last];
      assert m1.Keys == m2.Keys;
      forall k | k in m1 ensures m1[k] == m2[k] {
      }
      assert m1 == m2;
    }
  }

  /** Saving the same batch twice leaves the ledger as saving it once. */
  lemma UpsertIdempotent(ledger: Ledger, records: seq<AttendanceRecord>)
    ensures Upsert(Upsert(ledger, records), records) == Upsert(ledger, records)
  {
    var w := Upsert(map[], records);
    UpsertIsOverride(ledger, records);
    UpsertIsOverride(ledger + w, records);
    assert (ledger + w) + w == ledger + w;
  }

  /** A later batch that rewrites every id of an earlier one erases every
      trace of the earlier batch. */
  lemma LaterSaveWins(ledger: Ledger, first: seq<AttendanceRecord>, second: seq<AttendanceRecord>)
    requires WrittenIds(first) <= WrittenIds(second)
    ensures Upsert(Upsert(ledger, first), second) == Upsert(ledger, second)
  {
    var w1 := Upsert(map[], first);
    var w2 := Upsert(map[], second);
    UpsertIsOverride(ledger, first);
    UpsertIsOverride(ledger + w1, second);
    UpsertIsOverride(ledger, second);
    var lhs := (ledger + w1) + w2;
    var rhs := ledger + w2;
    assert w1.Keys <= w2.Keys;
    assert lhs.Keys == rhs.Keys;
    forall k | k in lhs ensures lhs[k] == rhs[k] {
      if k !in w2 {
        assert k !in w1;
      }
    }
    assert lhs == rhs;
  }

  /** Re-saving a class with the same slots and roster, whatever the new
      marks and clock, leaves exactly what the second save alone leaves. */
  lemma ResaveReplacesPreviousSave(
    ledger: Ledger, ctx: SaveContext, slots: seq<nat>, students: seq<User>,
    status1: StatusMap, now1: int, status2: StatusMap, now2: int)
    ensures
      var first := BuildRecords(ctx, slots, students, status1, now1);
      var second := BuildRecords(ctx, slots, students, status2, now2);
      Upsert(Upsert(ledger, first), second) == Upsert(ledger, second)
  {
    var first := BuildRecords(ctx, slots, students, status1, now1);
    var second := BuildRecords(ctx, slots, students, status2, now2);
    SaveIdsIgnoreMarks(ctx, slots, students, status1, now1, status2, now2);
    forall id | id in WrittenIds(first) ensures id in WrittenIds(second) {
      var rec :| rec in first && rec.id == id;
      var k :| 0 <= k < |first| && first[k] == rec;
      assert Ids(first)[k] == Ids(second)[k];
    }
    LaterSaveWins(ledger, first, second);
  }

  lemma WrittenIdsAreIds(records: seq<AttendanceRecord>)
    ensures WrittenIds(records) == Elements(Ids(records))
  {
    forall id | id in Elements(Ids(records)) ensures id in WrittenIds(records) {
      var i :| 0 <= i < |records| && Ids(records)[i] == id;
      assert records[i] in records;
    }
    forall id | id in WrittenIds(records) ensures id in Elements(Ids(records)) {
      var rec :| rec in records && rec.id == id;
      var i :| 0 <= i < |records| && records[i] == rec;
      assert Ids(records)[i] == id;
    }
  }

  /** A save with distinct slots and uids, into a ledger holding none of
      its ids, adds one entry per slot and student. With
      `ResaveReplacesPreviousSave`, this is also what any number of
      earlier saves of the same slots and roster leave behind. The ids must
      be new to the whole ledger, not only to the class: a record of another
      subject can carry the same id (`SaveOverwritesOtherSubject`). */
  lemma {:induction false} SaveEntryCount(
    ledger: Ledger, ctx: SaveContext, slots: seq<nat>, students: seq<User>, status: StatusMap, now: int)
    requires NoDup(slots) && NoDup(Uids(students))
    requires forall rec :: rec in BuildRecords(ctx, slots, students, status, now) ==> rec.id !in ledger
    ensures |Upsert(ledger, BuildRecords(ctx, slots, students, status, now)).Keys| == |ledger.Keys| + |slots| * |students|
  {
    var recs := BuildRecords(ctx, slots, students, status, now);
    SaveIdsDistinct(ctx, slots, students, status, now);
    WrittenIdsAreIds(recs);
    NoDupCardinality(Ids(recs));
    assert ledger.Keys !! WrittenIds(recs);
  }

  /** Under the upsert-by-id ledger, a save in subject `ds` for student
      `stu_1` replaces the stored record of student `stu` in subject `1_ds`
      of the same date and slot: the two ids coincide
      (`RecordIdAmbiguousAcrossSubjects`), so the ledger keeps one entry,
      now of subject `ds`. */
  lemma SaveOverwritesOtherSubject(
    ctx: SaveContext, student: User, status: StatusMap, now: int, earlier: AttendanceRecord)
    requires ctx.date == "2024-01-10" && ctx.subjectId == "ds" && student.uid == "stu_1"
    requires earlier.id == RecordId("2024-01-10", "stu", "1_ds", 1) && earlier.studentId == "stu" && earlier.subjectId == "1_ds"
    ensures |Upsert(map[earlier.id := earlier], BuildRecords(ctx, [1], [student], status, now)).Keys| == 1
    ensures Upsert(map[earlier.id := earlier], BuildRecords(ctx, [1], [student], status, now))[earlier.id].subjectId == "ds"
  {
    var ledger := map[earlier.id := earlier];
    var recs := BuildRecords(ctx, [1], [student], status, now);
    RecordIdAmbiguousAcrossSubjects();
    SlotMajorAt(ctx, [1], [student], status, now, 0, 0);
    assert recs == [MakeRecord(ctx, 1, student, status, now)];
    assert WrittenIds(recs) == {earlier.id};
    assert Upsert(ledger, recs).Keys == {earlier.id};
  }

  /** The entry a save leaves for a slot and a student is the record built
      for that pair, with that student's mark. */
  lemma {:induction false} SaveEntryAt(
    ledger: Ledger, ctx: SaveContext, slots: seq<nat>, students: seq<User>, status: StatusMap, now: int, s: nat, u: User)
    requires NoDup(slots) && NoDup(Uids(students))
    requires s in slots && u in students
    ensures RecordId(ctx.date, u.uid, ctx.subjectId, s) in Upsert(ledger, BuildRecords(ctx, slots, students, status, now))
    ensures Upsert(ledger, BuildRecords(ctx, slots, students, status, now))[RecordId(ctx.date, u.uid, ctx.subjectId, s)]
         == MakeRecord(ctx, s, u, status, now)
    ensures Upsert(ledger, BuildRecords(ctx, slots, students, status, now))[RecordId(ctx.date, u.uid, ctx.subjectId, s)].isPresent
         == Reading(status, u.uid)
  {
    var recs := BuildRecords(ctx, slots, students, status, now);
    SaveIdsDistinct(ctx, slots, students, status, now);
    UpsertStoresEach(ledger, recs);
    assert HandleSave(ctx, slots, students, status, now) == Write(recs);
    var rec := MakeRecord(ctx, s, u, status, now);
    assert rec in recs;
    assert Upsert(ledger, recs)[rec.id] == rec;
  }

  /** `db.getAttendance(branch, batch, subject)` read off the assumed
      ledger: the stored records of that class. */
  function FetchByClass(ledger: Ledger, branchId: string, batchId: string, subjectId: string): set<AttendanceRecord> {
    set k | k in ledger && ledger[k].branchId == branchId && ledger[k].batchId == batchId && ledger[k].subjectId == subjectId :: ledger[k]
  }

  /** After a save with distinct ids, fetching the class returns every
      record just written. */
  lemma SavedRecordsAreFetched(ledger: Ledger, ctx: SaveContext, slots: seq<nat>, students: seq<User>, status: StatusMap, now: int)
    requires NoDup(slots) && NoDup(Uids(students))
    ensures
      var recs := BuildRecords(ctx, slots, students, status, now);
      forall rec :: rec in recs ==> rec in FetchByClass(Upsert(ledger, recs), ctx.branchId, ctx.batchId, ctx.subjectId)
  {
    var recs := BuildRecords(ctx, slots, students, status, now);
    SaveIdsDistinct(ctx, slots, students, status, now);
    var after := Upsert(ledger, recs);
    UpsertStoresEach(ledger, recs);
    forall rec | rec in recs ensures rec in FetchByClass(after, ctx.branchId, ctx.batchId, ctx.subjectId) {
      assert rec.id in after && after[rec.id] == rec;
    }
  }
}
