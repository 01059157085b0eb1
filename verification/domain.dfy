/** The entities the attendance views work on, as immutable values.
    Identifiers are opaque strings; the batch wildcard stays the magic
    string `"ALL"` the code compares against. */
module Domain {

  datatype Option<T> = None | Some(value: T)

  datatype Role = Admin | Faculty | Student

  /** Academic placement carried by a STUDENT user. An absent roll number
      is `None`; an empty branch or batch id is falsy in the views. */
  datatype StudentData = StudentData(
    branchId: string,
    batchId: string,
    enrollmentId: string,
    rollNo: Option<string>)

  datatype User = User(
    uid: string,
    displayName: string,
    role: Role,
    studentData: Option<StudentData>)

  /** Grant of a (branch, batch, subject) class to a faculty member;
      `batchId` may be the wildcard `ALL`. */
  datatype Assignment = Assignment(
    id: string,
    facultyId: string,
    branchId: string,
    batchId: string,
    subjectId: string)

  datatype Subject = Subject(id: string, name: string, code: string)

  /** One student's presence in one lecture slot of one date. A slot of 0
      stands for a missing (falsy) `lectureSlot`. */
  datatype AttendanceRecord = AttendanceRecord(
    id: string,
    date: string,
    studentId: string,
    subjectId: string,
    branchId: string,
    batchId: string,
    isPresent: bool,
    markedBy: string,
    timestamp: int,
    lectureSlot: nat)

  /** The batch wildcard of an assignment. */
  const ALL: string := "ALL"

  function Uids(users: seq<User>): (r: seq<string>)
    ensures |r| == |users|
    ensures forall i :: 0 <= i < |users| ==> r[i] == users[i].uid
  {
    seq(|users|, i requires 0 <= i < |users| => users[i].uid)
  }

  lemma UidsCons(users: seq<User>)
    requires |users| > 0
    ensures Uids(users) == [users[0].uid] + Uids(users[1..])
  {
  }

  lemma UidsMembers(users: seq<User>, uid: string)
    ensures uid in Uids(users) <==> exists u :: u in users && u.uid == uid
  {
    if exists u :: u in users && u.uid == uid {
      var u :| u in users && u.uid == uid;
      var i :| 0 <= i < |users| && users[i] == u;
      assert Uids(users)[i] == uid;
    }
  }

  function Ids(records: seq<AttendanceRecord>): (r: seq<string>)
    ensures |r| == |records|
    ensures forall i :: 0 <= i < |records| ==> r[i] == records[i].id
  {
    seq(|records|, i requires 0 <= i < |records| => records[i].id)
  }
}
