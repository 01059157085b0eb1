/** The class-history CSV export of the faculty dashboard
    (views/Faculty.tsx `handleExportCSV`).

    The text is the one the code builds, which is close to but not RFC 4180:
    lines are joined with "\n" rather than CRLF (section 2, item 1 of
    RFC 4180) and a double quote inside a quoted field is not doubled
    (section 2, item 7). To say what a reader of the file gets back, the
    module also defines a small quote-aware reader and proves that it
    recovers every header and row field whenever no value contains a double
    quote; `EmbeddedQuoteBreaksRow` shows a value with a quote that it does
    not recover. */
module Csv {
  import opened Seqs
  import opened Text
  import opened Domain
  import opened Resolution
  import opened Roster
  import opened Sorting

  // ---------------------------------------------------------------------
  // Newest-first order: `[...records].sort((a, b) => b.timestamp - a.timestamp)`
  // ---------------------------------------------------------------------

  /** The export's comparator: `a` may stand before `b` when it is not
      older. */
  function NewerFirst(): (AttendanceRecord, AttendanceRecord) -> bool {
    (a: AttendanceRecord, b: AttendanceRecord) => a.timestamp >= b.timestamp
  }

  lemma NewerFirstTotalPreorder()
    ensures TotalPreorder(NewerFirst())
  {
  }

  /** The records stamped at the same instant as `e`. */
  function SameTimestamp(e: AttendanceRecord): AttendanceRecord -> bool {
    (x: AttendanceRecord) => x.timestamp == e.timestamp
  }

  /** Under `NewerFirst`, being level with `e` is sharing its timestamp. */
  lemma NewerFirstEquiv(e: AttendanceRecord, s: seq<AttendanceRecord>)
    ensures Filter(s, Equiv(NewerFirst(), e)) == Filter(s, SameTimestamp(e))
  {
    FilterSame(s, Equiv(NewerFirst(), e), SameTimestamp(e));
  }

  /** `[...records].sort((a, b) => b.timestamp - a.timestamp)`: the export's
      row order, newest first, ties in input order. */
  function SortNewestFirst(records: seq<AttendanceRecord>): (r: seq<AttendanceRecord>)
    ensures multiset(r) == multiset(records)
    ensures |r| == |records|
    ensures forall i, j :: 0 <= i < j < |r| ==> r[i].timestamp >= r[j].timestamp
    ensures forall e :: Filter(r, SameTimestamp(e)) == Filter(records, SameTimestamp(e))
  {
    NewerFirstTotalPreorder();
    var r := Sort(records, NewerFirst());
    assert forall i, j :: 0 <= i < j < |r| ==> NewerFirst()(r[i], r[j]);
    forall e ensures Filter(r, SameTimestamp(e)) == Filter(records, SameTimestamp(e)) {
      NewerFirstEquiv(e, r);
      NewerFirstEquiv(e, records);
    }
    r
  }

  // ---------------------------------------------------------------------
  // Fields and rows as the code writes them
  // ---------------------------------------------------------------------

  /** A cell: written inside double quotes, or written as is. */
  datatype Field = Quoted(value: string) | Bare(value: string)

  function Render(f: Field): string {
    match f
    case Quoted(v) => ['"'] + v + ['"']
    case Bare(v) => v
  }

  function RenderRow(fields: seq<Field>): string {
    Join(Map(fields, Render), ',')
  }

  const HeaderFields: seq<Field> := [
    Bare("Date"), Bare("Roll No"), Bare("Student Name"), Bare("Subject"),
    Bare("Slot"), Bare("Status"), Bare("Marked By")]

  /** `students.find(s => s.uid === uid)`: the first roster entry with that
      uid. */
  function FindStudent(students: seq<User>, uid: string): (r: Option<User>)
    ensures r.None? <==> uid !in Uids(students)
    ensures r.Some? ==> r.value in students && r.value.uid == uid
  {
    if |students| == 0 then None
    else if students[0].uid == uid then Some(students[0])
    else
      assert Uids(students) == [students[0].uid] + Uids(students[1..]);
      FindStudent(students[1..], uid)
  }

  /** The position of the first entry with `uid`, or the length when there
      is none. */
  function FirstWithUid(students: seq<User>, uid: string): (k: nat)
    ensures k <= |students|
    ensures k < |students| <==> uid in Uids(students)
    ensures k < |students| ==> students[k].uid == uid
    ensures forall j :: 0 <= j < k ==> students[j].uid != uid
  {
    if uid in Uids(students) then IndexOf(Uids(students), uid) else |students|
  }

  /** Past a head with another uid, the first entry is one further on. */
  lemma FirstWithUidTail(students: seq<User>, uid: string)
    requires |students| > 0 && students[0].uid != uid && uid in Uids(students)
    ensures FirstWithUid(students, uid) == 1 + FirstWithUid(students[1..], uid)
  {
    var tail := students[1..];
    UidsCons(students);
    var k := FirstWithUid(students, uid);
    var k2 := FirstWithUid(tail, uid);
    assert 0 < k;
    assert tail[k - 1] == students[k];
    assert students[k2 + 1] == tail[k2];
  }

  /** `find` returns the first entry with the uid, not merely some entry. */
  lemma {:induction false} FindStudentIsFirst(students: seq<User>, uid: string)
    requires uid in Uids(students)
    ensures FirstWithUid(students, uid) < |students|
    ensures FindStudent(students, uid) == Some(students[FirstWithUid(students, uid)])
  {
    if students[0].uid != uid {
      UidsCons(students);
      FindStudentIsFirst(students[1..], uid);
      FirstWithUidTail(students, uid);
    }
  }

  /** `r.lectureSlot || 1`. */
  function SlotOrOne(slot: nat): nat {
    if slot == 0 then 1 else slot
  }

  /** The seven cells of a record's line. The marker column is the
      exporting user's display name, not the record's `markedBy`. */
  function RowFields(
    r: AttendanceRecord, students: seq<User>, subjects: map<string, SubjectInfo>, marker: string): seq<Field>
  {
    var student := FindStudent(students, r.studentId);
    var roll := if student.Some? then RollKey(student.value) else "";
    var name := if student.Some? && student.value.displayName != "" then student.value.displayName else "Unknown";
    [Quoted(r.date), Quoted(roll), Quoted(name), Quoted(SubjectNameOr(subjects, r.subjectId)),
     Bare(Decimal(SlotOrOne(r.lectureSlot))), Bare(if r.isPresent then "Present" else "Absent"),
     Quoted(marker)]
  }

  function RowOf(students: seq<User>, subjects: map<string, SubjectInfo>, marker: string): AttendanceRecord -> seq<Field> {
    (r: AttendanceRecord) => RowFields(r, students, subjects, marker)
  }

  /** The cells of the file: the header, then one row per record, newest
      first. */
  function ExportTable(
    records: seq<AttendanceRecord>, students: seq<User>, subjects: map<string, SubjectInfo>, marker: string): seq<seq<Field>>
  {
    [HeaderFields] + Map(SortNewestFirst(records), RowOf(students, subjects, marker))
  }

  /** `handleExportCSV`: nothing when there is no record, else the file
      text. */
  function ExportCsv(
    records: seq<AttendanceRecord>, students: seq<User>, subjects: map<string, SubjectInfo>, marker: string): (r: Option<string>)
    ensures r.None? <==> |records| == 0
  {
    if |records| == 0 then None else Some(Join(Map(ExportTable(records, students, subjects, marker), RenderRow), '\n'))
  }

  // ---------------------------------------------------------------------
  // A quote-aware reader
  // ---------------------------------------------------------------------

  /** Length of the leading run of `s` before the first `sep` outside
      quotes, a double quote toggling "inside quotes". */
  function FieldEnd(s: string, sep: char, inQuotes: bool): (k: nat)
    ensures k <= |s|
  {
    if |s| == 0 then 0
    else if s[0] == sep && !inQuotes then 0
    else 1 + FieldEnd(s[1..], sep, if s[0] == '"' then !inQuotes else inQuotes)
  }

  /** Splits at every `sep` outside quotes. */
  function SplitTop(s: string, sep: char): seq<string>
    decreases |s|
  {
    var k := FieldEnd(s, sep, false);
    if k == |s| then [s] else [s[..k]] + SplitTop(s[k + 1..], sep)
  }

  function Unquote(raw: string): Field {
    if |raw| >= 2 && raw[0] == '"' && raw[|raw| - 1] == '"' then Quoted(raw[1..|raw| - 1]) else Bare(raw)
  }

  function ParseRow(line: string): seq<Field> {
    Map(SplitTop(line, ','), Unquote)
  }

  function ParseCsv(text: string): seq<seq<Field>> {
    Map(SplitTop(text, '\n'), ParseRow)
  }

  // ---------------------------------------------------------------------
  // Round trip
  // ---------------------------------------------------------------------

  predicate NoQuote(s: string) {
    '"' !in s
  }

  /** A field the reader gets back: no double quote anywhere, and a bare
      field holds no separator either. */
  predicate Clean(f: Field) {
    NoQuote(f.value) && (f.Bare? ==> ',' !in f.value && '\n' !in f.value)
  }

  predicate CleanRow(fields: seq<Field>) {
    |fields| > 0 && forall i :: 0 <= i < |fields| ==> Clean(fields[i])
  }

  lemma {:induction false} FieldEndSkip(x: string, t: string, sep: char, inQuotes: bool)
    requires NoQuote(x) && (inQuotes || sep !in x)
    ensures FieldEnd(x + t, sep, inQuotes) == |x| + FieldEnd(t, sep, inQuotes)
  {
    if |x| > 0 {
      assert (x + t)[1..] == x[1..] + t;
      FieldEndSkip(x[1..], t, sep, inQuotes);
    } else {
      assert x + t == t;
    }
  }

  /** A clean rendered field contains no separator outside its quotes and
      leaves the quote state closed. */
  lemma FieldEndAfterField(f: Field, t: string, sep: char)
    requires Clean(f) && sep != '"' && (sep == ',' || sep == '\n')
    ensures FieldEnd(Render(f) + t, sep, false) == |Render(f)| + FieldEnd(t, sep, false)
  {
    match f
    case Bare(v) =>
      FieldEndSkip(v, t, sep, false);
    case Quoted(v) =>
      assert Render(f) + t == ['"'] + (v + (['"'] + t));
      FieldEndSkip(v, ['"'] + t, sep, true);
      assert (['"'] + t)[1..] == t;
  }

  /** A rendered clean row has no line break outside quotes. */
  lemma {:induction false} FieldEndAfterRow(fields: seq<Field>, t: string)
    requires CleanRow(fields)
    ensures FieldEnd(RenderRow(fields) + t, '\n', false) == |RenderRow(fields)| + FieldEnd(t, '\n', false)
  {
    var parts := Map(fields, Render);
    if |fields| == 1 {
      FieldEndAfterField(fields[0], t, '\n');
    } else {
      var restRow := RenderRow(fields[1..]);
      assert Map(fields[1..], Render) == parts[1..];
      assert RenderRow(fields) == Render(fields[0]) + [','] + restRow;
      assert RenderRow(fields) + t == Render(fields[0]) + ([','] + (restRow + t));
      FieldEndAfterField(fields[0], [','] + (restRow + t), '\n');
      assert ([','] + (restRow + t))[1..] == restRow + t;
      FieldEndAfterRow(fields[1..], t);
    }
  }

  /** Joining parts that each hide every `sep` inside quotes and then
      splitting at `sep` gives the parts back. */
  lemma {:induction false} SplitJoin(parts: seq<string>, sep: char)
    requires |parts| > 0
    requires forall i, t :: 0 <= i < |parts| ==> FieldEnd(parts[i] + t, sep, false) == |parts[i]| + FieldEnd(t, sep, false)
    ensures SplitTop(Join(parts, sep), sep) == parts
  {
    var p := parts[0];
    if |parts| == 1 {
      assert FieldEnd(p + "", sep, false) == |p|;
      assert p + "" == p;
    } else {
      var rest := Join(parts[1..], sep);
      var s := Join(parts, sep);
      assert s == p + ([sep] + rest);
      assert FieldEnd(s, sep, false) == |p|;
      assert s[..|p|] == p;
      assert s[|p| + 1..] == rest;
      SplitJoin(parts[1..], sep);
    }
  }

  lemma RenderUnquote(f: Field)
    requires Clean(f)
    ensures Unquote(Render(f)) == f
  {
    match f
    case Bare(v) =>
      if |v| >= 2 {
        assert v[0] != '"';
      }
    case Quoted(v) =>
      assert Render(f)[1..|Render(f)| - 1] == v;
  }

  /** A reader splitting at unquoted commas recovers every clean row. */
  lemma {:induction false} ParseRenderedRow(fields: seq<Field>)
    requires CleanRow(fields)
    ensures ParseRow(RenderRow(fields)) == fields
  {
    var parts := Map(fields, Render);
    forall i, t | 0 <= i < |parts| ensures FieldEnd(parts[i] + t, ',', false) == |parts[i]| + FieldEnd(t, ',', false) {
      FieldEndAfterField(fields[i], t, ',');
    }
    SplitJoin(parts, ',');
    forall i | 0 <= i < |fields| ensures Unquote(parts[i]) == fields[i] {
      RenderUnquote(fields[i]);
    }
  }

  /** A reader splitting lines at unquoted line breaks, then rows at
      unquoted commas, recovers every clean table. */
  lemma {:induction false} ParseRenderedTable(rows: seq<seq<Field>>)
    requires |rows| > 0
    requires forall i :: 0 <= i < |rows| ==> CleanRow(rows[i])
    ensures ParseCsv(Join(Map(rows, RenderRow), '\n')) == rows
  {
    var lines := Map(rows, RenderRow);
    forall i, t | 0 <= i < |lines| ensures FieldEnd(lines[i] + t, '\n', false) == |lines[i]| + FieldEnd(t, '\n', false) {
      FieldEndAfterRow(rows[i], t);
    }
    SplitJoin(lines, '\n');
    forall i | 0 <= i < |rows| ensures ParseRow(lines[i]) == rows[i] {
      ParseRenderedRow(rows[i]);
    }
  }

  /** The export data contains no double quote in any value the code
      quotes. */
  predicate QuoteFreeInputs(
    records: seq<AttendanceRecord>, students: seq<User>, subjects: map<string, SubjectInfo>, marker: string)
  {
    && (forall r :: r in records ==> NoQuote(r.date) && NoQuote(r.subjectId))
    && (forall u :: u in students ==> NoQuote(u.displayName) && NoQuote(RollKey(u)))
    && (forall k :: k in subjects ==> NoQuote(subjects[k].name))
    && NoQuote(marker)
  }

  lemma SlotFieldClean(n: nat)
    ensures Clean(Bare(Decimal(n)))
  {
    assert !IsDigit('"') && !IsDigit(',') && !IsDigit('\n');
  }

  lemma StatusFieldClean(present: bool)
    ensures Clean(Bare(if present then "Present" else "Absent"))
  {
    if present {
      PlainIsClean("Present");
    } else {
      PlainIsClean("Absent");
    }
  }

  lemma RowFieldsClean(
    r: AttendanceRecord, records: seq<AttendanceRecord>, students: seq<User>, subjects: map<string, SubjectInfo>, marker: string)
    requires r in records && QuoteFreeInputs(records, students, subjects, marker)
    ensures CleanRow(RowFields(r, students, subjects, marker))
  {
    var student := FindStudent(students, r.studentId);
    SlotFieldClean(SlotOrOne(r.lectureSlot));
    StatusFieldClean(r.isPresent);
    PlainIsClean("Unknown");
    var fields := RowFields(r, students, subjects, marker);
    assert Clean(fields[4]) && Clean(fields[5]);
    assert Clean(fields[1]) && Clean(fields[2]) by {
      if student.Some? {
        assert student.value in students;
      }
    }
  }

  /** Letters and spaces only. */
  predicate Plain(s: string) {
    forall i :: 0 <= i < |s| ==> s[i] == ' ' || 'A' <= s[i] <= 'Z' || 'a' <= s[i] <= 'z'
  }

  lemma PlainIsClean(s: string)
    requires Plain(s)
    ensures Clean(Bare(s))
  {
  }

  lemma HeaderClean()
    ensures CleanRow(HeaderFields)
  {
    forall i | 0 <= i < |HeaderFields| ensures Clean(HeaderFields[i]) {
      PlainIsClean(HeaderFields[i].value);
    }
  }

  /** Every record line of the export is clean when its inputs are, in
      whatever order the records come. */
  lemma RecordRowClean(
    records: seq<AttendanceRecord>, sorted: seq<AttendanceRecord>,
    students: seq<User>, subjects: map<string, SubjectInfo>, marker: string, k: nat)
    requires QuoteFreeInputs(records, students, subjects, marker)
    requires multiset(sorted) == multiset(records) && k < |sorted|
    ensures CleanRow(Map(sorted, RowOf(students, subjects, marker))[k])
  {
    assert sorted[k] in multiset(records);
    RowFieldsClean(sorted[k], records, students, subjects, marker);
  }

  /** The record lines of the export are clean when its inputs are. */
  lemma RecordRowsClean(
    records: seq<AttendanceRecord>, students: seq<User>, subjects: map<string, SubjectInfo>, marker: string)
    requires QuoteFreeInputs(records, students, subjects, marker)
    ensures forall k :: 0 <= k < |records| ==>
      CleanRow(Map(SortNewestFirst(records), RowOf(students, subjects, marker))[k])
  {
    var sorted := SortNewestFirst(records);
    forall k | 0 <= k < |records| ensures CleanRow(Map(sorted, RowOf(students, subjects, marker))[k]) {
      RecordRowClean(records, sorted, students, subjects, marker, k);
    }
  }

  /** A clean header followed by clean rows reads back as written. */
  lemma ParseHeaderAndRows(header: seq<Field>, body: seq<seq<Field>>)
    requires CleanRow(header)
    requires forall k :: 0 <= k < |body| ==> CleanRow(body[k])
    ensures ParseCsv(Join(Map([header] + body, RenderRow), '\n')) == [header] + body
  {
    var rows := [header] + body;
    forall i | 0 <= i < |rows| ensures CleanRow(rows[i]) {
      if i > 0 {
        assert rows[i] == body[i - 1];
      }
    }
    ParseRenderedTable(rows);
  }

  /** A quote-aware reader gets back exactly the cells the export wrote
      when no value it quotes holds a double quote. */
  lemma ExportRoundTrip(
    records: seq<AttendanceRecord>, students: seq<User>, subjects: map<string, SubjectInfo>, marker: string)
    requires |records| > 0
    requires QuoteFreeInputs(records, students, subjects, marker)
    ensures ParseCsv(ExportCsv(records, students, subjects, marker).value) == ExportTable(records, students, subjects, marker)
  {
    HeaderClean();
    RecordRowsClean(records, students, subjects, marker);
    ParseHeaderAndRows(HeaderFields, Map(SortNewestFirst(records), RowOf(students, subjects, marker)));
  }

  /** The file has the header and then exactly one row per record. */
  lemma ExportShape(
    records: seq<AttendanceRecord>, students: seq<User>, subjects: map<string, SubjectInfo>, marker: string)
    ensures |ExportTable(records, students, subjects, marker)| == 1 + |records|
    ensures ExportTable(records, students, subjects, marker)[0] == HeaderFields
  {
  }

  /** The student cells of a record's line: for a uid on the roster, the
      roll number and the name of its first roster entry, the name falling
      back to `Unknown` when empty; for any other uid, an empty roll number
      and `Unknown`. */
  lemma {:induction false} StudentCells(
    r: AttendanceRecord, students: seq<User>, subjects: map<string, SubjectInfo>, marker: string)
    ensures r.studentId !in Uids(students) ==>
      && RowFields(r, students, subjects, marker)[1] == Quoted("")
      && RowFields(r, students, subjects, marker)[2] == Quoted("Unknown")
    ensures r.studentId in Uids(students) ==>
      var u := students[FirstWithUid(students, r.studentId)];
      && RowFields(r, students, subjects, marker)[1] == Quoted(RollKey(u))
      && RowFields(r, students, subjects, marker)[2] == Quoted(if u.displayName != "" then u.displayName else "Unknown")
  {
    var student := FindStudent(students, r.studentId);
    var row := RowFields(r, students, subjects, marker);
    assert row[1] == Quoted(if student.Some? then RollKey(student.value) else "");
    assert row[2] == Quoted(if student.Some? && student.value.displayName != "" then student.value.displayName else "Unknown");
    if r.studentId in Uids(students) {
      FindStudentIsFirst(students, r.studentId);
    }
  }

  /** Row `i + 1` of the file is the `i`-th newest record: seven cells, the
      date; the roll number and name of the record's student, or an empty
      roll number and `Unknown` for a uid off the roster; the subject's name
      or else its id; the slot falling back to 1; the literal
      `Present`/`Absent`; and the exporting user, not the record's marker,
      in the last column. */
  lemma ExportRowAt(
    records: seq<AttendanceRecord>, students: seq<User>, subjects: map<string, SubjectInfo>, marker: string, i: nat)
    requires i < |records|
    ensures
      var row := ExportTable(records, students, subjects, marker)[i + 1];
      var r := SortNewestFirst(records)[i];
      && |row| == 7
      && row[0] == Quoted(r.date)
      && (r.studentId !in Uids(students) ==> row[1] == Quoted("") && row[2] == Quoted("Unknown"))
      && (r.studentId in Uids(students) ==>
            var u := students[FirstWithUid(students, r.studentId)];
            row[1] == Quoted(RollKey(u)) && row[2] == Quoted(if u.displayName != "" then u.displayName else "Unknown"))
      && row[3] == Quoted(SubjectNameOr(subjects, r.subjectId))
      && row[4] == Bare(Decimal(SlotOrOne(r.lectureSlot)))
      && row[5] == Bare(if r.isPresent then "Present" else "Absent")
      && row[6] == Quoted(marker)
  {
    var row := ExportTable(records, students, subjects, marker)[i + 1];
    assert row == RowFields(SortNewestFirst(records)[i], students, subjects, marker);
    StudentCells(SortNewestFirst(records)[i], students, subjects, marker);
  }

  /** A quoted value holding a double quote and a comma splits into
      different cells: the code does not double embedded quotes. */
  lemma EmbeddedQuoteBreaksRow()
    ensures ParseRow(RenderRow([Quoted("a\",b"), Bare("Present")])) != [Quoted("a\",b"), Bare("Present")]
  {
    var fields := [Quoted("a\",b"), Bare("Present")];
    var parts := Map(fields, Render);
    assert |parts| == 2 && parts[1] == "Present";
    assert parts[1..] == ["Present"];
    assert Join(parts[1..], ',') == "Present";
    var line := RenderRow(fields);
    assert line == parts[0] + [','] + "Present";
    assert line[..3] == "\"a\"";
    assert FieldEnd(line[3..], ',', false) == 0;
    assert FieldEnd(line[2..], ',', true) == 1;
    assert FieldEnd(line[1..], ',', true) == 2;
    assert FieldEnd(line, ',', false) == 3;
    assert SplitTop(line, ',')[0] == "\"a\"";
    assert ParseRow(line)[0] == Quoted("a");
  }
}
