# Attendance engine of the Acropolis attendance portal, in Dafny

This project models the logic inside the portal's three main views, written as pure functions over sequences and maps:

- **Faculty dashboard** (`views/Faculty.tsx`):
  - the cascading branch → batch → subject pickers built from the faculty member's assignments;
  - the class roster, deduplicated by uid and sorted by roll number;
  - the present/absent map and its controls ("Present All", "Absent All", a click on a row, the lecture-slot buttons);
  - the records a save builds and their ids;
  - the history table with its 75% LOW badge;
  - the CSV export.
- **Student dashboard** (`views/Student.tsx`): which subjects a student sees, including the `ALL` batch wildcard; the per-subject totals and percentage; the LOW classification.
- **Application shell** (`App.tsx`):
  - the route table with `RootRedirect` and the `RequireRole` guard;
  - the profile-settings modal;
  - the change-password handler with its validation order and its submit button.

The modules follow those pieces:

- `Seqs`, `Text` and `Sorting` model the JavaScript idioms the views use:
  - `filter`;
  - `Array.from(new Set(..))`;
  - `Array.from(new Map(..).values())`;
  - template literals;
  - `join`;
  - the stable `sort` with a comparator (`localeCompare` on a string key, or newest timestamp first).
- `Domain` holds the entities.
- `Resolution` covers assignment resolution on both sides.
- `Roster` covers roster loading.
- `Marking` covers marking, saving and the ledger.
- `Aggregate` covers the percentages.
- `Csv` covers the export.
- `Routing` covers `App.tsx`.
- `Scenarios` states concrete cases over the seed data of `constants.ts` as lemmas.

The model keeps the two sides' different treatment of the `ALL` wildcard exactly as the code has it.

- The faculty batch list drops `ALL` without expanding it (`views/Faculty.tsx:83`).
- The faculty subject list matches the selected batch literally (`views/Faculty.tsx:87`).
- So a wildcard assignment never makes a subject selectable for its faculty member.
- The student side accepts `ALL` as matching any batch (`views/Student.tsx:22`).
- `Scenarios.SeedStudentSeesNetworks` and `Scenarios.SeedFacultyCannotSelectNetworks` show both halves on the seed assignment `assign_2`.

The CSV export writes exactly the seven columns of `views/Faculty.tsx:114`: Date, Roll No, Student Name, Subject, Slot, Status and Marked By.

`db.saveAttendance` is not part of this model. Where the model states what a save leaves behind, it ASSUMES the ledger is a map from record id to record that each write overwrites (an upsert by id). Every ledger lemma holds under that assumption only.

A record id is `date_uid_subjectId_L<slot>`: date, uid and subject id joined by `_`, then `_L` and the slot number (`views/Faculty.tsx:99`). Within one date and subject the id is unique (`Marking.RecordIdInjective`). Across subjects it is not, because a uid or a subject id may itself contain `_`. Under the assumed ledger, a save can then replace a stored record of another subject (`Marking.SaveOverwritesOtherSubject`).

## Model

| member | source | states |
|---|---|---|
| Resolution.AvailableBranches | views/Faculty.tsx:79 | the branch options are exactly the distinct branch ids of the assignments, each once, labelled with the cached name or else the id |
| Resolution.AvailableBatches | views/Faculty.tsx:81-84 | the batch options are exactly the distinct batch ids of the selected branch's assignments other than `ALL`, each once, labelled with the cached name or else the id |
| Resolution.WildcardOnlyBranchHasNoBatches | views/Faculty.tsx:82-83 | a branch whose assignments all use `ALL` offers no batch at all |
| Resolution.AvailableSubjects | views/Faculty.tsx:86-90 | the subject options are exactly the distinct subject ids of assignments with the selected branch and literally the selected batch; name falls back to the id, code is undefined for an unknown subject |
| Resolution.WildcardNeverContributesSubjects | views/Faculty.tsx:87 | for any batch other than `ALL`, deleting every wildcard assignment leaves the subject options unchanged |
| Resolution.WildcardOnlySubjectNotSelectable | views/Faculty.tsx:81-89 | a subject named only by wildcard assignments is absent from the subject options of every batch other than `ALL`; with `AvailableBatches`, which never offers `ALL`, such a subject is never selectable |
| Resolution.VisibleSubjects | views/Student.tsx:16-27 | no placement means early return with no subject; otherwise a catalogue subject is shown iff an assignment of the student's branch with the student's batch or `ALL` names it, with its catalogue multiplicity, sorted by name, subjects of equal name in catalogue order |
| Resolution.StudentSeesGrantedSubject | views/Student.tsx:20-27 | a catalogue subject named by a covering assignment, wildcard or not, is shown |
| Roster.DedupByUid | views/Faculty.tsx:69 | the deduplicated uids are the input's distinct uids, listed by `Distinct` in order of first appearance, and each kept row is the last row with its uid |
| Seqs.DistinctInFirstOccurrenceOrder | views/Faculty.tsx:69 | `Distinct` lists the values in the order of their first occurrence |
| Roster.DedupKeepsFirstAppearanceOrder | views/Faculty.tsx:69 | the deduplicated rows follow the order in which each uid first appears in the fetched data |
| Roster.LatestEntryUnique | views/Faculty.tsx:69 | at most one row per uid can be the last with that uid |
| Roster.LoadRoster | views/Faculty.tsx:69-70 | the roster holds each input uid exactly once and no other, keeps the last row per uid, is ordered non-decreasingly by roll number with a missing one read as empty, and keeps students with equal roll keys in deduplicated order |
| Roster.RosterTiesKeepFirstAppearance | views/Faculty.tsx:69-70 | students with equal roll keys appear in the order in which their uids first appear in the fetched data |
| Roster.MissingRollSortsFirst | views/Faculty.tsx:70 | a student without a roll number stands before every student with one |
| Sorting.InsertFilter | views/Faculty.tsx:70 | for a total preorder, inserting an element puts it ahead of every element the comparison ranks level with it, and keeps the order of those elements |
| Sorting.Sort | views/Faculty.tsx:70 | the stable insertion sort is a permutation of its input and keeps a duplicate-free input duplicate-free; for a total preorder it is ordered, and elements it ranks level keep their input order |
| Sorting.SortBy | views/Faculty.tsx:70 | the sort by a `localeCompare` key is a permutation of its input, ordered by the key, keeps a duplicate-free input duplicate-free, and keeps elements with equal keys in their input order |
| Text.LexLeTotal | views/Faculty.tsx:70 | the comparison standing for `localeCompare` relates every two keys |
| Text.LexLeTransitive | views/Faculty.tsx:70 | the comparison is transitive |
| Text.LexLeAntisymmetric | views/Faculty.tsx:70 | two keys each at most the other are equal |
| Text.DecimalRoundTrip | views/Faculty.tsx:99 | the decimal text of a slot reads back as that slot |
| Text.DecimalInjective | views/Faculty.tsx:99 | different slots have different decimal texts |
| Marking.MarkAll | views/Faculty.tsx:109 | every roster uid is set to the chosen value and every other key is unchanged |
| Marking.Toggle | views/Faculty.tsx:110 | the toggled student's reading flips, and every other key is unchanged; a missing key reads as absent for a uid that is not an `Object.prototype` property name |
| Marking.ToggleTwice | views/Faculty.tsx:110 | toggling a student twice restores every reading |
| Marking.ToggleSlot | views/Faculty.tsx:163 | a slot button flips that slot's membership only, a newly selected slot goes at the end, and the selection stays duplicate-free within 1..7 |
| Marking.RecordIdInjective | views/Faculty.tsx:99 | within one date and subject, the id determines the student and the slot |
| Marking.RecordIdAmbiguousAcrossSubjects | views/Faculty.tsx:99 | across subjects two different students can share an id, because `_` may occur inside the ids it joins |
| Marking.BuildRecords | views/Faculty.tsx:95-103 | a save builds slots × roster records, each with the save's date, subject, class, marker and clock, one of the slots, a roster uid, that uid's reading and the id of its date, uid, subject and slot |
| Marking.SlotMajorOrder | views/Faculty.tsx:96-98 | the record for the i-th slot and j-th student sits at i·\|roster\| + j |
| Marking.HandleSave | views/Faculty.tsx:92-104 | no slot gives the "Select slot" outcome and no write; otherwise slots × roster records, each from the save and every slot-student pair present |
| Marking.SaveIdsDistinct | views/Faculty.tsx:99 | distinct slots and distinct uids give pairwise distinct ids within one save |
| Marking.SaveIdsIgnoreMarks | views/Faculty.tsx:99-100 | the ids of a save do not depend on the marks or the clock |
| Marking.Upsert | views/Faculty.tsx:104 | under the assumed ledger: the keys grow by exactly the written ids, untouched entries stay, and each written id holds a record of the batch with that id |
| Marking.UpsertStoresEach | views/Faculty.tsx:104 | under the assumed ledger, a batch with distinct ids is stored record for record |
| Marking.UpsertIsOverride | views/Faculty.tsx:104 | under the assumed ledger, a write is the old ledger overridden by the map the batch writes |
| Marking.UpsertIdempotent | views/Faculty.tsx:104 | under the assumed ledger, writing the same batch twice equals writing it once |
| Marking.LaterSaveWins | views/Faculty.tsx:104 | under the assumed ledger, a batch that rewrites every id of an earlier one leaves no trace of it |
| Marking.ResaveReplacesPreviousSave | views/Faculty.tsx:92-104 | under the assumed ledger, re-saving with the same slots and roster, whatever the marks and clock, equals saving only the second time |
| Marking.SaveEntryCount | views/Faculty.tsx:92-104 | under the assumed ledger, a save with distinct slots and uids into a ledger holding none of its ids adds exactly slots × roster entries |
| Marking.SaveOverwritesOtherSubject | views/Faculty.tsx:99-104 | under the assumed ledger, a save in subject `ds` for `stu_1` replaces the stored record of `stu` in subject `1_ds` of the same date and slot, leaving one entry, now of subject `ds` |
| Marking.SaveEntryAt | views/Faculty.tsx:99-104 | under the assumed ledger, the entry for a slot and a student is the record built for that pair, carrying that student's mark |
| Marking.SavedRecordsAreFetched | views/Faculty.tsx:104-105 | under the assumed ledger, the class fetch after a save returns every record just written |
| Aggregate.Percent | views/Student.tsx:38 | 0 for no record; otherwise the round-half-up of 100·present/total, and at most 100 |
| Aggregate.PercentOfAll | views/Student.tsx:38 | every record present gives 100 |
| Aggregate.PercentOfNone | views/Student.tsx:38 | no record present gives 0 |
| Aggregate.Summarize | views/Student.tsx:35-38 | total is the number of records, present the number of present records, and pct the rounded percentage of the two; present is at most total, pct at most 100, 0 present gives 0 and all present gives 100 |
| Aggregate.SubjectSummary | views/Student.tsx:34-38 | `calc` counts the records of the subject as total and its present records as present, with pct the rounded percentage of the two |
| Aggregate.SubjectSummaryPermutation | views/Student.tsx:35-37 | `calc` gives the same result for any reordering of the attendance list |
| Aggregate.StudentSummary | views/Faculty.tsx:183-185 | a history row counts the class records of the student as total and the present ones as present, with pct the rounded percentage of the two |
| Aggregate.StudentSummaryPermutation | views/Faculty.tsx:183-185 | a history row is the same for any reordering of the class records |
| Aggregate.SummarizePermutation | views/Student.tsx:35-38 | a summary depends only on the multiset of records |
| Aggregate.SummarizeAppend | views/Faculty.tsx:183-184 | totals and present counts add over concatenated record lists |
| Aggregate.LowIffBelowThreshold | views/Faculty.tsx:193 | LOW holds exactly when there is no record or fewer than 74.5% are present |
| Aggregate.ClassRows | views/Faculty.tsx:182-193 | one row per roster student in roster order, each with that student's record count, present count and rounded percentage, and the badge LOW iff pct < 75 |
| Aggregate.ClassRowLowIffBelowThreshold | views/Faculty.tsx:183-193 | a history row is LOW exactly when the student has no class record or fewer than 74.5% of them are present |
| Aggregate.ClassRowsAccountForRecords | views/Faculty.tsx:182-190 | with distinct roster uids, the "Total Classes" column sums to the number of class records of roster students |
| Csv.SortNewestFirst | views/Faculty.tsx:116 | the export order is a permutation of the records with timestamps non-increasing, and records with equal timestamps keep their input order |
| Csv.FindStudent | views/Faculty.tsx:118 | the lookup finds nothing iff no roster entry has the uid, else a roster entry with that uid |
| Csv.FindStudentIsFirst | views/Faculty.tsx:118 | when some entry has the uid, the lookup returns the first such entry, before which no entry has it |
| Csv.ExportCsv | views/Faculty.tsx:113 | there is no file exactly when there is no record |
| Csv.ExportShape | views/Faculty.tsx:114-117 | the file has the seven-column header and then one row per record |
| Csv.StudentCells | views/Faculty.tsx:118-123 | the roll and name cells come from the first roster entry with the record's uid, the name falling back to `Unknown` when empty; a uid off the roster gives an empty roll and `Unknown` |
| Csv.ExportRowAt | views/Faculty.tsx:117-129 | the row of the i-th newest record has seven cells: its date; the roll and name of the first roster entry with its uid, or empty and `Unknown` off the roster; the subject's name or else its id; the slot or 1; literal Present/Absent; and the exporting user's name |
| Csv.ExportRoundTrip | views/Faculty.tsx:112-131 | when no value the export quotes contains a double quote, a quote-aware reader gets back exactly the header and the rows the export wrote |
| Csv.ParseRenderedTable | views/Faculty.tsx:129-131 | lines joined with a line feed, each a clean row, read back as those rows |
| Csv.ParseRenderedRow | views/Faculty.tsx:129 | a clean row joined with commas reads back as its cells |
| Csv.EmbeddedQuoteBreaksRow | views/Faculty.tsx:121-124 | a quoted value holding a double quote and a comma does not read back, since the export does not double embedded quotes |
| Routing.Route | App.tsx:96-151 | `/login` shows the login page only when nobody is signed in and sends a signed-in user to `/`; every path outside the table is sent to `/` |
| Routing.RootRedirect | App.tsx:76-84 | nobody signed in goes to `/login`; each role goes to its own portal path |
| Routing.RequireRole | App.tsx:87-91 | a guarded portal renders exactly for its own role; nobody goes to `/login`, another role to `/` |
| Routing.PortalOnlyForOwnRole | App.tsx:96-151 | a portal is rendered only on its own path and only for its own role |
| Routing.LoginOnlyWhenSignedOut | App.tsx:96-99 | the login page is rendered only on `/login` and only when nobody is signed in |
| Routing.NavigationSettles | App.tsx:96-151 | from every path, at most two redirects reach the viewer's home screen: the login page, or the viewer's own portal |
| Routing.HomeIsStable | App.tsx:96-151 | a home screen does not redirect |
| Routing.SettingsModalMounted | App.tsx:155 | the settings modal exists exactly for a signed-in administrator or faculty member |
| Routing.HandleChangePassword | App.tsx:45-65 | mismatch is reported first, then a new password under 6 characters; the service is called, with (current, new), exactly when both checks pass; success resets the form and closes the modal; failure shows "Error: " and the message and keeps the form; a rejected form changes nothing, and loading ends false after a call |
| Routing.SubmitDisabled | App.tsx:180 | the button is disabled while a change is in flight and when the current or the new password is empty, and it never blocks a form the handler accepts |
| Routing.SubmitIgnoresConfirmation | App.tsx:180 | the button's state does not depend on the confirmation field |
| Routing.MismatchReportedFirst | App.tsx:46-53 | any form that both mismatches and is too short gets the mismatch alert, not the length alert |
| Routing.EnabledButRejected | App.tsx:180 | with a current and a new password typed and nothing in flight, the button is enabled even for a form the handler rejects, as a mismatch or as too short, without calling the service |
| Scenarios.SeedStudentSeesNetworks | constants.ts:54-68 | through the wildcard `assign_2`, seed student `stu_1` sees Computer Networks next to Data Structures |
| Scenarios.SeedFacultyCannotSelectNetworks | constants.ts:62-68 | the same assignment never makes Computer Networks selectable for `fac_1` in any CSE batch other than `ALL`, which is every batch the picker can offer |
| Scenarios.SeedMarks | constants.ts:29-50 | "Present All" over the seed students followed by a click on `stu_2` leaves `stu_1` present and `stu_2` absent |
| Scenarios.SeedResaveKeepsTwoRecords | constants.ts:29-50 | saving slot 1 for both seed students, then re-saving with `stu_2` absent, leaves exactly two records, `stu_1` present and `stu_2` absent |
| Scenarios.SeedRollNumbersMissing | constants.ts:34-38 | the seed students carry no roll number, so both sort under the empty key |
| Scenarios.SeedThresholdExamples | views/Student.tsx:52 | 3 of 4 is on track; 2 of 3 gives 67 and is LOW |

## Left out

- All `db.*` calls are outside the model: fetching, `getCurrentUser`, `logout`, `changePassword` and `saveAttendance`. Their results are parameters, with one exception. The ledger behind `saveAttendance` is an assumed upsert-by-id map, not verified behaviour.
- Marking.FetchByClass: `db.getAttendance` is not a parameter. It is defined as the records of the assumed ledger with the given branch, batch and subject, and `Marking.SavedRecordsAreFetched` holds under that assumption only.
- React machinery is not modelled: state hooks, effects, memoisation, JSX and `react-router`'s `Navigate`. A route is a pure function from the path and the viewer's role to a screen.
- Route matching is exact string equality. `react-router` also ignores a trailing slash and letter case.
- The async ordering of the loading effects is not modelled, including a late response after a quick reselection (`views/Faculty.tsx:36-76`, `views/Student.tsx:14-32`). That is concurrency.
- `Math.round((p / n) * 100)` runs on doubles. The model uses the exact round-half-up `(200p + n) / (2n)`, and doubles can differ at exact .5 boundaries. The SVG circle arithmetic (`views/Student.tsx:53-55`) is display only.
- `Date.now()` becomes one parameter `now` shared by every record of a save. The source calls it per record, so its records may carry different timestamps. The `toISOString` default date and the history view's `new Date(..)` sort (`views/Faculty.tsx:223`) are left out.
- `localeCompare` is locale-dependent. The model uses plain lexicographic order on characters, a total preorder, and the stable insertion sort that ECMAScript's stable `sort` agrees with.
- String lengths are counted in characters. JavaScript counts UTF-16 code units, so the 6-character password minimum differs for characters outside the Basic Multilingual Plane.
- `RootRedirect`'s "Unknown Role" branch cannot be reached with the three roles of the model.
- A lecture slot is a natural number, and 0 stands for the falsy missing slot.
- The CSV blob, URL, anchor and file name (`views/Faculty.tsx:131-136`) are left out. So are `alert` texts other than the password notices, `setTimeout`, and the save message.
- The present counter at `views/Faculty.tsx:171` counts every true entry of the status map and is display only.
- Csv.ExportRoundTrip: proved only when no quoted value contains a double quote. `Csv.EmbeddedQuoteBreaksRow` shows what happens otherwise.
- Resolution.VisibleSubjects: subjects with equal names keep catalogue order, but names are compared character by character. The source's `localeCompare` may order differently within a locale.
- Marking.Reading: uids are assumed not to be `Object.prototype` property names (`constructor`, `toString`, `__proto__`, ...). For such a uid `attendanceStatus[uid]` finds the inherited member and reads as present.
- Marking.Toggle: uids are assumed not to be `Object.prototype` property names. For such a uid the source's first toggle writes `false`, not `true`.
- Resolution.NameOr: ids are assumed not to be `Object.prototype` property names. For such an id `names[id] || id` yields the inherited member, not the id.
- Resolution.SubjectNameOr: ids are assumed not to be `Object.prototype` property names. For such an id `subjects[id]?.name` reads the `name` of the inherited member (`Object` for `constructor`), not the id.
