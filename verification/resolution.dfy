/** Which classes a user may see: the faculty dashboard's cascading branch →
    batch → subject option lists (views/Faculty.tsx) and the subjects shown
    on the student dashboard (views/Student.tsx).

    The two sides treat the wildcard batch `ALL` differently, and the model
    keeps that: the faculty batch list drops `ALL` without expanding it and
    the faculty subject list matches the selected batch literally, while the
    student side accepts `ALL` as matching any batch. */
module Resolution {
  import opened Seqs
  import opened Domain
  import opened Sorting

  /** An entry of a drop-down: an id and the label shown for it. */
  datatype NamedOption = NamedOption(id: string, name: string)

  /** Catalogue entry of a subject as the faculty view caches it. */
  datatype SubjectInfo = SubjectInfo(name: string, code: string)

  /** `subjects[id]?.name || id`: the catalogue name, or the id itself when
      the subject is unknown or its name is empty. */
  function SubjectNameOr(subjects: map<string, SubjectInfo>, id: string): string {
    if id in subjects && subjects[id].name != "" then subjects[id].name else id
  }

  /** A subject drop-down entry; `code` is undefined for an unknown id. */
  datatype SubjectOption = SubjectOption(id: string, name: string, code: Option<string>)

  /** `names[id] || id`: the cached display name, or the id itself when the
      name is missing or empty. */
  function NameOr(names: map<string, string>, id: string): string {
    if id in names && names[id] != "" then names[id] else id
  }

  function OptionIds(options: seq<NamedOption>): (r: seq<string>)
    ensures |r| == |options|
  {
    Map(options, (o: NamedOption) => o.id)
  }

  function SubjectOptionIds(options: seq<SubjectOption>): (r: seq<string>)
    ensures |r| == |options|
  {
    Map(options, (o: SubjectOption) => o.id)
  }

  function Labelled(ids: seq<string>, names: map<string, string>): (r: seq<NamedOption>)
    ensures OptionIds(r) == ids
    ensures forall o :: o in r ==> o.name == NameOr(names, o.id)
  {
    var r := Map(ids, (id: string) => NamedOption(id, NameOr(names, id)));
    assert OptionIds(r) == ids;
    r
  }

  // ---------------------------------------------------------------------
  // Faculty side
  // ---------------------------------------------------------------------

  function InBranch(branchId: string): Assignment -> bool {
    (a: Assignment) => a.branchId == branchId
  }

  /** The literal class filter of the subject list: the selected branch and
      exactly the selected batch. */
  function InClass(branchId: string, batchId: string): Assignment -> bool {
    (a: Assignment) => a.branchId == branchId && a.batchId == batchId
  }

  function IsConcrete(): Assignment -> bool {
    (a: Assignment) => a.batchId != ALL
  }

  /** `availableBranches`: every branch named by some assignment, once. */
  function AvailableBranches(assignments: seq<Assignment>, branchNames: map<string, string>): (r: seq<NamedOption>)
    ensures NoDup(OptionIds(r))
    ensures forall id :: id in OptionIds(r) <==> exists a :: a in assignments && a.branchId == id
    ensures forall o :: o in r ==> o.name == NameOr(branchNames, o.id)
  {
    var ids := Distinct(Map(assignments, (a: Assignment) => a.branchId));
    forall id ensures id in ids <==> exists a :: a in assignments && a.branchId == id {
      MapMembers(assignments, (a: Assignment) => a.branchId, id);
    }
    Labelled(ids, branchNames)
  }

  /** `availableBatches` for the selected branch: the distinct batch ids of
      its assignments with the wildcard removed (not expanded). */
  function AvailableBatches(assignments: seq<Assignment>, branchId: string, batchNames: map<string, string>): (r: seq<NamedOption>)
    ensures NoDup(OptionIds(r))
    ensures ALL !in OptionIds(r)
    ensures forall id :: id in OptionIds(r) <==>
      id != ALL && exists a :: a in assignments && a.branchId == branchId && a.batchId == id
    ensures forall o :: o in r ==> o.name == NameOr(batchNames, o.id)
  {
    var rel := Filter(assignments, InBranch(branchId));
    var all := Distinct(Map(rel, (a: Assignment) => a.batchId));
    var ids := Filter(all, (id: string) => id != ALL);
    forall id ensures id in all <==> exists a :: a in assignments && a.branchId == branchId && a.batchId == id {
      MapMembers(rel, (a: Assignment) => a.batchId, id);
    }
    Labelled(ids, batchNames)
  }

  /** `availableSubjects` for the selected branch and batch. */
  function AvailableSubjects(
    assignments: seq<Assignment>, branchId: string, batchId: string,
    subjects: map<string, SubjectInfo>): (r: seq<SubjectOption>)
    ensures NoDup(SubjectOptionIds(r))
    ensures forall id :: id in SubjectOptionIds(r) <==>
      exists a :: a in assignments && a.branchId == branchId && a.batchId == batchId && a.subjectId == id
    ensures forall o :: o in r ==>
      && o.name == SubjectNameOr(subjects, o.id)
      && o.code == (if o.id in subjects then Some(subjects[o.id].code) else None)
  {
    var rel := Filter(assignments, InClass(branchId, batchId));
    var ids := Distinct(Map(rel, (a: Assignment) => a.subjectId));
    forall id ensures id in ids <==> exists a :: a in rel && a.subjectId == id {
      MapMembers(rel, (a: Assignment) => a.subjectId, id);
    }
    var r := Map(ids, (id: string) => SubjectOption(
      id,
      SubjectNameOr(subjects, id),
      if id in subjects then Some(subjects[id].code) else None));
    assert SubjectOptionIds(r) == ids;
    r
  }

  /** A branch whose only assignments use the wildcard offers no batch. */
  lemma WildcardOnlyBranchHasNoBatches(assignments: seq<Assignment>, branchId: string, batchNames: map<string, string>)
    requires forall a :: a in assignments && a.branchId == branchId ==> a.batchId == ALL
    ensures AvailableBatches(assignments, branchId, batchNames) == []
  {
    var ids := OptionIds(AvailableBatches(assignments, branchId, batchNames));
    forall x ensures multiset(ids)[x] == 0 {
      assert x !in ids;
    }
    assert multiset(ids) == multiset{};
  }

  /** For any batch other than the wildcard itself, removing every wildcard
      assignment leaves the subject list unchanged: a wildcard assignment
      never makes a subject selectable on the faculty side. */
  lemma WildcardNeverContributesSubjects(
    assignments: seq<Assignment>, branchId: string, batchId: string,
    subjects: map<string, SubjectInfo>)
    requires batchId != ALL
    ensures AvailableSubjects(assignments, branchId, batchId, subjects)
         == AvailableSubjects(Filter(assignments, IsConcrete()), branchId, batchId, subjects)
  {
    FilterNested(assignments, IsConcrete(), InClass(branchId, batchId));
  }

  /** A subject that only wildcard assignments name is never selectable on
      the faculty side, whichever batch is chosen: the batch picker never
      offers `ALL` (see `AvailableBatches`), and every other batch misses
      the wildcard assignments. */
  lemma WildcardOnlySubjectNotSelectable(
    assignments: seq<Assignment>, branchId: string,
    subjects: map<string, SubjectInfo>, subjectId: string, batchId: string)
    requires forall a :: a in assignments && a.subjectId == subjectId ==> a.batchId == ALL
    requires batchId != ALL
    ensures subjectId !in SubjectOptionIds(AvailableSubjects(assignments, branchId, batchId, subjects))
  {
  }

  // ---------------------------------------------------------------------
  // Student side
  // ---------------------------------------------------------------------

  /** The student-side class filter: the student's branch and either the
      student's batch or the wildcard. */
  predicate CoversStudent(a: Assignment, branchId: string, batchId: string) {
    a.branchId == branchId && (a.batchId == batchId || a.batchId == ALL)
  }

  /** Some assignment covering the placement names the subject. */
  predicate GrantedToStudent(assignments: seq<Assignment>, branchId: string, batchId: string, subjectId: string) {
    exists a :: a in assignments && CoversStudent(a, branchId, batchId) && a.subjectId == subjectId
  }

  /** The subject ids granted to a placement by some assignment. */
  function StudentSubjectIds(assignments: seq<Assignment>, branchId: string, batchId: string): set<string> {
    set a | a in assignments && CoversStudent(a, branchId, batchId) :: a.subjectId
  }

  function SubjectName(s: Subject): string {
    s.name
  }

  /** A student with a placement: both ids present and non-empty. */
  predicate HasPlacement(user: User) {
    user.studentData.Some? && user.studentData.value.branchId != "" && user.studentData.value.batchId != ""
  }

  /** The subjects among `ids` that carry the name `name`. */
  function ShownNamed(ids: set<string>, name: string): Subject -> bool {
    (s: Subject) => s.id in ids && SubjectName(s) == name
  }

  /** The student dashboard's subject list. `None` is the early return that
      happens before any assignment lookup when the placement is missing;
      the view then shows no subject. */
  function VisibleSubjects(user: User, assignments: seq<Assignment>, catalogue: seq<Subject>): (r: Option<seq<Subject>>)
    ensures r.None? <==> !HasPlacement(user)
    ensures r.Some? ==> forall s :: s in r.value <==>
      s in catalogue && GrantedToStudent(assignments, user.studentData.value.branchId, user.studentData.value.batchId, s.id)
    ensures r.Some? ==> forall s :: (multiset(r.value)[s] ==
      if s.id in StudentSubjectIds(assignments, user.studentData.value.branchId, user.studentData.value.batchId)
      then multiset(catalogue)[s] else 0)
    ensures r.Some? ==> SortedBy(r.value, SubjectName)
    ensures r.Some? ==> forall e ::
      Filter(r.value, SameKey(SubjectName, e)) == Filter(catalogue, ShownNamed(StudentSubjectIds(assignments, user.studentData.value.branchId, user.studentData.value.batchId), SubjectName(e)))
  {
    if !HasPlacement(user) then None
    else
      var d := user.studentData.value;
      var ids := StudentSubjectIds(assignments, d.branchId, d.batchId);
      var shown := Filter(catalogue, (s: Subject) => s.id in ids);
      var sorted := SortBy(shown, SubjectName);
      assert forall s :: multiset(sorted)[s] == if s.id in ids then multiset(catalogue)[s] else 0 by {
        forall s ensures multiset(sorted)[s] == if s.id in ids then multiset(catalogue)[s] else 0 {
          FilterMultiset(catalogue, (s: Subject) => s.id in ids, s);
        }
      }
      assert forall s :: s in sorted <==> s in shown by {
        forall s ensures s in sorted <==> s in shown {
          SortByMembers(shown, SubjectName, s);
        }
      }
      forall e ensures Filter(sorted, SameKey(SubjectName, e)) == Filter(catalogue, ShownNamed(ids, SubjectName(e))) {
        FilterConj(catalogue, (s: Subject) => s.id in ids, SameKey(SubjectName, e), ShownNamed(ids, SubjectName(e)));
      }
      Some(sorted)
  }

  /** A subject that a covering assignment names is shown, whatever batch
      the assignment uses. */
  lemma StudentSeesGrantedSubject(user: User, assignments: seq<Assignment>, catalogue: seq<Subject>, a: Assignment, s: Subject)
    requires HasPlacement(user)
    requires a in assignments && CoversStudent(a, user.studentData.value.branchId, user.studentData.value.batchId)
    requires s in catalogue && a.subjectId == s.id
    ensures VisibleSubjects(user, assignments, catalogue).Some?
    ensures s in VisibleSubjects(user, assignments, catalogue).value
  {
  }
}
