/** The class roster the faculty dashboard shows after a class is selected
    (views/Faculty.tsx, student loading effect): duplicates by uid removed,
    then ordered by roll number with a missing roll number read as the
    empty string. */
module Roster {
  import opened Seqs
  import opened Text
  import opened Domain
  import opened Sorting

  /** `a.studentData?.rollNo || ''`. */
  function RollKey(u: User): string {
    if u.studentData.Some? && u.studentData.value.rollNo.Some? then u.studentData.value.rollNo.value else ""
  }

  /** Index of the last row carrying `uid`. */
  function LastIndexOf(data: seq<User>, uid: string): (k: nat)
    requires uid in Uids(data)
    ensures k < |data| && data[k].uid == uid
    ensures forall j :: k < j < |data| ==> data[j].uid != uid
  {
    var n := |data| - 1;
    if data[n].uid == uid then n
    else
      assert Uids(data) == Uids(data[..n]) + [data[n].uid];
      LastIndexOf(data[..n], uid)
  }

  /** `x` is the last row of `data` with its uid: a JavaScript `Map` keeps
      the value of the latest `set` for a key. */
  ghost predicate IsLatestEntry(data: seq<User>, x: User) {
    exists k :: 0 <= k < |data| && data[k] == x && forall j :: k < j < |data| ==> data[j].uid != x.uid
  }

  lemma LatestEntryUnique(data: seq<User>, x: User, y: User)
    requires IsLatestEntry(data, x) && IsLatestEntry(data, y) && x.uid == y.uid
    ensures x == y
  {
    var kx :| 0 <= kx < |data| && data[kx] == x && forall j :: kx < j < |data| ==> data[j].uid != x.uid;
    var ky :| 0 <= ky < |data| && data[ky] == y && forall j :: ky < j < |data| ==> data[j].uid != y.uid;
    assert kx == ky;
  }

  /** `Array.from(new Map(data.map(s => [s.uid, s])).values())`: one row per
      uid, in order of the uid's first appearance, holding its last row. */
  function DedupByUid(data: seq<User>): (r: seq<User>)
    ensures Uids(r) == Distinct(Uids(data))
    ensures forall x :: x in r ==> IsLatestEntry(data, x)
  {
    var keys := Distinct(Uids(data));
    var r := seq(|keys|, i requires 0 <= i < |keys| => data[LastIndexOf(data, keys[i])]);
    assert Uids(r) == keys;
    r
  }

  /** The deduplicated rows follow the order in which each uid first
      appears in the fetched data, as a JavaScript `Map` keeps its keys. */
  lemma DedupKeepsFirstAppearanceOrder(data: seq<User>, i: nat, j: nat)
    requires i < j < |DedupByUid(data)|
    ensures DedupByUid(data)[i].uid in Uids(data) && DedupByUid(data)[j].uid in Uids(data)
    ensures IndexOf(Uids(data), DedupByUid(data)[i].uid) < IndexOf(Uids(data), DedupByUid(data)[j].uid)
  {
    var d := Distinct(Uids(data));
    DistinctInFirstOccurrenceOrder(Uids(data));
    assert Uids(DedupByUid(data))[i] == d[i] && Uids(DedupByUid(data))[j] == d[j];
    assert d[i] in d && d[j] in d;
  }

  /** The roster as the view stores it: deduplicated, then stably sorted by
      roll number. */
  function LoadRoster(data: seq<User>): (r: seq<User>)
    ensures NoDup(Uids(r))
    ensures forall uid :: uid in Uids(r) <==> uid in Uids(data)
    ensures forall x :: x in r ==> IsLatestEntry(data, x)
    ensures SortedBy(r, RollKey)
    ensures forall e :: Filter(r, SameKey(RollKey, e)) == Filter(DedupByUid(data), SameKey(RollKey, e))
  {
    var d := DedupByUid(data);
    var r := SortBy(d, RollKey);
    assert NoDup(d) by {
      forall i, j | 0 <= i < j < |d| ensures d[i] != d[j] {
        assert Uids(d)[i] != Uids(d)[j];
      }
    }
    forall x | x in r ensures x in d && IsLatestEntry(data, x) {
      SortByMembers(d, RollKey, x);
    }
    forall i, j | 0 <= i < j < |r| ensures Uids(r)[i] != Uids(r)[j] {
      if r[i].uid == r[j].uid {
        LatestEntryUnique(data, r[i], r[j]);
      }
    }
    forall uid ensures uid in Uids(r) <==> uid in Uids(data) {
      UidsMembers(r, uid);
      UidsMembers(d, uid);
      forall x ensures x in r <==> x in d {
        SortByMembers(d, RollKey, x);
      }
    }
    r
  }

  /** Students with the same roll key appear in the order in which their
      uids first appear in the fetched data. */
  lemma RosterTiesKeepFirstAppearance(data: seq<User>, i: nat, j: nat)
    requires i < j < |LoadRoster(data)|
    requires RollKey(LoadRoster(data)[i]) == RollKey(LoadRoster(data)[j])
    ensures LoadRoster(data)[i].uid in Uids(data) && LoadRoster(data)[j].uid in Uids(data)
    ensures IndexOf(Uids(data), LoadRoster(data)[i].uid) < IndexOf(Uids(data), LoadRoster(data)[j].uid)
  {
    var r := LoadRoster(data);
    var d := DedupByUid(data);
    var tie := SameKey(RollKey, r[i]);
    assert Before(r, r[i], r[j]);
    FilterKeepsBefore(r, tie, r[i], r[j]);
    FilterBeforeBack(d, tie, r[i], r[j]);
    var a, b :| 0 <= a < b < |d| && d[a] == r[i] && d[b] == r[j];
    DedupKeepsFirstAppearanceOrder(data, a, b);
  }

  /** Students without a roll number sort before every student with one. */
  lemma MissingRollSortsFirst(data: seq<User>, i: nat, j: nat)
    requires i < |LoadRoster(data)| && j < |LoadRoster(data)|
    requires RollKey(LoadRoster(data)[j]) == "" && RollKey(LoadRoster(data)[i]) != ""
    ensures j < i
  {
    var r := LoadRoster(data);
    assert SortedBy(r, RollKey);
    assert !LexLe(RollKey(r[i]), RollKey(r[j]));
    assert i != j;
  }
}
