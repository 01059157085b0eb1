/** Sequence helpers shared by every part of the model: the `Array.filter`,
    `.filter(..).length` and `Array.from(new Set(..))` idioms of the views. */
module Seqs {

  /** No element occurs twice. */
  predicate NoDup<T(==)>(s: seq<T>) {
    forall i, j :: 0 <= i < j < |s| ==> s[i] != s[j]
  }

  /** No element occurs twice exactly when every multiplicity is at most one. */
  lemma {:induction false} NoDupMultiset<T>(s: seq<T>)
    ensures NoDup(s) <==> forall x :: multiset(s)[x] <= 1
  {
    if |s| == 0 {
    } else {
      NoDupMultiset(s[1..]);
      assert s == [s[0]] + s[1..];
      if NoDup(s) {
        assert NoDup(s[1..]);
        assert s[0] !in s[1..];
      }
      if forall x :: multiset(s)[x] <= 1 {
        assert forall x :: multiset(s[1..])[x] <= multiset(s)[x];
        assert s[0] !in multiset(s[1..]);
        forall i, j | 0 <= i < j < |s| ensures s[i] != s[j] {
          if i == 0 {
            assert s[j] in s[1..];
          } else {
            assert s[i] == s[1..][i - 1] && s[j] == s[1..][j - 1];
          }
        }
      }
    }
  }

  /** Permutations agree on having no duplicate. */
  lemma NoDupPermutation<T>(a: seq<T>, b: seq<T>)
    requires multiset(a) == multiset(b)
    requires NoDup(a)
    ensures NoDup(b)
  {
    NoDupMultiset(a);
    NoDupMultiset(b);
  }

  /** The set of values of a sequence. */
  function Elements<T>(s: seq<T>): set<T> {
    set x | x in s
  }

  /** A duplicate-free sequence has as many values as positions. */
  lemma {:induction false} NoDupCardinality<T>(s: seq<T>)
    requires NoDup(s)
    ensures |Elements(s)| == |s|
  {
    if |s| > 0 {
      var n := |s| - 1;
      var t := s[..n];
      assert NoDup(t) by {
        forall i, j | 0 <= i < j < |t| ensures t[i] != t[j] {
          assert t[i] == s[i] && t[j] == s[j];
        }
      }
      NoDupCardinality(t);
      assert s == t + [s[n]];
      assert Elements(s) == Elements(t) + {s[n]};
      assert s[n] !in Elements(t) by {
        forall i | 0 <= i < n ensures t[i] != s[n] {
          assert s[i] != s[n];
        }
      }
    }
  }

  /** Dropping the head of a duplicate-free sequence leaves one without the
      head. */
  lemma NoDupTail<T>(s: seq<T>)
    requires NoDup(s) && |s| > 0
    ensures NoDup(s[1..]) && s[0] !in s[1..]
  {
    forall i, j | 0 <= i < j < |s| - 1 ensures s[1..][i] != s[1..][j] {
      assert s[i + 1] != s[j + 1];
    }
    forall j | 0 <= j < |s| - 1 ensures s[1..][j] != s[0] {
      assert s[0] != s[j + 1];
    }
  }

  lemma NoDupAppend<T>(a: seq<T>, b: seq<T>)
    requires NoDup(a) && NoDup(b)
    requires forall x :: x in a ==> x !in b
    ensures NoDup(a + b)
  {
    forall i, j | 0 <= i < j < |a + b| ensures (a + b)[i] != (a + b)[j] {
      if j < |a| {
      } else if i >= |a| {
        assert (a + b)[i] == b[i - |a|] && (a + b)[j] == b[j - |a|];
      } else {
        assert (a + b)[i] in a && (a + b)[j] in b;
      }
    }
  }

  /** `s.filter(p)`: the elements satisfying `p`, in their original order. */
  function Filter<T(!new)>(s: seq<T>, p: T -> bool): (r: seq<T>)
    ensures |r| <= |s|
    ensures forall x :: x in r <==> x in s && p(x)
    ensures multiset(r) <= multiset(s)
    ensures NoDup(s) ==> NoDup(r)
  {
    if |s| == 0 then []
    else
      assert s == [s[0]] + s[1..];
      assert NoDup(s) ==> s[0] !in s[1..];
      (if p(s[0]) then [s[0]] else []) + Filter(s[1..], p)
  }

  lemma FilterCons<T(!new)>(h: T, t: seq<T>, p: T -> bool)
    ensures Filter([h] + t, p) == (if p(h) then [h] else []) + Filter(t, p)
  {
    assert ([h] + t)[0] == h && ([h] + t)[1..] == t;
  }

  /** `s.filter(p).length`. */
  function Count<T(!new)>(s: seq<T>, p: T -> bool): nat {
    |Filter(s, p)|
  }

  lemma CountCons<T(!new)>(s: seq<T>, p: T -> bool)
    requires |s| > 0
    ensures Count(s, p) == (if p(s[0]) then 1 else 0) + Count(s[1..], p)
  {
  }

  lemma {:induction false} FilterNone<T(!new)>(s: seq<T>, p: T -> bool)
    requires forall i :: 0 <= i < |s| ==> !p(s[i])
    ensures Filter(s, p) == []
  {
    if |s| > 0 {
      FilterNone(s[1..], p);
    }
  }

  lemma {:induction false} FilterAppend<T(!new)>(a: seq<T>, b: seq<T>, p: T -> bool)
    ensures Filter(a + b, p) == Filter(a, p) + Filter(b, p)
  {
    if |a| == 0 {
      assert a + b == b;
    } else {
      assert (a + b)[1..] == a[1..] + b;
      FilterAppend(a[1..], b, p);
    }
  }

  /** Filtering keeps exactly the satisfying copies of every element. */
  lemma {:induction false} FilterMultiset<T(!new)>(s: seq<T>, p: T -> bool, x: T)
    ensures multiset(Filter(s, p))[x] == if p(x) then multiset(s)[x] else 0
  {
    if |s| == 0 {
    } else {
      FilterMultiset(s[1..], p, x);
      assert s == [s[0]] + s[1..];
    }
  }

  /** Filtering two permutations of each other yields permutations of each
      other, so every count taken through `Filter` ignores input order. */
  lemma FilterPermutation<T(!new)>(a: seq<T>, b: seq<T>, p: T -> bool)
    requires multiset(a) == multiset(b)
    ensures multiset(Filter(a, p)) == multiset(Filter(b, p))
    ensures Count(a, p) == Count(b, p)
  {
    forall x
      ensures multiset(Filter(a, p))[x] == multiset(Filter(b, p))[x]
    {
      FilterMultiset(a, p, x);
      FilterMultiset(b, p, x);
    }
    assert multiset(Filter(a, p)) == multiset(Filter(b, p));
    assert |multiset(Filter(a, p))| == |multiset(Filter(b, p))|;
  }

  /** A filter whose predicate implies an earlier filter's predicate sees
      through the earlier filter. */
  lemma {:induction false} FilterNested<T(!new)>(s: seq<T>, p: T -> bool, q: T -> bool)
    requires forall x :: q(x) ==> p(x)
    ensures Filter(Filter(s, p), q) == Filter(s, q)
  {
    if |s| == 0 {
    } else {
      FilterNested(s[1..], p, q);
      var head := if p(s[0]) then [s[0]] else [];
      FilterAppend(head, Filter(s[1..], p), q);
      if p(s[0]) {
        assert Filter(head, q) == (if q(s[0]) then [s[0]] else []) + Filter(head[1..], q);
      }
    }
  }

  /** Filtering by `p` and then by `q` is filtering by their conjunction. */
  lemma {:induction false} FilterConj<T(!new)>(s: seq<T>, p: T -> bool, q: T -> bool, pq: T -> bool)
    requires forall x :: pq(x) == (p(x) && q(x))
    ensures Filter(Filter(s, p), q) == Filter(s, pq)
  {
    if |s| > 0 {
      FilterConj(s[1..], p, q, pq);
      var head := if p(s[0]) then [s[0]] else [];
      FilterAppend(head, Filter(s[1..], p), q);
      if p(s[0]) {
        assert Filter(head, q) == (if q(s[0]) then [s[0]] else []) + Filter(head[1..], q);
      }
    }
  }

  /** Filters whose predicates agree on the sequence give the same result. */
  lemma {:induction false} FilterSame<T(!new)>(s: seq<T>, p: T -> bool, q: T -> bool)
    requires forall i :: 0 <= i < |s| ==> p(s[i]) == q(s[i])
    ensures Filter(s, p) == Filter(s, q)
  {
    if |s| > 0 {
      FilterSame(s[1..], p, q);
    }
  }

  /** Some occurrence of `x` stands before some occurrence of `y`. */
  ghost predicate Before<T>(s: seq<T>, x: T, y: T) {
    exists i, j :: 0 <= i < j < |s| && s[i] == x && s[j] == y
  }

  lemma BeforeCons<T>(h: T, t: seq<T>, x: T, y: T)
    requires Before(t, x, y)
    ensures Before([h] + t, x, y)
  {
    var i, j :| 0 <= i < j < |t| && t[i] == x && t[j] == y;
    assert ([h] + t)[i + 1] == x && ([h] + t)[j + 1] == y;
  }

  lemma HeadBefore<T>(h: T, t: seq<T>, y: T)
    requires y in t
    ensures Before([h] + t, h, y)
  {
    var j :| 0 <= j < |t| && t[j] == y;
    assert ([h] + t)[0] == h && ([h] + t)[j + 1] == y;
  }

  /** Filtering keeps the relative order of the elements it keeps. */
  lemma {:induction false} FilterKeepsBefore<T(!new)>(s: seq<T>, p: T -> bool, x: T, y: T)
    requires Before(s, x, y) && p(x) && p(y)
    ensures Before(Filter(s, p), x, y)
  {
    var i, j :| 0 <= i < j < |s| && s[i] == x && s[j] == y;
    var t := s[1..];
    assert Filter(s, p) == (if p(s[0]) then [s[0]] else []) + Filter(t, p);
    if i == 0 {
      assert y == t[j - 1];
      HeadBefore(x, Filter(t, p), y);
    } else {
      assert t[i - 1] == x && t[j - 1] == y;
      FilterKeepsBefore(t, p, x, y);
      if p(s[0]) {
        BeforeCons(s[0], Filter(t, p), x, y);
      } else {
        assert Filter(s, p) == Filter(t, p);
      }
    }
  }

  /** An order in `[h] + t` starts at the head or lies within `t`. */
  lemma BeforeUncons<T>(h: T, t: seq<T>, x: T, y: T)
    requires Before([h] + t, x, y)
    ensures |t| > 0
    ensures (x == h && y in t) || Before(t, x, y)
  {
    var i, j :| 0 <= i < j < |t| + 1 && ([h] + t)[i] == x && ([h] + t)[j] == y;
    assert y == t[j - 1];
    if i > 0 {
      assert t[i - 1] == x;
    }
  }

  /** Elements in order after filtering were in that order before. */
  lemma {:induction false} FilterBeforeBack<T(!new)>(s: seq<T>, p: T -> bool, x: T, y: T)
    requires Before(Filter(s, p), x, y)
    ensures Before(s, x, y)
  {
    var f := Filter(s, p);
    assert |f| > 0;
    var t := s[1..];
    assert s == [s[0]] + t;
    if p(s[0]) {
      assert f == [s[0]] + Filter(t, p);
      BeforeUncons(s[0], Filter(t, p), x, y);
      if x == s[0] && y in Filter(t, p) {
        HeadBefore(s[0], t, y);
      } else {
        FilterBeforeBack(t, p, x, y);
        BeforeCons(s[0], t, x, y);
      }
    } else {
      assert f == Filter(t, p);
      FilterBeforeBack(t, p, x, y);
      BeforeCons(s[0], t, x, y);
    }
  }

  /** `Array.from(new Set(s))`: every value once, in order of first occurrence. */
  function Distinct<T(==,!new)>(s: seq<T>): (r: seq<T>)
    ensures forall x :: x in r <==> x in s
    ensures NoDup(r)
    ensures |r| <= |s|
    decreases |s|
  {
    if |s| == 0 then []
    else
      var d := Distinct(s[..|s| - 1]);
      var last := s[|s| - 1];
      assert forall x :: x in s <==> x in s[..|s| - 1] || x == last by {
        assert s == s[..|s| - 1] + [last];
      }
      if last in d then d else d + [last]
  }

  /** Position of the first occurrence of `x` in `s`. */
  function IndexOf<T(==)>(s: seq<T>, x: T): (k: nat)
    requires x in s
    ensures k < |s| && s[k] == x
    ensures forall j :: 0 <= j < k ==> s[j] != x
  {
    if s[0] == x then 0
    else
      var k := IndexOf(s[1..], x);
      assert forall j :: 0 <= j < k ==> s[1..][j] == s[j + 1];
      1 + k
  }

  /** A value of a prefix is first found at the same position in the whole
      sequence. */
  lemma IndexOfPrefix<T>(s: seq<T>, n: nat, x: T)
    requires n <= |s| && x in s[..n]
    ensures x in s && IndexOf(s, x) == IndexOf(s[..n], x)
  {
    var k := IndexOf(s[..n], x);
    assert s[k] == x;
    forall j | 0 <= j < k ensures s[j] != x {
      assert s[..n][j] == s[j];
    }
  }

  /** `Distinct` lists the values in the order in which each first occurs. */
  lemma {:induction false} DistinctInFirstOccurrenceOrder<T(!new)>(s: seq<T>)
    ensures forall i, j :: 0 <= i < j < |Distinct(s)| ==> IndexOf(s, Distinct(s)[i]) < IndexOf(s, Distinct(s)[j])
  {
    if |s| > 0 {
      var n := |s| - 1;
      var p := s[..n];
      var d := Distinct(p);
      var last := s[n];
      DistinctInFirstOccurrenceOrder(p);
      forall i | 0 <= i < |d| ensures d[i] in s && IndexOf(s, d[i]) == IndexOf(p, d[i]) < n {
        assert d[i] in d;
        IndexOfPrefix(s, n, d[i]);
      }
      if last in d {
        assert Distinct(s) == d;
      } else {
        assert last !in p;
        assert IndexOf(s, last) == n;
        assert Distinct(s) == d + [last];
      }
    }
  }

  /** `s.map(f)`. */
  function Map<T, U>(s: seq<T>, f: T -> U): (r: seq<U>)
    ensures |r| == |s|
    ensures forall i :: 0 <= i < |s| ==> r[i] == f(s[i])
  {
    seq(|s|, i requires 0 <= i < |s| => f(s[i]))
  }

  lemma MapMembers<T, U>(s: seq<T>, f: T -> U, y: U)
    ensures y in Map(s, f) <==> exists x :: x in s && f(x) == y
  {
    if exists x :: x in s && f(x) == y {
      var x :| x in s && f(x) == y;
      var i :| 0 <= i < |s| && s[i] == x;
      assert Map(s, f)[i] == y;
    }
  }
}
