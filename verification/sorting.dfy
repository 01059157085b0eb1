/** `Array.prototype.sort` with a comparator. ECMAScript requires the sort
    to be stable, so for a comparator that is a total preorder any
    conforming sort gives the same answer as this stable insertion sort.
    The views use two comparators: `localeCompare` on a string key (the
    roster and the student's subject list) and newest timestamp first (the
    CSV export). */
module Sorting {
  import opened Text
  import opened Seqs

  /** `le(a, b)`: `a` may stand before `b`. */
  ghost predicate Ordered<T>(s: seq<T>, le: (T, T) -> bool) {
    forall i, j :: 0 <= i < j < |s| ==> le(s[i], s[j])
  }

  /** Every two elements are comparable, and the comparison chains. */
  ghost predicate TotalPreorder<T(!new)>(le: (T, T) -> bool) {
    && (forall a, b :: le(a, b) || le(b, a))
    && (forall a, b, c :: le(a, b) && le(b, c) ==> le(a, c))
  }

  /** A head that may stand before every later element extends an ordered
      sequence. */
  lemma OrderedCons<T>(h: T, t: seq<T>, le: (T, T) -> bool)
    requires Ordered(t, le)
    requires forall j :: 0 <= j < |t| ==> le(h, t[j])
    ensures Ordered([h] + t, le)
  {
    forall i, j | 0 <= i < j < |t| + 1 ensures le(([h] + t)[i], ([h] + t)[j]) {
      if i > 0 {
        assert ([h] + t)[i] == t[i - 1];
      }
      assert ([h] + t)[j] == t[j - 1];
    }
  }

  /** When `x` goes after the head of ordered `s`, the head may stand before
      every element of the insertion into the tail. */
  lemma HeadBeforeInsertion<T>(x: T, s: seq<T>, le: (T, T) -> bool, rest: seq<T>)
    requires |s| > 0 && Ordered(s, le) && le(s[0], x)
    requires multiset(rest) == multiset(s[1..]) + multiset{x}
    ensures forall j :: 0 <= j < |rest| ==> le(s[0], rest[j])
  {
    forall j | 0 <= j < |rest| ensures le(s[0], rest[j]) {
      assert rest[j] in multiset(rest);
      if rest[j] != x {
        assert rest[j] in multiset(s[1..]);
        var k :| 0 <= k < |s[1..]| && s[1..][k] == rest[j];
        assert s[k + 1] == rest[j];
      }
    }
  }

  /** Places `x` before the first element it may stand before, so that
      among equivalent elements `x` comes first. */
  function Insert<T(==,!new)>(x: T, s: seq<T>, le: (T, T) -> bool): (r: seq<T>)
    ensures multiset(r) == multiset(s) + multiset{x}
    ensures TotalPreorder(le) && Ordered(s, le) ==> Ordered(r, le)
  {
    if |s| == 0 then [x]
    else if le(x, s[0]) then
      assert TotalPreorder(le) && Ordered(s, le) ==> Ordered([x] + s, le) by {
        if TotalPreorder(le) && Ordered(s, le) {
          forall j | 0 < j < |s| ensures le(x, s[j]) {
            assert le(s[0], s[j]);
          }
          OrderedCons(x, s, le);
        }
      }
      assert s == [s[0]] + s[1..];
      [x] + s
    else
      var rest := Insert(x, s[1..], le);
      assert s == [s[0]] + s[1..];
      assert TotalPreorder(le) && Ordered(s, le) ==> Ordered([s[0]] + rest, le) by {
        if TotalPreorder(le) && Ordered(s, le) {
          assert le(s[0], x);
          HeadBeforeInsertion(x, s, le, rest);
          OrderedCons(s[0], rest, le);
        }
      }
      [s[0]] + rest
  }

  /** The elements `le` ranks level with `e`. */
  function Equiv<T>(le: (T, T) -> bool, e: T): T -> bool {
    x => le(x, e) && le(e, x)
  }

  /** Two elements level with the same `e` may stand in either order. */
  lemma EquivChain<T(!new)>(le: (T, T) -> bool, e: T, a: T, b: T)
    requires TotalPreorder(le)
    ensures Equiv(le, e)(a) && Equiv(le, e)(b) ==> le(a, b)
  {
    if le(a, e) && le(e, b) {
      assert le(a, b);
    }
  }

  /** Two heads that are not both kept may trade places under a filter. */
  lemma FilterSwap<T(!new)>(a: T, b: T, s: seq<T>, p: T -> bool)
    requires !(p(a) && p(b))
    ensures Filter([a] + ([b] + s), p) == Filter([b] + ([a] + s), p)
  {
    FilterCons(a, [b] + s, p);
    FilterCons(b, s, p);
    FilterCons(b, [a] + s, p);
    FilterCons(a, s, p);
    if p(a) {
      assert Filter([b] + s, p) == Filter(s, p);
      assert Filter([b] + ([a] + s), p) == Filter([a] + s, p);
    } else if p(b) {
      assert Filter([a] + s, p) == Filter(s, p);
      assert Filter([a] + ([b] + s), p) == Filter([b] + s, p);
    }
  }

  /** One step of `InsertFilter`: `x` passes a head `h` that is not kept
      together with it. */
  lemma FilterPastHead<T(!new)>(x: T, h: T, rest: seq<T>, t: seq<T>, p: T -> bool)
    requires Filter(rest, p) == Filter([x] + t, p)
    requires !(p(x) && p(h))
    ensures Filter([h] + rest, p) == Filter([x] + ([h] + t), p)
  {
    FilterCons(h, rest, p);
    FilterCons(h, [x] + t, p);
    FilterSwap(h, x, t, p);
  }

  /** Under the elements level with `e`, inserting `x` filters as putting
      `x` in front: `x` goes ahead of every element level with it, and
      their order is kept. */
  lemma {:induction false} InsertFilter<T(!new)>(x: T, t: seq<T>, le: (T, T) -> bool, e: T)
    requires TotalPreorder(le)
    ensures Filter(Insert(x, t, le), Equiv(le, e)) == Filter([x] + t, Equiv(le, e))
  {
    if |t| == 0 || le(x, t[0]) {
      assert Insert(x, t, le) == [x] + t;
    } else {
      var tail := t[1..];
      assert t == [t[0]] + tail;
      InsertFilter(x, tail, le, e);
      EquivChain(le, e, x, t[0]);
      FilterPastHead(x, t[0], Insert(x, tail, le), tail, Equiv(le, e));
    }
  }

  /** The stable sort of `s` by `le`: a permutation of `s`, ordered whenever
      `le` is a total preorder, and then keeping the input order among
      elements it ranks level. */
  function Sort<T(==,!new)>(s: seq<T>, le: (T, T) -> bool): (r: seq<T>)
    ensures multiset(r) == multiset(s)
    ensures |r| == |s|
    ensures TotalPreorder(le) ==> Ordered(r, le)
    ensures NoDup(s) ==> NoDup(r)
    ensures TotalPreorder(le) ==> forall e :: Filter(r, Equiv(le, e)) == Filter(s, Equiv(le, e))
  {
    if |s| == 0 then []
    else
      assert s == [s[0]] + s[1..];
      var sorted := Sort(s[1..], le);
      var r := Insert(s[0], sorted, le);
      assert |r| == |multiset(r)|;
      assert NoDup(s) ==> NoDup(r) by {
        if NoDup(s) {
          NoDupPermutation(s, r);
        }
      }
      assert TotalPreorder(le) ==> forall e :: Filter(r, Equiv(le, e)) == Filter(s, Equiv(le, e)) by {
        if TotalPreorder(le) {
          forall e ensures Filter(r, Equiv(le, e)) == Filter(s, Equiv(le, e)) {
            InsertFilter(s[0], sorted, le, e);
            FilterCons(s[0], sorted, Equiv(le, e));
            FilterCons(s[0], s[1..], Equiv(le, e));
          }
        }
      }
      r
  }

  /** Sorting keeps exactly the elements it was given. */
  lemma SortMembers<T(!new)>(s: seq<T>, le: (T, T) -> bool, x: T)
    ensures x in Sort(s, le) <==> x in s
  {
    assert x in Sort(s, le) <==> x in multiset(Sort(s, le));
    assert x in s <==> x in multiset(s);
  }

  // ---------------------------------------------------------------------
  // `(a, b) => key(a).localeCompare(key(b))`
  // ---------------------------------------------------------------------

  function KeyLe<T>(key: T -> string): (T, T) -> bool {
    (a: T, b: T) => LexLe(key(a), key(b))
  }

  /** Non-decreasing by `key` under `LexLe`. */
  ghost predicate SortedBy<T>(s: seq<T>, key: T -> string) {
    forall i, j :: 0 <= i < j < |s| ==> LexLe(key(s[i]), key(s[j]))
  }

  /** Comparing keys with `LexLe` is a total preorder. */
  lemma KeyLeTotalPreorder<T(!new)>(key: T -> string)
    ensures TotalPreorder(KeyLe(key))
  {
    forall a, b ensures KeyLe(key)(a, b) || KeyLe(key)(b, a) {
      LexLeTotal(key(a), key(b));
    }
    forall a, b, c | KeyLe(key)(a, b) && KeyLe(key)(b, c) ensures KeyLe(key)(a, c) {
      LexLeTransitive(key(a), key(b), key(c));
    }
  }

  /** The elements whose key equals that of `e`. */
  function SameKey<T>(key: T -> string, e: T): T -> bool {
    x => key(x) == key(e)
  }

  /** Under `KeyLe`, being level with `e` is having its key. */
  lemma KeyLeEquiv<T(!new)>(key: T -> string, e: T, s: seq<T>)
    ensures Filter(s, Equiv(KeyLe(key), e)) == Filter(s, SameKey(key, e))
  {
    forall i | 0 <= i < |s| ensures Equiv(KeyLe(key), e)(s[i]) == SameKey(key, e)(s[i]) {
      LexLeTotal(key(e), key(e));
      if LexLe(key(s[i]), key(e)) && LexLe(key(e), key(s[i])) {
        LexLeAntisymmetric(key(s[i]), key(e));
      }
    }
    FilterSame(s, Equiv(KeyLe(key), e), SameKey(key, e));
  }

  /** The stable sort of `s` by `key` under `localeCompare`: elements with
      equal keys keep their input order. */
  function SortBy<T(==,!new)>(s: seq<T>, key: T -> string): (r: seq<T>)
    ensures multiset(r) == multiset(s)
    ensures |r| == |s|
    ensures SortedBy(r, key)
    ensures NoDup(s) ==> NoDup(r)
    ensures forall e :: Filter(r, SameKey(key, e)) == Filter(s, SameKey(key, e))
  {
    KeyLeTotalPreorder(key);
    var r := Sort(s, KeyLe(key));
    assert SortedBy(r, key) by {
      forall i, j | 0 <= i < j < |r| ensures LexLe(key(r[i]), key(r[j])) {
        assert KeyLe(key)(r[i], r[j]);
      }
    }
    forall e ensures Filter(r, SameKey(key, e)) == Filter(s, SameKey(key, e)) {
      KeyLeEquiv(key, e, r);
      KeyLeEquiv(key, e, s);
    }
    r
  }

  /** Sorting by a key keeps exactly the elements it was given. */
  lemma SortByMembers<T(!new)>(s: seq<T>, key: T -> string, x: T)
    ensures x in SortBy(s, key) <==> x in s
  {
    SortMembers(s, KeyLe(key), x);
  }
}
