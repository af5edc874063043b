/**
 The stable sort every component relies on.  Python's `list.sort` and `sorted` are stable and total on the
 keys used here; an insertion sort has the same results, so it serves as their specification.
 */
module Sorting {

  ghost predicate TotalPreorder<T(!new)>(le: (T, T) -> bool) {
    && (forall x, y :: le(x, y) || le(y, x))
    && (forall x, y, z :: le(x, y) && le(y, z) ==> le(x, z))
  }

  ghost predicate SortedBy<T>(s: seq<T>, le: (T, T) -> bool) {
    forall i, j :: 0 <= i < j < |s| ==> le(s[i], s[j])
  }

  function Insert<T>(x: T, s: seq<T>, le: (T, T) -> bool): seq<T> {
    if s == [] || le(x, s[0]) then [x] + s else [s[0]] + Insert(x, s[1..], le)
  }

  function Sort<T>(s: seq<T>, le: (T, T) -> bool): seq<T> {
    if s == [] then [] else Insert(s[0], Sort(s[1..], le), le)
  }

  function Filter<T>(s: seq<T>, keep: T -> bool): seq<T> {
    if s == [] then [] else (if keep(s[0]) then [s[0]] else []) + Filter(s[1..], keep)
  }

  lemma {:induction false} InsertPermutes<T>(x: T, s: seq<T>, le: (T, T) -> bool)
    ensures multiset(Insert(x, s, le)) == multiset{x} + multiset(s)
  {
    if !(s == [] || le(x, s[0])) {
      InsertPermutes(x, s[1..], le);
      assert s == [s[0]] + s[1..];
    }
  }

  lemma {:induction false} SortPermutes<T>(s: seq<T>, le: (T, T) -> bool)
    ensures multiset(Sort(s, le)) == multiset(s)
    ensures |Sort(s, le)| == |s|
  {
    if s == [] {
    } else {
      SortPermutes(s[1..], le);
      InsertPermutes(s[0], Sort(s[1..], le), le);
      assert s == [s[0]] + s[1..];
    }
    assert |multiset(Sort(s, le))| == |Sort(s, le)|;
    assert |multiset(s)| == |s|;
  }

  lemma SortKeepsMembers<T>(s: seq<T>, le: (T, T) -> bool)
    ensures forall x :: x in Sort(s, le) <==> x in s
  {
    SortPermutes(s, le);
    forall x ensures x in Sort(s, le) <==> x in s {
      assert x in multiset(Sort(s, le)) <==> x in multiset(s);
    }
  }

  lemma {:induction false} InsertSorts<T(!new)>(x: T, s: seq<T>, le: (T, T) -> bool)
    requires TotalPreorder(le)
    requires SortedBy(s, le)
    ensures SortedBy(Insert(x, s, le), le)
  {
    if s != [] && !le(x, s[0]) {
      InsertSorts(x, s[1..], le);
      InsertPermutes(x, s[1..], le);
      var r := Insert(x, s[1..], le);
      forall j | 0 <= j < |r| ensures le(s[0], r[j]) {
        assert r[j] in multiset(r);
        assert r[j] == x || r[j] in s[1..];
      }
    }
  }

  lemma {:induction false} SortSorts<T(!new)>(s: seq<T>, le: (T, T) -> bool)
    requires TotalPreorder(le)
    ensures SortedBy(Sort(s, le), le)
  {
    if s == [] {
    } else {
      SortSorts(s[1..], le);
      InsertSorts(s[0], Sort(s[1..], le), le);
    }
  }

  /** Sorting an already sorted list changes nothing. */
  lemma {:induction false} SortedIsFixed<T>(s: seq<T>, le: (T, T) -> bool)
    requires SortedBy(s, le)
    ensures Sort(s, le) == s
  {
    if s == [] {
    } else {
      SortedIsFixed(s[1..], le);
      assert s == [s[0]] + s[1..];
    }
  }

  /** The elements that `le` cannot tell from `y`. */
  function Tied<T>(le: (T, T) -> bool, y: T): T -> bool {
    (z: T) => le(y, z) && le(z, y)
  }

  lemma FilterCons<T>(x: T, s: seq<T>, keep: T -> bool)
    ensures Filter([x] + s, keep) == (if keep(x) then [x] else []) + Filter(s, keep)
  {
    assert ([x] + s)[1..] == s;
  }

  lemma {:induction false} InsertIsStable<T(!new)>(x: T, s: seq<T>, le: (T, T) -> bool, y: T)
    requires TotalPreorder(le)
    requires SortedBy(s, le)
    ensures Filter(Insert(x, s, le), Tied(le, y)) == Filter([x] + s, Tied(le, y))
  {
    if s != [] && !le(x, s[0]) {
      var tied := Tied(le, y);
      var rest := Insert(x, s[1..], le);
      InsertIsStable(x, s[1..], le, y);
      FilterCons(s[0], rest, tied);
      FilterCons(x, s[1..], tied);
      FilterCons(x, s, tied);
      assert !(tied(x) && tied(s[0]));
    }
  }

  /** Elements with equal keys keep their order. */
  lemma {:induction false} SortIsStable<T(!new)>(s: seq<T>, le: (T, T) -> bool, y: T)
    requires TotalPreorder(le)
    ensures Filter(Sort(s, le), Tied(le, y)) == Filter(s, Tied(le, y))
  {
    if s == [] {
    } else {
      SortIsStable(s[1..], le, y);
      SortSorts(s[1..], le);
      InsertIsStable(s[0], Sort(s[1..], le), le, y);
      FilterCons(s[0], Sort(s[1..], le), Tied(le, y));
    }
  }

  ghost predicate Pairwise<T>(s: seq<T>, r: (T, T) -> bool) {
    forall i, j :: 0 <= i < j < |s| ==> r(s[i], s[j])
  }

  lemma {:induction false} InsertKeepsPairwise<T(!new)>(x: T, s: seq<T>, le: (T, T) -> bool, r: (T, T) -> bool)
    requires (forall a, b :: r(a, b) ==> r(b, a)) && Pairwise(s, r) && forall y :: y in s ==> r(x, y)
    ensures Pairwise(Insert(x, s, le), r)
  {
    if s == [] || le(x, s[0]) {
    } else {
      InsertKeepsPairwise(x, s[1..], le, r);
      InsertPermutes(x, s[1..], le);
      var rest := Insert(x, s[1..], le);
      forall j | 0 <= j < |rest| ensures r(s[0], rest[j]) {
        assert rest[j] in multiset(rest);
        assert rest[j] == x || rest[j] in s[1..];
      }
    }
  }

  /** A symmetric relation between all elements survives sorting. */
  lemma {:induction false} SortKeepsPairwise<T(!new)>(s: seq<T>, le: (T, T) -> bool, r: (T, T) -> bool)
    requires (forall a, b :: r(a, b) ==> r(b, a)) && Pairwise(s, r)
    ensures Pairwise(Sort(s, le), r)
  {
    if s == [] {
    } else {
      SortKeepsPairwise(s[1..], le, r);
      SortKeepsMembers(s[1..], le);
      InsertKeepsPairwise(s[0], Sort(s[1..], le), le, r);
    }
  }

  lemma FirstIsTied<T(!new)>(s: seq<T>, le: (T, T) -> bool)
    requires TotalPreorder(le) && SortedBy(s, le) && s != []
    ensures Filter(s, Tied(le, s[0])) != [] && Filter(s, Tied(le, s[0]))[0] == s[0]
    ensures forall x :: x in s ==> le(s[0], x)
  {
    assert le(s[0], s[0]);
  }

  lemma SameFirst<T(!new)>(a: seq<T>, b: seq<T>, le: (T, T) -> bool)
    requires TotalPreorder(le) && SortedBy(a, le) && SortedBy(b, le) && a != [] && b != []
    requires Filter(a, Tied(le, a[0])) == Filter(b, Tied(le, a[0]))
    requires Filter(a, Tied(le, b[0])) == Filter(b, Tied(le, b[0]))
    ensures a[0] == b[0]
  {
    FirstIsTied(a, le);
    FirstIsTied(b, le);
    FilterMembers(b, Tied(le, a[0]));
    FilterMembers(a, Tied(le, b[0]));
    assert a[0] in b && b[0] in a;
  }

  lemma TailsAgree<T>(a: seq<T>, b: seq<T>, keep: T -> bool)
    requires a != [] && b != [] && a[0] == b[0] && Filter(a, keep) == Filter(b, keep)
    ensures Filter(a[1..], keep) == Filter(b[1..], keep)
  {
    if keep(a[0]) {
      assert ([a[0]] + Filter(a[1..], keep))[1..] == Filter(a[1..], keep);
      assert ([b[0]] + Filter(b[1..], keep))[1..] == Filter(b[1..], keep);
    } else {
      assert [] + Filter(a[1..], keep) == Filter(a[1..], keep);
      assert [] + Filter(b[1..], keep) == Filter(b[1..], keep);
    }
  }

  lemma {:induction false} SortedAgree<T(!new)>(a: seq<T>, b: seq<T>, le: (T, T) -> bool)
    requires TotalPreorder(le) && SortedBy(a, le) && SortedBy(b, le)
    requires forall y :: Filter(a, Tied(le, y)) == Filter(b, Tied(le, y))
    ensures a == b
  {
    if a == [] || b == [] {
      if a != [] {
        FirstIsTied(a, le);
      }
      if b != [] {
        FirstIsTied(b, le);
      }
    } else {
      SameFirst(a, b, le);
      assert a == [a[0]] + a[1..] && b == [b[0]] + b[1..];
      forall y ensures Filter(a[1..], Tied(le, y)) == Filter(b[1..], Tied(le, y)) {
        TailsAgree(a, b, Tied(le, y));
      }
      SortedAgree(a[1..], b[1..], le);
    }
  }

  /** The sort is determined: every ordered list that keeps tied elements in their order is the same list. */
  lemma SortIsUnique<T(!new)>(s: seq<T>, t: seq<T>, le: (T, T) -> bool)
    requires TotalPreorder(le) && SortedBy(t, le)
    requires forall y :: Filter(t, Tied(le, y)) == Filter(s, Tied(le, y))
    ensures t == Sort(s, le)
  {
    SortSorts(s, le);
    forall y ensures Filter(t, Tied(le, y)) == Filter(Sort(s, le), Tied(le, y)) {
      SortIsStable(s, le, y);
    }
    SortedAgree(t, Sort(s, le), le);
  }

  lemma {:induction false} FilterAppend<T>(a: seq<T>, b: seq<T>, keep: T -> bool)
    ensures Filter(a + b, keep) == Filter(a, keep) + Filter(b, keep)
  {
    if a == [] {
      assert a + b == b;
    } else {
      var head := if keep(a[0]) then [a[0]] else [];
      calc {
        Filter(a + b, keep);
        { assert (a + b)[0] == a[0] && (a + b)[1..] == a[1..] + b; }
        head + Filter(a[1..] + b, keep);
        { FilterAppend(a[1..], b, keep); }
        head + (Filter(a[1..], keep) + Filter(b, keep));
        (head + Filter(a[1..], keep)) + Filter(b, keep);
        Filter(a, keep) + Filter(b, keep);
      }
    }
  }

  lemma {:induction false} FilterMembers<T>(s: seq<T>, keep: T -> bool)
    ensures forall x :: x in Filter(s, keep) <==> x in s && keep(x)
  {
    if s == [] {
    } else {
      FilterMembers(s[1..], keep);
      assert s == [s[0]] + s[1..];
    }
  }

  /** Two filters that agree on the members of a list select the same sublist. */
  lemma {:induction false} FilterAgree<T>(s: seq<T>, p: T -> bool, q: T -> bool)
    requires forall x :: x in s ==> p(x) == q(x)
    ensures Filter(s, p) == Filter(s, q)
  {
    if s == [] {
    } else {
      FilterAgree(s[1..], p, q);
    }
  }

  lemma {:induction false} FilterNone<T>(s: seq<T>, keep: T -> bool)
    requires forall x :: x in s ==> !keep(x)
    ensures Filter(s, keep) == []
  {
    if s == [] {
    } else {
      FilterNone(s[1..], keep);
    }
  }

  lemma {:induction false} FilterKeepsSorted<T(!new)>(s: seq<T>, keep: T -> bool, le: (T, T) -> bool)
    requires SortedBy(s, le)
    ensures SortedBy(Filter(s, keep), le)
  {
    if s == [] {
    } else {
      FilterKeepsSorted(s[1..], keep, le);
      FilterMembers(s[1..], keep);
      var r := Filter(s[1..], keep);
      forall j | 0 <= j < |r| ensures le(s[0], r[j]) {
        assert r[j] in s[1..];
      }
    }
  }
}
