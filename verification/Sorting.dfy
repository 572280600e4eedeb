/**
 Stable sorting, as `Array.prototype.sort` and Python's `sorted` perform it with a
 consistent comparator: elements that compare equal keep their input order.
 */
module Sorting {

  ghost predicate TotalPreorder<T(!new)>(le: (T, T) -> bool) {
    && (forall x, y :: le(x, y) || le(y, x))
    && (forall x, y, z :: le(x, y) && le(y, z) ==> le(x, z))
  }

  ghost predicate Sorted<T>(s: seq<T>, le: (T, T) -> bool) {
    forall i, j | 0 <= i < j < |s| :: le(s[i], s[j])
  }

  /** Puts `x`, which precedes all of `s` in the input, in front of the first element not below it. */
  function Insert<T>(x: T, s: seq<T>, le: (T, T) -> bool): seq<T> {
    if s == [] || le(x, s[0]) then [x] + s else [s[0]] + Insert(x, s[1..], le)
  }

  function StableSort<T>(s: seq<T>, le: (T, T) -> bool): seq<T> {
    if s == [] then [] else Insert(s[0], StableSort(s[1..], le), le)
  }

  function Filter<T>(s: seq<T>, p: T -> bool): seq<T> {
    if s == [] then [] else (if p(s[0]) then [s[0]] else []) + Filter(s[1..], p)
  }

  lemma {:induction false} InsertPermutes<T>(x: T, s: seq<T>, le: (T, T) -> bool)
    ensures multiset(Insert(x, s, le)) == multiset{x} + multiset(s)
  {
    if s == [] || le(x, s[0]) {
    } else {
      InsertPermutes(x, s[1..], le);
      assert s == [s[0]] + s[1..];
    }
  }

  lemma {:induction false} StableSortPermutes<T>(s: seq<T>, le: (T, T) -> bool)
    ensures multiset(StableSort(s, le)) == multiset(s)
    ensures |StableSort(s, le)| == |s|
  {
    if s == [] {
    } else {
      StableSortPermutes(s[1..], le);
      InsertPermutes(s[0], StableSort(s[1..], le), le);
      assert s == [s[0]] + s[1..];
    }
    assert |multiset(StableSort(s, le))| == |multiset(s)|;
  }

  lemma SameElements<T>(s: seq<T>, t: seq<T>, x: T)
    requires multiset(s) == multiset(t)
    ensures x in s <==> x in t
  {
    assert x in s <==> x in multiset(s);
    assert x in t <==> x in multiset(t);
  }

  lemma {:induction false} WithoutOne<T>(a: seq<T>, x: T, b: seq<T>)
    ensures multiset(a + b) == multiset(a + [x] + b) - multiset{x}
  {
    assert multiset(a + [x] + b) == multiset(a) + multiset{x} + multiset(b);
  }

  lemma {:induction false} WithoutFirst<T>(s: seq<T>)
    requires s != []
    ensures multiset(s[1..]) == multiset(s) - multiset{s[0]}
  {
    assert s == [s[0]] + s[1..];
    assert multiset(s) == multiset{s[0]} + multiset(s[1..]);
  }

  /** Two permutations of one another stay so when an occurrence of the same element is taken out of both. */
  lemma {:induction false} MatchFirst<T>(s: seq<T>, t: seq<T>) returns (k: nat)
    requires multiset(s) == multiset(t) && s != []
    ensures k < |t| && t[k] == s[0] && t == t[..k] + [t[k]] + t[k + 1..]
    ensures multiset(s[1..]) == multiset(t[..k] + t[k + 1..])
  {
    SameElements(s, t, s[0]);
    k :| k < |t| && t[k] == s[0];
    assert t == t[..k] + [t[k]] + t[k + 1..];
    WithoutFirst(s);
    WithoutOne(t[..k], t[k], t[k + 1..]);
  }

  lemma {:induction false} InsertSorts<T(!new)>(x: T, s: seq<T>, le: (T, T) -> bool)
    requires TotalPreorder(le) && Sorted(s, le)
    ensures Sorted(Insert(x, s, le), le)
  {
    if s == [] || le(x, s[0]) {
    } else {
      InsertSorts(x, s[1..], le);
      var rest := Insert(x, s[1..], le);
      forall j | 0 <= j < |rest| ensures le(s[0], rest[j]) {
        InsertPermutes(x, s[1..], le);
        assert rest[j] in multiset(rest);
        assert rest[j] == x || rest[j] in s[1..];
      }
    }
  }

  lemma {:induction false} StableSortSorts<T(!new)>(s: seq<T>, le: (T, T) -> bool)
    requires TotalPreorder(le)
    ensures Sorted(StableSort(s, le), le)
  {
    if s == [] {
    } else {
      StableSortSorts(s[1..], le);
      InsertSorts(s[0], StableSort(s[1..], le), le);
    }
  }

  function Kept<T>(x: T, p: T -> bool): seq<T> {
    if p(x) then [x] else []
  }

  lemma {:induction false} FilterCons<T>(x: T, s: seq<T>, p: T -> bool)
    ensures Filter([x] + s, p) == Kept(x, p) + Filter(s, p)
  {
    assert ([x] + s)[1..] == s;
  }

  lemma {:induction false} FilterAppend<T>(a: seq<T>, b: seq<T>, p: T -> bool)
    ensures Filter(a + b, p) == Filter(a, p) + Filter(b, p)
  {
    if a == [] {
      assert a + b == b;
    } else {
      assert a == [a[0]] + a[1..] && a + b == [a[0]] + (a[1..] + b);
      FilterAppend(a[1..], b, p);
      FilterCons(a[0], a[1..], p);
      FilterCons(a[0], a[1..] + b, p);
    }
  }

  lemma {:induction false} EmptyCommutes<T>(a: seq<T>, b: seq<T>, rest: seq<T>)
    requires a == [] || b == []
    ensures a + (b + rest) == b + (a + rest)
  {
    assert [] + rest == rest;
  }

  lemma {:induction false} InsertBehind<T>(x: T, s: seq<T>, le: (T, T) -> bool, p: T -> bool)
    requires s != [] && !le(x, s[0])
    ensures Filter(Insert(x, s, le), p) == Kept(s[0], p) + Filter(Insert(x, s[1..], le), p)
  {
    FilterCons(s[0], Insert(x, s[1..], le), p);
  }

  lemma {:induction false} FilterConsCons<T>(x: T, s: seq<T>, p: T -> bool)
    requires s != []
    ensures Filter([x] + s, p) == Kept(x, p) + (Kept(s[0], p) + Filter(s[1..], p))
  {
    FilterCons(x, s, p);
    FilterCons(s[0], s[1..], p);
    assert s == [s[0]] + s[1..];
  }

  /** An insertion moves `x` only past elements that are not kept with it. */
  lemma {:induction false} InsertIsStable<T>(x: T, s: seq<T>, le: (T, T) -> bool, p: T -> bool)
    requires forall y | y in s && p(x) && p(y) :: le(x, y)
    ensures Filter(Insert(x, s, le), p) == Filter([x] + s, p)
  {
    if s != [] && !le(x, s[0]) {
      InsertIsStable(x, s[1..], le, p);
      InsertBehind(x, s, le, p);
      FilterCons(x, s[1..], p);
      FilterConsCons(x, s, p);
      EmptyCommutes(Kept(x, p), Kept(s[0], p), Filter(s[1..], p));
    }
  }

  lemma {:induction false} StableSortIsStable<T(!new)>(s: seq<T>, le: (T, T) -> bool, p: T -> bool)
    requires forall x, y | p(x) && p(y) :: le(x, y)
    ensures Filter(StableSort(s, le), p) == Filter(s, p)
  {
    if s == [] {
    } else {
      StableSortIsStable(s[1..], le, p);
      InsertIsStable(s[0], StableSort(s[1..], le), le, p);
      FilterCons(s[0], StableSort(s[1..], le), p);
      FilterCons(s[0], s[1..], p);
      assert s == [s[0]] + s[1..];
    }
  }

  lemma {:induction false} FirstIsLeast<T(!new)>(s: seq<T>, le: (T, T) -> bool, x: T)
    requires TotalPreorder(le) && Sorted(s, le) && x in s
    ensures le(s[0], x)
  {
    var i :| 0 <= i < |s| && s[i] == x;
    if i > 0 { assert le(s[0], s[i]); }
  }

  /** Under an antisymmetric order a multiset has one sorted sequence. */
  lemma {:induction false} SortedIsUnique<T(!new)>(s: seq<T>, t: seq<T>, le: (T, T) -> bool)
    requires TotalPreorder(le) && (forall x, y | le(x, y) && le(y, x) :: x == y)
    requires Sorted(s, le) && Sorted(t, le) && multiset(s) == multiset(t)
    ensures s == t
  {
    if s == [] {
      assert |t| == |multiset(t)|;
    } else {
      SameElements(s, t, s[0]);
      SameElements(s, t, t[0]);
      FirstIsLeast(s, le, t[0]);
      FirstIsLeast(t, le, s[0]);
      SameRest(s, t);
      SortedIsUnique(s[1..], t[1..], le);
      assert s == [s[0]] + s[1..] && t == [t[0]] + t[1..];
    }
  }

  lemma {:induction false} SameRest<T>(s: seq<T>, t: seq<T>)
    requires s != [] && t != [] && s[0] == t[0] && multiset(s) == multiset(t)
    ensures multiset(s[1..]) == multiset(t[1..])
  {
    WithoutFirst(s);
    WithoutFirst(t);
  }
}
