/** Stable sorting by a total preorder, and why a sorted order is unique. */
module Sorting {
  import opened Text

  ghost predicate IsOrder<T(!new)>(le: (T, T) -> bool) {
    && (forall a, b :: le(a, b) || le(b, a))
    && (forall a, b, c {:trigger le(a, b), le(b, c)} :: le(a, b) && le(b, c) ==> le(a, c))
  }

  predicate Sorted<T>(s: seq<T>, le: (T, T) -> bool) {
    forall i, j :: 0 <= i < j < |s| ==> le(s[i], s[j])
  }

  /** No two elements of the sequence tie. */
  predicate NoTies<T(==)>(s: seq<T>, le: (T, T) -> bool) {
    forall a, b | a in s && b in s && le(a, b) && le(b, a) :: a == b
  }

  /** Puts x before the first element it may precede. */
  function Insert<T>(x: T, s: seq<T>, le: (T, T) -> bool): seq<T> {
    if s == [] || le(x, s[0]) then [x] + s else [s[0]] + Insert(x, s[1..], le)
  }

  function Sort<T>(s: seq<T>, le: (T, T) -> bool): seq<T> {
    if s == [] then [] else Insert(s[0], Sort(s[1..], le), le)
  }

  lemma {:induction false} InsertPermutes<T>(x: T, s: seq<T>, le: (T, T) -> bool)
    ensures multiset(Insert(x, s, le)) == multiset{x} + multiset(s)
  {
    if s != [] && !le(x, s[0]) {
      InsertPermutes(x, s[1..], le);
      assert s == [s[0]] + s[1..];
    }
  }

  lemma {:induction false} SortPermutes<T>(s: seq<T>, le: (T, T) -> bool)
    ensures multiset(Sort(s, le)) == multiset(s)
    ensures |Sort(s, le)| == |s|
    ensures forall x :: x in Sort(s, le) <==> x in s
  {
    if s != [] {
      SortPermutes(s[1..], le);
      InsertPermutes(s[0], Sort(s[1..], le), le);
      assert s == [s[0]] + s[1..];
    }
    assert |multiset(Sort(s, le))| == |Sort(s, le)|;
    assert forall x :: x in Sort(s, le) <==> x in multiset(Sort(s, le));
  }

  lemma {:induction false} InsertSorts<T(!new)>(x: T, s: seq<T>, le: (T, T) -> bool)
    requires IsOrder(le) && Sorted(s, le)
    ensures Sorted(Insert(x, s, le), le)
  {
    if s != [] && !le(x, s[0]) {
      var rest := Insert(x, s[1..], le);
      InsertSorts(x, s[1..], le);
      InsertPermutes(x, s[1..], le);
      forall y | y in rest
        ensures le(s[0], y)
      {
        assert y in multiset(rest);
      }
    }
  }

  lemma {:induction false} SortSorts<T(!new)>(s: seq<T>, le: (T, T) -> bool)
    requires IsOrder(le)
    ensures Sorted(Sort(s, le), le)
  {
    if s != [] {
      SortSorts(s[1..], le);
      InsertSorts(s[0], Sort(s[1..], le), le);
    }
  }

  /** A multiset has one sorted order, if none of its elements tie. */
  lemma {:induction false} SortedIsUnique<T(!new)>(a: seq<T>, b: seq<T>, le: (T, T) -> bool)
    requires IsOrder(le) && Sorted(a, le) && Sorted(b, le) && NoTies(a, le)
    requires multiset(a) == multiset(b)
    ensures a == b
  {
    if a == [] {
      assert |multiset(b)| == 0;
    } else {
      SameFirst(a, b, le);
      assert a == [a[0]] + a[1..] && b == [b[0]] + b[1..];
      assert multiset(a[1..]) == multiset(a) - multiset{a[0]} == multiset(b[1..]);
      SortedIsUnique(a[1..], b[1..], le);
    }
  }

  lemma SameFirst<T(!new)>(a: seq<T>, b: seq<T>, le: (T, T) -> bool)
    requires IsOrder(le) && Sorted(a, le) && Sorted(b, le) && NoTies(a, le)
    requires multiset(a) == multiset(b) && a != []
    ensures b != [] && a[0] == b[0]
  {
    assert a[0] in multiset(b);
    assert b != [] && b[0] in multiset(a);
    FirstIsLeast(a, le);
    FirstIsLeast(b, le);
  }

  lemma FirstIsLeast<T(!new)>(s: seq<T>, le: (T, T) -> bool)
    requires IsOrder(le) && Sorted(s, le) && s != []
    ensures forall x <- s :: le(s[0], x)
  {
  }

  /** Sorting forgets the input's order. */
  lemma {:induction false} SortForgetsOrder<T(!new)>(a: seq<T>, b: seq<T>, le: (T, T) -> bool)
    requires IsOrder(le) && multiset(a) == multiset(b) && NoTies(a, le)
    ensures Sort(a, le) == Sort(b, le)
  {
    SortPermutes(a, le);
    SortPermutes(b, le);
    SortSorts(a, le);
    SortSorts(b, le);
    SortedIsUnique(Sort(a, le), Sort(b, le), le);
  }

  /** The elements of a set, each once, in some order. */
  ghost function Elements<T(!new)>(s: set<T>): (r: seq<T>)
    ensures |r| == |s|
    ensures forall x :: x in r <==> x in s
    ensures forall i, j :: 0 <= i < j < |r| ==> r[i] != r[j]
  {
    if s == {} then [] else
      var x :| x in s;
      assert s == {x} + (s - {x});
      [x] + Elements(s - {x})
  }

  lemma {:induction false} DistinctCounts<T>(s: seq<T>, x: T)
    requires forall i, j :: 0 <= i < j < |s| ==> s[i] != s[j]
    ensures multiset(s)[x] <= 1
  {
    if s != [] {
      DistinctCounts(s[1..], x);
      assert s == [s[0]] + s[1..];
      if x == s[0] && x in s[1..] {
        assert false;
      }
      assert x == s[0] ==> x !in multiset(s[1..]);
    }
  }

  lemma SameMembersSameCounts<T(!new)>(a: seq<T>, b: seq<T>)
    requires forall i, j :: 0 <= i < j < |a| ==> a[i] != a[j]
    requires forall i, j :: 0 <= i < j < |b| ==> b[i] != b[j]
    requires forall x :: x in a <==> x in b
    ensures multiset(a) == multiset(b)
  {
    forall x
      ensures multiset(a)[x] == multiset(b)[x]
    {
      DistinctCounts(a, x);
      DistinctCounts(b, x);
      assert x in a <==> x in b;
    }
  }

  lemma {:induction false} CountsDistinct<T>(s: seq<T>)
    requires forall x :: multiset(s)[x] <= 1
    ensures forall i, j :: 0 <= i < j < |s| ==> s[i] != s[j]
  {
    if s != [] {
      assert s == [s[0]] + s[1..];
      forall x
        ensures multiset(s[1..])[x] <= 1
      {
        assert multiset(s)[x] <= 1;
      }
      CountsDistinct(s[1..]);
      assert s[0] !in multiset(s[1..]) by {
        assert multiset(s)[s[0]] <= 1;
      }
    }
  }

  /** Sorting keeps distinct elements distinct. */
  lemma {:induction false} SortDistinct<T>(s: seq<T>, le: (T, T) -> bool)
    requires forall i, j :: 0 <= i < j < |s| ==> s[i] != s[j]
    ensures var r := Sort(s, le); forall i, j :: 0 <= i < j < |r| ==> r[i] != r[j]
  {
    SortPermutes(s, le);
    forall x
      ensures multiset(Sort(s, le))[x] <= 1
    {
      DistinctCounts(s, x);
    }
    CountsDistinct(Sort(s, le));
  }

  /** The lexicographic order of strings is a total order. */
  lemma LeIsOrder()
    ensures IsOrder(Le)
  {
    forall a, b
      ensures Le(a, b) || Le(b, a)
    {
      LeTotal(a, b);
    }
    forall a, b, c | Le(a, b) && Le(b, c)
      ensures Le(a, c)
    {
      LeTransitive(a, b, c);
    }
  }
}
