/** Sorting by a caller-supplied comparison, and why its result is unique. */
module Ordering {

  ghost predicate Transitive<T(!new)>(le: (T, T) -> bool) {
    forall x, y, z :: le(x, y) && le(y, z) ==> le(x, z)
  }

  ghost predicate Strong<T(!new)>(le: (T, T) -> bool) {
    forall x, y :: le(x, y) || le(y, x)
  }

  ghost predicate TotalOrder<T(!new)>(le: (T, T) -> bool) {
    && Transitive(le)
    && Strong(le)
    && forall x, y :: le(x, y) && le(y, x) ==> x == y
  }

  ghost predicate SortedBy<T>(xs: seq<T>, le: (T, T) -> bool) {
    forall i, j | 0 <= i < j < |xs| :: le(xs[i], xs[j])
  }

  ghost predicate AntisymmetricOn<T>(xs: seq<T>, le: (T, T) -> bool) {
    forall x, y | x in xs && y in xs && le(x, y) && le(y, x) :: x == y
  }

  function Insert<T>(x: T, xs: seq<T>, le: (T, T) -> bool): (r: seq<T>)
    ensures multiset(r) == multiset([x] + xs)
    ensures |r| == |xs| + 1
  {
    if xs == [] then [x]
    else if le(x, xs[0]) then [x] + xs
    else
      assert xs == [xs[0]] + xs[1..];
      assert [x] + xs == [x] + [xs[0]] + xs[1..];
      [xs[0]] + Insert(x, xs[1..], le)
  }

  function Sort<T>(xs: seq<T>, le: (T, T) -> bool): (r: seq<T>)
    ensures multiset(r) == multiset(xs)
    ensures |r| == |xs|
  {
    if xs == [] then []
    else
      assert xs == [xs[0]] + xs[1..];
      Insert(xs[0], Sort(xs[1..], le), le)
  }

  lemma SameMembers<T>(xs: seq<T>, ys: seq<T>)
    requires multiset(xs) == multiset(ys)
    ensures forall x :: x in xs <==> x in ys
  {
    forall x
      ensures x in xs <==> x in ys
    {
      assert x in xs <==> x in multiset(xs);
      assert x in ys <==> x in multiset(ys);
    }
  }

  /** Removing the same element from two arrangements leaves two arrangements of the same elements. */
  lemma RemoveSame<T>(front: seq<T>, x: T, before: seq<T>, after: seq<T>)
    requires multiset(front + [x]) == multiset(before + ([x] + after))
    ensures multiset(front) == multiset(before + after)
  {
    var f, b, a, one := multiset(front), multiset(before), multiset(after), multiset([x]);
    assert multiset(front + [x]) == f + one;
    assert multiset(before + ([x] + after)) == b + (one + a);
    assert multiset(before + after) == b + a;
    forall t
      ensures f[t] == (b + a)[t]
    {
      assert (f + one)[t] == f[t] + one[t];
      assert (b + (one + a))[t] == b[t] + one[t] + a[t];
    }
  }

  lemma {:induction false} InsertSorts<T(!new)>(x: T, xs: seq<T>, le: (T, T) -> bool)
    requires Transitive(le) && Strong(le) && SortedBy(xs, le)
    ensures SortedBy(Insert(x, xs, le), le)
  {
    if xs == [] {
    } else if le(x, xs[0]) {
      var r := [x] + xs;
      forall i, j | 0 <= i < j < |r|
        ensures le(r[i], r[j])
      {
        if i == 0 && j > 1 {
          assert le(xs[0], xs[j - 1]);
        }
      }
    } else {
      InsertSorts(x, xs[1..], le);
      var t := Insert(x, xs[1..], le);
      SameMembers(t, [x] + xs[1..]);
      forall j | 0 <= j < |t|
        ensures le(xs[0], t[j])
      {
        assert t[j] in t;
        if t[j] != x {
          assert t[j] in xs[1..];
        }
      }
    }
  }

  lemma {:induction false} SortSorts<T(!new)>(xs: seq<T>, le: (T, T) -> bool)
    requires Transitive(le) && Strong(le)
    ensures SortedBy(Sort(xs, le), le)
  {
    if xs != [] {
      SortSorts(xs[1..], le);
      InsertSorts(xs[0], Sort(xs[1..], le), le);
    }
  }

  lemma TailOf<T>(xs: seq<T>)
    requires xs != []
    ensures xs == [xs[0]] + xs[1..] && multiset(xs[1..]) == multiset(xs) - multiset{xs[0]}
  {
    assert xs == [xs[0]] + xs[1..];
  }

  lemma TailStaysSorted<T>(xs: seq<T>, le: (T, T) -> bool)
    requires xs != []
    ensures SortedBy(xs, le) ==> SortedBy(xs[1..], le)
    ensures AntisymmetricOn(xs, le) ==> AntisymmetricOn(xs[1..], le)
  {
  }

  lemma LeastFirst<T>(xs: seq<T>, ys: seq<T>, le: (T, T) -> bool)
    requires SortedBy(xs, le) && SortedBy(ys, le) && AntisymmetricOn(xs, le)
    requires multiset(xs) == multiset(ys) && xs != [] && ys != []
    ensures xs[0] == ys[0]
  {
    SameMembers(xs, ys);
    assert xs[0] in ys && ys[0] in xs;
    var i :| 0 <= i < |ys| && ys[i] == xs[0];
    var j :| 0 <= j < |xs| && xs[j] == ys[0];
  }

  /** Whatever algorithm sorts, the result is the same: two sorted arrangements of
      the same elements are equal when the comparison separates those elements. */
  lemma {:induction false} SortedUnique<T>(xs: seq<T>, ys: seq<T>, le: (T, T) -> bool)
    requires SortedBy(xs, le) && SortedBy(ys, le)
    requires multiset(xs) == multiset(ys)
    requires AntisymmetricOn(xs, le)
    ensures xs == ys
  {
    assert |xs| == |multiset(xs)| == |multiset(ys)| == |ys|;
    if xs != [] {
      hide SortedBy, AntisymmetricOn;
      LeastFirst(xs, ys, le);
      TailOf(xs);
      TailOf(ys);
      TailStaysSorted(xs, le);
      TailStaysSorted(ys, le);
      SortedUnique(xs[1..], ys[1..], le);
    }
  }

  lemma SortIgnoresArrangement<T(!new)>(xs: seq<T>, ys: seq<T>, le: (T, T) -> bool)
    requires Transitive(le) && Strong(le) && AntisymmetricOn(xs, le)
    requires multiset(xs) == multiset(ys)
    ensures Sort(xs, le) == Sort(ys, le)
  {
    SortSorts(xs, le);
    SortSorts(ys, le);
    SameMembers(Sort(xs, le), xs);
    SortedUnique(Sort(xs, le), Sort(ys, le), le);
  }
}
