/** Stable sorting by a total preorder: the meaning of the standard library's `sort_by`. */
module Sorting {
  import opened Prelude

  ghost predicate TotalPreorder<T(!new)>(le: (T, T) -> bool) {
    && (forall a, b :: le(a, b) || le(b, a))
    && (forall a, b, c :: le(a, b) && le(b, c) ==> le(a, c))
  }

  ghost predicate SortedBy<T>(s: seq<T>, le: (T, T) -> bool) {
    forall i, j :: 0 <= i < j < |s| ==> le(s[i], s[j])
  }

  function Insert<T>(x: T, s: seq<T>, le: (T, T) -> bool): seq<T> {
    if |s| == 0 || le(x, s[0]) then [x] + s else [s[0]] + Insert(x, s[1..], le)
  }

  /** Insertion sort; equal elements keep their order. */
  function Sort<T>(s: seq<T>, le: (T, T) -> bool): seq<T> {
    if |s| == 0 then [] else Insert(s[0], Sort(s[1..], le), le)
  }

  lemma {:induction false} InsertPermutes<T>(x: T, s: seq<T>, le: (T, T) -> bool)
    ensures multiset(Insert(x, s, le)) == multiset{x} + multiset(s)
  {
    if |s| > 0 && !le(x, s[0]) {
      InsertPermutes(x, s[1..], le);
      assert s == [s[0]] + s[1..];
    }
  }

  lemma SortedCons<T>(x: T, s: seq<T>, le: (T, T) -> bool)
    requires SortedBy(s, le) && forall y :: y in multiset(s) ==> le(x, y)
    ensures SortedBy([x] + s, le)
  {
    forall i | 0 <= i < |s|
      ensures le(x, s[i])
    {
      assert s[i] in multiset(s);
    }
  }

  lemma {:induction false} InsertSorted<T(!new)>(x: T, s: seq<T>, le: (T, T) -> bool)
    requires TotalPreorder(le) && SortedBy(s, le)
    ensures SortedBy(Insert(x, s, le), le)
  {
    if |s| > 0 && !le(x, s[0]) {
      InsertSorted(x, s[1..], le);
      InsertPermutes(x, s[1..], le);
      SortedCons(s[0], Insert(x, s[1..], le), le);
    } else if |s| > 0 {
      forall y | y in multiset(s)
        ensures le(x, y)
      {
        var i :| 0 <= i < |s| && s[i] == y;
        assert i == 0 || le(s[0], s[i]);
      }
      SortedCons(x, s, le);
    }
  }

  /** The result is a sorted permutation. */
  lemma {:induction false} SortSorts<T(!new)>(s: seq<T>, le: (T, T) -> bool)
    requires TotalPreorder(le)
    ensures multiset(Sort(s, le)) == multiset(s) && SortedBy(Sort(s, le), le) && |Sort(s, le)| == |s|
  {
    if |s| > 0 {
      SortSorts(s[1..], le);
      InsertPermutes(s[0], Sort(s[1..], le), le);
      InsertSorted(s[0], Sort(s[1..], le), le);
      assert s == [s[0]] + s[1..];
      assert |multiset(Sort(s, le))| == |multiset(s)|;
    }
  }

  lemma {:induction false} InsertStable<T(!new)>(x: T, s: seq<T>, le: (T, T) -> bool, p: T -> bool)
    requires forall a, b :: p(a) && p(b) ==> le(a, b)
    ensures Filter(Insert(x, s, le), p) == Filter([x] + s, p)
  {
    assert ([x] + s)[1..] == s;
    if |s| > 0 && !le(x, s[0]) {
      InsertStable(x, s[1..], le, p);
      assert ([x] + s[1..])[1..] == s[1..];
      assert Insert(x, s, le)[1..] == Insert(x, s[1..], le);
    }
  }

  /** Elements that compare equal keep their relative order. */
  lemma {:induction false} SortStable<T(!new)>(s: seq<T>, le: (T, T) -> bool, p: T -> bool)
    requires forall a, b :: p(a) && p(b) ==> le(a, b)
    ensures Filter(Sort(s, le), p) == Filter(s, p)
  {
    if |s| > 0 {
      SortStable(s[1..], le, p);
      var t := Sort(s[1..], le);
      InsertStable(s[0], t, le, p);
      assert ([s[0]] + t)[1..] == t;
    }
  }

  /** A sorted sequence is left alone. */
  lemma {:induction false} SortIdentity<T>(s: seq<T>, le: (T, T) -> bool)
    requires SortedBy(s, le)
    ensures Sort(s, le) == s
  {
    if |s| > 0 {
      SortIdentity(s[1..], le);
      assert s == [s[0]] + s[1..];
    }
  }

  /** A relation that holds between any two positions. */
  ghost predicate Pairwise<T>(s: seq<T>, r: (T, T) -> bool) {
    forall i, j :: 0 <= i < j < |s| ==> r(s[i], s[j]) && r(s[j], s[i])
  }

  lemma PairwiseCons<T>(x: T, s: seq<T>, r: (T, T) -> bool)
    requires Pairwise(s, r) && forall y :: y in multiset(s) ==> r(x, y) && r(y, x)
    ensures Pairwise([x] + s, r)
  {
    forall i | 0 <= i < |s|
      ensures r(x, s[i]) && r(s[i], x)
    {
      assert s[i] in multiset(s);
    }
  }

  lemma {:induction false} InsertPairwise<T>(x: T, s: seq<T>, le: (T, T) -> bool, r: (T, T) -> bool)
    requires Pairwise(s, r) && forall y :: y in multiset(s) ==> r(x, y) && r(y, x)
    ensures Pairwise(Insert(x, s, le), r)
  {
    if |s| == 0 || le(x, s[0]) {
      PairwiseCons(x, s, r);
    } else {
      assert s == [s[0]] + s[1..];
      InsertPairwise(x, s[1..], le, r);
      InsertPermutes(x, s[1..], le);
      forall y | y in multiset(Insert(x, s[1..], le))
        ensures r(s[0], y) && r(y, s[0])
      {
        if y in multiset(s[1..]) {
          var i :| 0 <= i < |s[1..]| && s[1..][i] == y;
          assert s[i + 1] == y;
        } else {
          assert s[0] in multiset(s);
        }
      }
      PairwiseCons(s[0], Insert(x, s[1..], le), r);
    }
  }

  /** Sorting keeps a symmetric pairwise relation. */
  lemma {:induction false} SortPairwise<T>(s: seq<T>, le: (T, T) -> bool, r: (T, T) -> bool)
    requires Pairwise(s, r)
    ensures Pairwise(Sort(s, le), r) && multiset(Sort(s, le)) == multiset(s)
  {
    if |s| > 0 {
      SortPairwise(s[1..], le, r);
      assert s == [s[0]] + s[1..];
      InsertPermutes(s[0], Sort(s[1..], le), le);
      forall y | y in multiset(Sort(s[1..], le))
        ensures r(s[0], y) && r(y, s[0])
      {
        assert y in multiset(s[1..]);
        var i :| 0 <= i < |s[1..]| && s[1..][i] == y;
        assert s[i + 1] == y;
      }
      InsertPairwise(s[0], Sort(s[1..], le), le, r);
    }
  }
}
