/** Stable insertion sort. `le(x, y)` says that `x` need not come after `y`. */
module Sorting {

  /** After every element that need not come after it. */
  function Insert<T>(s: seq<T>, x: T, le: (T, T) -> bool): (r: seq<T>)
    ensures |r| == |s| + 1
  {
    if s == [] || le(s[|s| - 1], x) then s + [x]
    else Insert(s[..|s| - 1], x, le) + [s[|s| - 1]]
  }

  function Sort<T>(s: seq<T>, le: (T, T) -> bool): (r: seq<T>)
    ensures |r| == |s|
  {
    if s == [] then [] else Insert(Sort(s[..|s| - 1], le), s[|s| - 1], le)
  }

  ghost predicate Total<T(!new)>(le: (T, T) -> bool) {
    && (forall x, y :: le(x, y) || le(y, x))
    && (forall x, y, z :: le(x, y) && le(y, z) ==> le(x, z))
  }

  ghost predicate Ordered<T>(s: seq<T>, le: (T, T) -> bool) {
    forall i, j :: 0 <= i < j < |s| ==> le(s[i], s[j])
  }

  /** The elements with some property, in their order. */
  function Filter<T>(s: seq<T>, p: T -> bool): seq<T> {
    if s == [] then []
    else if p(s[|s| - 1]) then Filter(s[..|s| - 1], p) + [s[|s| - 1]]
    else Filter(s[..|s| - 1], p)
  }

  lemma {:induction false} InsertPermutes<T>(s: seq<T>, x: T, le: (T, T) -> bool)
    ensures multiset(Insert(s, x, le)) == multiset(s) + multiset{x}
  {
    if s != [] && !le(s[|s| - 1], x) {
      InsertPermutes(s[..|s| - 1], x, le);
      assert s == s[..|s| - 1] + [s[|s| - 1]];
    }
  }

  lemma {:induction false} SortPermutes<T>(s: seq<T>, le: (T, T) -> bool)
    ensures multiset(Sort(s, le)) == multiset(s)
  {
    if s != [] {
      var n := |s| - 1;
      SortPermutes(s[..n], le);
      InsertPermutes(Sort(s[..n], le), s[n], le);
      assert s == s[..n] + [s[n]];
    }
  }

  lemma SameMembers<T>(s: seq<T>, t: seq<T>)
    requires multiset(s) == multiset(t)
    ensures forall x :: x in s <==> x in t
  {
    forall x
      ensures x in s <==> x in t
    {
      assert x in s <==> x in multiset(s);
      assert x in t <==> x in multiset(t);
    }
  }

  lemma {:induction false} InsertOrders<T(!new)>(s: seq<T>, x: T, le: (T, T) -> bool)
    requires Total(le) && Ordered(s, le)
    ensures Ordered(Insert(s, x, le), le)
  {
    if s != [] {
      var n := |s| - 1;
      if le(s[n], x) {
        forall i | 0 <= i < n
          ensures le(s[i], x)
        {
          assert le(s[i], s[n]);
        }
      } else {
        InsertOrders(s[..n], x, le);
        InsertPermutes(s[..n], x, le);
        assert multiset(s[..n] + [x]) == multiset(s[..n]) + multiset{x};
        SameMembers(Insert(s[..n], x, le), s[..n] + [x]);
        var r := Insert(s[..n], x, le);
        forall i | 0 <= i < |r|
          ensures le(r[i], s[n])
        {
          assert r[i] in r;
        }
      }
    }
  }

  lemma {:induction false} SortOrders<T(!new)>(s: seq<T>, le: (T, T) -> bool)
    requires Total(le)
    ensures Ordered(Sort(s, le), le)
  {
    if s != [] {
      SortOrders(s[..|s| - 1], le);
      InsertOrders(Sort(s[..|s| - 1], le), s[|s| - 1], le);
    }
  }

  lemma FilterOfMore<T>(s: seq<T>, x: T, p: T -> bool)
    ensures Filter(s + [x], p) == if p(x) then Filter(s, p) + [x] else Filter(s, p)
  {
    assert (s + [x])[..|s|] == s;
  }

  /** Elements no two of which need to be exchanged. */
  ghost predicate Alike<T(!new)>(p: T -> bool, le: (T, T) -> bool) {
    forall x, y :: p(x) && p(y) ==> le(x, y)
  }

  lemma {:induction false} InsertKeepsAlike<T(!new)>(s: seq<T>, x: T, le: (T, T) -> bool, p: T -> bool)
    requires Alike(p, le)
    ensures Filter(Insert(s, x, le), p) == if p(x) then Filter(s, p) + [x] else Filter(s, p)
  {
    if s != [] && !le(s[|s| - 1], x) {
      var n := |s| - 1;
      InsertKeepsAlike(s[..n], x, le, p);
      FilterOfMore(Insert(s[..n], x, le), s[n], p);
      assert !(p(s[n]) && p(x));
    } else {
      FilterOfMore(s, x, p);
    }
  }

  /** The sort is stable: alike elements stay in their order. */
  lemma {:induction false} SortKeepsAlike<T(!new)>(s: seq<T>, le: (T, T) -> bool, p: T -> bool)
    requires Alike(p, le)
    ensures Filter(Sort(s, le), p) == Filter(s, p)
  {
    if s != [] {
      var n := |s| - 1;
      SortKeepsAlike(s[..n], le, p);
      InsertKeepsAlike(Sort(s[..n], le), s[n], le, p);
    }
  }

  lemma SameSize<T>(s: seq<T>, t: seq<T>)
    requires multiset(s) == multiset(t)
    ensures |s| == |t|
  {
    assert |multiset(s)| == |s| && |multiset(t)| == |t|;
  }

  lemma AllButLast<T>(s: seq<T>)
    requires s != []
    ensures multiset(s[..|s| - 1]) == multiset(s) - multiset{s[|s| - 1]}
  {
    assert s == s[..|s| - 1] + [s[|s| - 1]];
  }
}
