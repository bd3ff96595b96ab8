/** Python's `sorted(xs, key=...)`: a stable sort, here an insertion sort by a
    "less than or equal" relation on the elements. */
module Sorting {

  ghost predicate TotalPreorder<T(!new)>(le: (T, T) -> bool) {
    && (forall x, y :: le(x, y) || le(y, x))
    && (forall x, y, z :: le(x, y) && le(y, z) ==> le(x, z))
  }

  predicate SortedBy<T>(s: seq<T>, le: (T, T) -> bool) {
    forall i, j :: 0 <= i < j < |s| ==> le(s[i], s[j])
  }

  /** Inserts `x` in front of the first element it is `le` to; equal elements that
      were already there stay behind it. */
  function Insert<T>(x: T, s: seq<T>, le: (T, T) -> bool): (r: seq<T>)
    ensures |r| == |s| + 1
    ensures multiset(r) == multiset(s) + multiset{x}
  {
    if s == [] then [x]
    else if le(x, s[0]) then [x] + s
    else
      var r := [s[0]] + Insert(x, s[1..], le);
      assert s == [s[0]] + s[1..];
      r
  }

  function SortBy<T>(s: seq<T>, le: (T, T) -> bool): (r: seq<T>)
    ensures |r| == |s|
    ensures multiset(r) == multiset(s)
  {
    if s == [] then []
    else
      var t := SortBy(s[1..], le);
      var r := Insert(s[0], t, le);
      InsertedPerm(s, t, r);
      r
  }

  /** The head inserted into a permutation of the tail is a permutation of the whole. */
  lemma InsertedPerm<T>(s: seq<T>, t: seq<T>, r: seq<T>)
    requires s != [] && |t| == |s[1..]| && multiset(t) == multiset(s[1..])
    requires |r| == |t| + 1 && multiset(r) == multiset(t) + multiset{s[0]}
    ensures |r| == |s| && multiset(r) == multiset(s)
  {
    assert s == [s[0]] + s[1..];
  }

  lemma {:induction false} InsertSorted<T(!new)>(x: T, s: seq<T>, le: (T, T) -> bool)
    requires TotalPreorder(le)
    requires SortedBy(s, le)
    ensures SortedBy(Insert(x, s, le), le)
  {
    if s != [] && !le(x, s[0]) {
      var t := s[1..];
      var r := Insert(x, t, le);
      assert SortedBy(r, le) by {
        InsertSorted(x, t, le);
      }
      assert forall k :: 0 <= k < |r| ==> le(s[0], r[k]) by {
        assert forall i :: 0 <= i < |t| ==> t[i] == s[i + 1];
        BoundedPerm(s[0], x, t, r, le);
      }
      ConsSorted(s[0], r, le);
    }
  }

  /** A lower bound of `x` and of every element of `t` bounds each element of a
      permutation of `t` with `x` added. */
  lemma BoundedPerm<T>(h: T, x: T, t: seq<T>, r: seq<T>, le: (T, T) -> bool)
    requires multiset(r) == multiset(t) + multiset{x}
    requires le(h, x) && forall i :: 0 <= i < |t| ==> le(h, t[i])
    ensures forall k :: 0 <= k < |r| ==> le(h, r[k])
  {
    forall k | 0 <= k < |r| ensures le(h, r[k]) {
      assert r[k] in multiset(r);
      if r[k] != x {
        assert r[k] in multiset(t);
        var m :| 0 <= m < |t| && t[m] == r[k];
      }
    }
  }

  /** A lower bound of a sorted sequence can go in front of it. */
  lemma ConsSorted<T>(h: T, r: seq<T>, le: (T, T) -> bool)
    requires SortedBy(r, le) && forall k :: 0 <= k < |r| ==> le(h, r[k])
    ensures SortedBy([h] + r, le)
  {
    var q := [h] + r;
    forall i, j | 0 <= i < j < |q| ensures le(q[i], q[j]) {
      assert q[j] == r[j - 1];
      if i > 0 {
        assert q[i] == r[i - 1];
      }
    }
  }

  /** `SortBy` sorts, whenever `le` is a total preorder. */
  lemma {:induction false} SortBySorted<T(!new)>(s: seq<T>, le: (T, T) -> bool)
    requires TotalPreorder(le)
    ensures SortedBy(SortBy(s, le), le)
  {
    if s != [] {
      SortBySorted(s[1..], le);
      InsertSorted(s[0], SortBy(s[1..], le), le);
    }
  }

  /** The elements of `s` that `le` ranks equal to `x`, in their order in `s`. */
  function EqualTo<T>(s: seq<T>, le: (T, T) -> bool, x: T): (r: seq<T>)
    ensures |r| <= |s|
  {
    if s == [] then []
    else (if le(s[0], x) && le(x, s[0]) then [s[0]] else []) + EqualTo(s[1..], le, x)
  }

  lemma EqualToCons<T>(h: T, t: seq<T>, le: (T, T) -> bool, x: T)
    ensures EqualTo([h] + t, le, x) == (if le(h, x) && le(x, h) then [h] else []) + EqualTo(t, le, x)
  {
    assert ([h] + t)[0] == h && ([h] + t)[1..] == t;
  }

  /** Inserting `h` puts it after no element ranked equal to it. */
  lemma {:induction false} InsertEqualTo<T(!new)>(h: T, t: seq<T>, le: (T, T) -> bool, x: T)
    requires TotalPreorder(le)
    ensures EqualTo(Insert(h, t, le), le, x) == (if le(h, x) && le(x, h) then [h] else []) + EqualTo(t, le, x)
  {
    if t == [] {
      EqualToCons(h, [], le, x);
    } else if le(h, t[0]) {
      EqualToCons(h, t, le, x);
    } else {
      var t0, rest := t[0], t[1..];
      assert t == [t0] + rest;
      InsertEqualTo(h, rest, le, x);
      EqualToCons(t0, Insert(h, rest, le), le, x);
      EqualToCons(t0, rest, le, x);
      assert !(le(h, x) && le(x, h) && le(t0, x) && le(x, t0));
    }
  }

  /** `sorted` is stable: the elements ranked equal to any `x` keep their order. */
  lemma {:induction false} SortByStable<T(!new)>(s: seq<T>, le: (T, T) -> bool, x: T)
    requires TotalPreorder(le)
    ensures EqualTo(SortBy(s, le), le, x) == EqualTo(s, le, x)
  {
    if s != [] {
      SortByStable(s[1..], le, x);
      InsertEqualTo(s[0], SortBy(s[1..], le), le, x);
    }
  }
}
