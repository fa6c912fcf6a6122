/** `qsort` and `qsort_arg`: a sorted permutation, in no particular order among equals. */
module Sorting {

  ghost predicate TotalPreorder<T(!new)>(le: (T, T) -> bool) {
    && (forall x: T, y: T :: le(x, y) || le(y, x))
    && (forall x: T, y: T, z: T :: le(x, y) && le(y, z) ==> le(x, z))
  }

  ghost predicate Sorted<T>(s: seq<T>, le: (T, T) -> bool) {
    forall i, j :: 0 <= i < j < |s| ==> le(s[i], s[j])
  }

  method Sort<T(!new)>(a: seq<T>, le: (T, T) -> bool) returns (s: seq<T>)
    requires TotalPreorder(le)
    ensures multiset(s) == multiset(a)
    ensures Sorted(s, le)
  {
    s := [];
    var n := 0;
    while n < |a|
      invariant 0 <= n <= |a|
      invariant multiset(s) == multiset(a[..n])
      invariant Sorted(s, le)
    {
      s := InsertInto(s, a[n], le);
      assert a[..n + 1] == a[..n] + [a[n]];
      n := n + 1;
    }
    assert a[..n] == a;
  }

  method InsertInto<T(!new)>(s: seq<T>, x: T, le: (T, T) -> bool) returns (r: seq<T>)
    requires TotalPreorder(le) && Sorted(s, le)
    ensures multiset(r) == multiset(s) + multiset{x}
    ensures Sorted(r, le)
  {
    var k := 0;
    while k < |s| && le(s[k], x)
      invariant 0 <= k <= |s|
      invariant forall i :: 0 <= i < k ==> le(s[i], x)
    {
      k := k + 1;
    }
    r := s[..k] + [x] + s[k..];
    assert s == s[..k] + s[k..];
    forall i, j | 0 <= i < j < |r| ensures le(r[i], r[j]) {
      if k < j && i == k { assert le(x, s[k]); assert j - 1 == k || le(s[k], s[j-1]); }
    }
  }
}
