/** Byte strings in `memcmp` order, shorter first on a tie: the order of `byteacmp`. */
module Bytes {

  type byte = b: int | 0 <= b < 256

  predicate IsCommonPrefix(a: seq<byte>, b: seq<byte>, k: nat) {
    && k <= |a| && k <= |b|
    && (forall i :: 0 <= i < k ==> a[i] == b[i])
    && (k < |a| && k < |b| ==> a[k] != b[k])
  }

  lemma {:induction false} CommonPrefixExists(a: seq<byte>, b: seq<byte>, k: nat)
    requires k <= |a| && k <= |b| && forall i :: 0 <= i < k ==> a[i] == b[i]
    ensures exists n: nat :: n <= |a| && IsCommonPrefix(a, b, n)
    decreases |a| - k
  {
    if k == |a| || k == |b| || a[k] != b[k] {
      assert IsCommonPrefix(a, b, k);
    } else {
      CommonPrefixExists(a, b, k + 1);
    }
  }

  /** The common prefix is the only length with these properties. */
  lemma CommonPrefixUnique(a: seq<byte>, b: seq<byte>, k: nat, k': nat)
    requires IsCommonPrefix(a, b, k) && IsCommonPrefix(a, b, k')
    ensures k == k'
  {}

  /** Length of the longest common prefix. */
  function CommonPrefix(a: seq<byte>, b: seq<byte>): (k: nat)
    ensures IsCommonPrefix(a, b, k)
  {
    CommonPrefixExists(a, b, 0);
    var k: nat :| k <= |a| && IsCommonPrefix(a, b, k);
    k
  }

  lemma KnownPrefix(a: seq<byte>, b: seq<byte>, k: nat)
    requires IsCommonPrefix(a, b, k)
    ensures CommonPrefix(a, b) == k
  {
    CommonPrefixUnique(a, b, k, CommonPrefix(a, b));
  }

  function Compare(a: seq<byte>, b: seq<byte>): int {
    var k := CommonPrefix(a, b);
    if k == |a| == |b| then 0
    else if k == |a| then -1
    else if k == |b| then 1
    else if a[k] < b[k] then -1 else 1
  }

  predicate LessEq(a: seq<byte>, b: seq<byte>) {
    Compare(a, b) <= 0
  }

  lemma CommonPrefixSymmetric(a: seq<byte>, b: seq<byte>)
    ensures CommonPrefix(a, b) == CommonPrefix(b, a)
  {
    KnownPrefix(a, b, CommonPrefix(b, a));
  }

  lemma CompareAntisymmetric(a: seq<byte>, b: seq<byte>)
    ensures Compare(a, b) == -Compare(b, a)
    ensures Compare(a, b) == 0 <==> a == b
  {
    CommonPrefixSymmetric(a, b);
  }

  /** For `a <= b <= c` the ends share no more than either shares with the middle. */
  lemma Between(a: seq<byte>, b: seq<byte>, c: seq<byte>)
    requires LessEq(a, b) && LessEq(b, c)
    ensures LessEq(a, c)
    ensures CommonPrefix(a, c) <= CommonPrefix(b, c)
    ensures CommonPrefix(a, c) <= CommonPrefix(a, b)
  {
    var x, y := CommonPrefix(a, b), CommonPrefix(b, c);
    var k := if x < y then x else y;
    if k < |a| && k < |c| {
      if x == y {
        assert k < |b| && a[k] < b[k] < c[k];
      }
    }
    KnownPrefix(a, c, k);
  }

  /** A prefix comes first, and lies between only its extensions. */
  lemma PrefixFirst(p: seq<byte>, a: seq<byte>)
    requires p <= a
    ensures LessEq(p, a) && CommonPrefix(p, a) == |p|
  {
    KnownPrefix(p, a, |p|);
  }

  /** `a` is a proper prefix of `b`, or has the smaller byte where they first differ. */
  ghost predicate Precedes(a: seq<byte>, b: seq<byte>) {
    exists k: nat :: k <= |a| && k < |b| && a[..k] == b[..k] && (k == |a| || a[k] < b[k])
  }

  lemma PrecedesAt(a: seq<byte>, b: seq<byte>, k: nat)
    requires k <= |a| && k < |b| && a[..k] == b[..k] && (k == |a| || a[k] < b[k])
    ensures Compare(a, b) == -1
  {
    forall i | 0 <= i < k ensures a[i] == b[i] { assert a[..k][i] == b[..k][i]; }
    KnownPrefix(a, b, k);
  }

  lemma BelowPrecedes(a: seq<byte>, b: seq<byte>)
    ensures Compare(a, b) < 0 <==> Precedes(a, b)
  {
    if Compare(a, b) < 0 {
      var k := CommonPrefix(a, b);
      assert a[..k] == b[..k];
    }
    if Precedes(a, b) {
      var k: nat :| k <= |a| && k < |b| && a[..k] == b[..k] && (k == |a| || a[k] < b[k]);
      PrecedesAt(a, b, k);
    }
  }

  /** The sign of a comparison, told by the bytes. */
  lemma CompareSign(a: seq<byte>, b: seq<byte>)
    ensures Compare(a, b) == if Precedes(a, b) then -1 else if Precedes(b, a) then 1 else 0
    ensures !(Precedes(a, b) && Precedes(b, a))
    ensures a == b <==> !Precedes(a, b) && !Precedes(b, a)
  {
    BelowPrecedes(a, b);
    BelowPrecedes(b, a);
    CompareAntisymmetric(a, b);
  }
}
