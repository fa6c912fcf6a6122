/** `gist__int_ops`: the array tools of `_int_tool.c` and the index methods of `_int_gist.c`. */
module IntGist {
  import opened Basics
  import opened RangeCover
  import opened IntCompress
  import opened Sorting
  import G = GistTree
  import QG = QueryGrammar
  import QI = QueryItems

  ghost predicate Subset(a: seq<int>, b: seq<int>) {
    forall x :: x in a ==> x in b
  }

  ghost predicate Meets(a: seq<int>, b: seq<int>) {
    exists x :: x in a && x in b
  }

  ghost predicate SameElements(a: seq<int>, b: seq<int>) {
    Subset(a, b) && Subset(b, a)
  }

  // ----- Array tools -----

  /** `inner_int_contains` on sorted arrays without duplicates. */
  method InnerIntContains(a: seq<int>, b: seq<int>) returns (r: bool)
    requires Ascending(a) && Ascending(b)
    ensures r <==> Subset(b, a)
  {
    var i, j, n := 0, 0, 0;
    while i < |a| && j < |b|
      invariant 0 <= i <= |a| && 0 <= j <= |b| && n == j
      invariant forall k :: 0 <= k < j ==> b[k] in a
      invariant forall k, m :: 0 <= k < i && j <= m < |b| ==> a[k] < b[m]
    {
      if a[i] < b[j] {
        i := i + 1;
      } else if a[i] == b[j] {
        n, i, j := n + 1, i + 1, j + 1;
      } else {
        assert b[j] !in a;
        break;
      }
    }
    r := n == |b|;
    if j < |b| {
      assert b[j] !in a;
      assert b[j] in b;
    }
  }

  /** `inner_int_overlap` on sorted arrays. */
  method InnerIntOverlap(a: seq<int>, b: seq<int>) returns (r: bool)
    requires NonDescending(a) && NonDescending(b)
    ensures r <==> Meets(a, b)
  {
    var i, j := 0, 0;
    while i < |a| && j < |b|
      invariant 0 <= i <= |a| && 0 <= j <= |b|
      invariant forall k :: 0 <= k < i ==> a[k] !in b
      invariant forall k :: 0 <= k < j ==> b[k] !in a
      decreases |a| - i + |b| - j
    {
      if a[i] < b[j] {
        assert a[i] !in b;
        i := i + 1;
      } else if a[i] == b[j] {
        ghost var x := a[i];
        assert x in a && x in b;
        return true;
      } else {
        assert b[j] !in a;
        j := j + 1;
      }
    }
    return false;
  }

  /** `kept` are the distinct elements of the first `n` elements of a sorted list. */
  ghost predicate Distinct(kept: seq<int>, was: seq<int>, n: nat)
    requires n <= |was|
  {
    && Ascending(kept) && SameElements(kept, was[..n])
    && (n > 0 ==> kept != [] && kept[|kept| - 1] == was[n-1])
  }

  lemma DistinctStep(kept: seq<int>, was: seq<int>, n: nat)
    requires n < |was| && NonDescending(was) && Distinct(kept, was, n)
    ensures n > 0 && was[n] == kept[|kept| - 1] ==> Distinct(kept, was, n + 1)
    ensures n == 0 || was[n] != kept[|kept| - 1] ==> Distinct(kept + [was[n]], was, n + 1)
  {
    assert was[..n+1] == was[..n] + [was[n]];
    if kept != [] {
      var last := kept[|kept| - 1];
      assert last in kept;
      assert last in was[..n];
    }
  }

  /** The array while duplicates are squeezed out: `dr` is the last kept element, `tmp` the next to read. */
  ghost predicate Squeezing(d: seq<int>, was: seq<int>, tmp: int, dr: int) {
    && 0 <= tmp <= |was| <= |d| && 0 < |was| && (if tmp == 0 then dr == 0 else 0 <= dr < tmp)
    && (forall k :: tmp <= k < |was| ==> d[k] == was[k])
    && (tmp > 0 ==> Distinct(d[..dr+1], was, tmp))
  }

  method SqueezeOne(a: array<int>, tmp: int, dr0: int, ghost was: seq<int>) returns (dr: int)
    requires NonDescending(was) && tmp < |was| && Squeezing(a[..], was, tmp, dr0)
    modifies a
    ensures Squeezing(a[..], was, tmp + 1, dr)
  {
    dr := dr0;
    ghost var kept := if tmp == 0 then [] else a[..][..dr+1];
    DistinctStep(kept, was, tmp);
    if a[tmp] != a[dr] {
      dr := dr + 1;
      a[dr] := a[tmp];
      assert a[..][..dr+1] == kept + [was[tmp]];
    } else if tmp == 0 {
      assert a[..][..dr+1] == kept + [was[tmp]];
    }
  }

  /** `_int_unique`: squeezes out duplicates in place. */
  method IntUnique(a: array<int>, num: nat) returns (n: nat)
    requires num <= a.Length && NonDescending(a[..num])
    modifies a
    ensures n <= num && Ascending(a[..n]) && SameElements(a[..n], old(a[..num]))
  {
    if num < 2 {
      return num;
    }
    ghost var was := a[..num];
    var tmp, dr := 0, 0;
    while tmp < num
      invariant Squeezing(a[..], was, tmp, dr)
    {
      dr := SqueezeOne(a, tmp, dr, was);
      tmp := tmp + 1;
    }
    assert was[..num] == was && a[..][..dr+1] == a[..dr+1];
    return dr + 1;
  }

  /** `PREPAREARR`: sorted, without duplicates. */
  method PrepareArr(x: seq<int>) returns (r: seq<int>)
    ensures Ascending(r) && SameElements(r, x)
  {
    var le := (p: int, q: int) => p <= q;
    var s := Sort(x, le);
    SameMultiset(s, x);
    var a := new int[|s|](k => if 0 <= k < |s| then s[k] else 0);
    assert a[..|s|] == s;
    var n := IntUnique(a, |s|);
    r := a[..n];
  }

  lemma SameMultiset(a: seq<int>, b: seq<int>)
    requires multiset(a) == multiset(b)
    ensures SameElements(a, b)
  {
    forall x | x in a ensures x in b { assert x in multiset(b); }
    forall x | x in b ensures x in a { assert x in multiset(a); }
  }

  lemma NotEmpty(a: seq<int>, b: seq<int>)
    requires Subset(a, b)
    ensures a != [] ==> b != [] && a[0] in b
  {
    if a != [] {
      var x := a[0];
      assert x in a;
    }
  }

  /** A set has one list in ascending order. */
  lemma {:induction false} AscendingUnique(a: seq<int>, b: seq<int>)
    requires Ascending(a) && Ascending(b) && SameElements(a, b)
    ensures a == b
    decreases |a|
  {
    NotEmpty(a, b);
    NotEmpty(b, a);
    if a != [] {
      var i :| 0 <= i < |b| && b[i] == a[0];
      var j :| 0 <= j < |a| && a[j] == b[0];
      assert a[0] == b[0];
      TailSubset(a, b);
      TailSubset(b, a);
      AscendingUnique(a[1..], b[1..]);
    }
  }

  lemma TailSubset(a: seq<int>, b: seq<int>)
    requires Ascending(a) && Subset(a, b) && a != [] && b != [] && a[0] == b[0]
    ensures Subset(a[1..], b[1..])
  {
    forall x | x in a[1..] ensures x in b[1..] {
      var k :| 1 <= k < |a| && a[k] == x;
      assert x in a;
      var m :| 0 <= m < |b| && b[m] == x;
    }
  }

  // ----- Union, compress and decompress -----

  ghost predicate IsUnion(u: seq<int>, keys: seq<seq<int>>) {
    Ascending(u) && forall x :: x in u <==> exists k :: 0 <= k < |keys| && x in keys[k]
  }

  /** `g_int_union`. */
  method GIntUnion(keys: seq<seq<int>>) returns (u: seq<int>)
    ensures IsUnion(u, keys)
  {
    var all: seq<int> := [];
    var i := 0;
    while i < |keys|
      invariant 0 <= i <= |keys|
      invariant forall x :: x in all <==> exists k :: 0 <= k < i && x in keys[k]
    {
      all := all + keys[i];
      i := i + 1;
    }
    u := PrepareArr(all);
  }

  const MAXNUMELTS := 67108863

  /** `internal_size`: the number of integers in the ranges, or -1 if that is no `int`. */
  method InternalSize(a: seq<int>) returns (size: int)
    requires |a| % 2 == 0 && Apart(PairRanges(a))
    ensures size == if |Integers(PairRanges(a))| <= 0x7fff_ffff then |Integers(PairRanges(a))| else -1
  {
    ghost var rs, k := PairRanges(a), 0;
    NoIntegers(rs[..0]);
    size := 0;
    var i := 0;
    while i < |a|
      invariant 0 <= i == 2 * k <= |a| && size == |Integers(rs[..k])|
    {
      SizeStep(a, rs, k);
      if i == 0 || a[i] != a[i-1] {
        size := size + a[i+1] - a[i] + 1;
      }
      i, k := i + 2, k + 1;
    }
    assert rs[..k] == rs;
    if size > 0x7fff_ffff || size < -0x8000_0000 {
      size := -1;
    }
  }

  lemma SizeStep(a: seq<int>, rs: seq<Range>, k: nat)
    requires |a| % 2 == 0 && rs == PairRanges(a) && Apart(rs) && 2 * k < |a|
    ensures |Integers(rs[..k+1])| == |Integers(rs[..k])| + a[2 * k + 1] - a[2 * k] + 1
    ensures k > 0 ==> a[2 * k] != a[2 * k - 1]
  {
    IntegersGrow(rs, k);
    assert rs[k] == Range(a[2 * k], a[2 * k + 1]);
    if k > 0 { assert rs[k-1] == Range(a[2 * k - 2], a[2 * k - 1]); }
  }

  /** The ranges hold no more integers than an array may have. */
  ghost predicate FewEnough(a: seq<int>)
    requires |a| % 2 == 0
  {
    |Integers(PairRanges(a))| <= 67108863
  }

  datatype Stored = Stored(key: seq<int>) | TooSparse

  /** What is stored for an internal key: the key itself if it is short, else its range compression. */
  ghost predicate StoredAs(u: seq<int>, key: seq<int>) {
    if |u| < 200 then key == u
    else |key| == 200 && exists starts: seq<int>, t: int :: |starts| == 100 && Packed(key, u, starts, t)
  }

  /** `g_int_compress` on an internal key. */
  method GIntCompress(u: seq<int>) returns (s: Stored)
    requires Ascending(u) && forall i :: 0 <= i < |u| ==> IsInt32(u[i])
    ensures s.Stored? ==> StoredAs(u, s.key) && (|u| >= 2 * MAXNUMRANGE ==> FewEnough(s.key))
    ensures s.TooSparse? ==> |u| >= 2 * MAXNUMRANGE && exists key :: StoredAs(u, key) && |key| == 2 * MAXNUMRANGE && !FewEnough(key)
  {
    if |u| < 2 * MAXNUMRANGE {
      return Stored(u);
    }
    ghost var starts, t;
    var key;
    key, starts, t := CompressRanges(u);
    PackedApart(key, u, starts, t);
    var lenr := InternalSize(key);
    assert StoredAs(u, key);
    if lenr < 0 || lenr > MAXNUMELTS {
      return TooSparse;
    }
    return Stored(key);
  }

  const INT_MAX := 0x7fff_ffff

  /** A range ends at the largest `int`. */
  ghost predicate ReachesMax(key: seq<int>)
    requires |key| % 2 == 0
  {
    exists k :: 0 <= k < |key| / 2 && PairRanges(key)[k].hi == 2147483647
  }

  /** What a stored key is read as. */
  ghost predicate ReadAs(key: seq<int>, k: seq<int>) {
    if |key| < 2 * MAXNUMRANGE then k == key
    else |key| % 2 == 0 && !ReachesMax(key) && Ascending(k) && forall x :: x in k <==> Held(PairRanges(key), x)
  }

  /** `Endless` stands for a loop that does not end: its counter cannot pass the largest `int`. */
  datatype Reading = Read(key: seq<int>) | TooBig | Endless

  /** `g_int_decompress`: lists every integer of every range. */
  method GIntDecompress(din: seq<int>) returns (r: Reading)
    requires |din| >= 2 * MAXNUMRANGE ==> |din| % 2 == 0 && Apart(PairRanges(din)) && forall k :: 0 <= k < |din| ==> IsInt32(din[k])
    ensures r.Read? ==> ReadAs(din, r.key)
    ensures r.TooBig? <==> |din| >= 2 * MAXNUMRANGE && !FewEnough(din)
    ensures r.Endless? <==> |din| >= 2 * MAXNUMRANGE && FewEnough(din) && ReachesMax(din)
  {
    if |din| < 2 * MAXNUMRANGE {
      return Read(din);
    }
    var lenr := InternalSize(din);
    if lenr < 0 || lenr > MAXNUMELTS {
      return TooBig;
    }
    var ends, dr := ListRanges(din);
    return if ends then Read(dr) else Endless;
  }

  /** The inner loop: one range, behind lower integers. */
  method ListRange(dr0: seq<int>, first: bool, lo: int, hi: int) returns (dr: seq<int>)
    requires Ascending(dr0) && (forall k :: 0 <= k < |dr0| ==> dr0[k] < lo) && (!first ==> dr0 != []) && lo <= hi < INT_MAX
    ensures Ascending(dr) && dr != [] && forall x :: x in dr <==> x in dr0 || lo <= x <= hi
  {
    dr := dr0;
    var j := lo;
    while j <= hi
      invariant lo <= j <= hi + 1 <= INT_MAX && Ascending(dr) && (j > lo || !first ==> dr != [])
      invariant forall k :: 0 <= k < |dr| ==> dr[k] < j
      invariant forall x :: x in dr <==> x in dr0 || lo <= x < j
    {
      if first || dr[|dr| - 1] != j {
        dr := dr + [j];
      }
      j := j + 1;
    }
  }

  method ListRanges(din: seq<int>) returns (ends: bool, dr: seq<int>)
    requires |din| % 2 == 0 && Apart(PairRanges(din)) && forall k :: 0 <= k < |din| ==> IsInt32(din[k])
    ensures ends <==> !ReachesMax(din)
    ensures ends ==> Ascending(dr) && forall x :: x in dr <==> Held(PairRanges(din), x)
  {
    ghost var rs := PairRanges(din);
    dr := [];
    var i := 0;
    while i < |din|
      invariant 0 <= i <= |din| && i % 2 == 0 && Ascending(dr) && (i > 0 ==> dr != [])
      invariant forall x :: x in dr <==> Held(rs[..i / 2], x)
      invariant forall k :: 0 <= k < i / 2 ==> rs[k].hi != INT_MAX
    {
      forall x ensures Held(rs[..i / 2 + 1], x) <==> Held(rs[..i / 2], x) || rs[i / 2].Holds(x) { HeldNext(rs, i / 2, x); }
      assert rs[i / 2] == Range(din[i], din[i+1]);
      if din[i+1] == INT_MAX {
        return false, [];
      }
      forall k | 0 <= k < |dr| ensures dr[k] < din[i] {
        assert dr[k] in dr;
        HeldBelow(rs, i / 2, dr[k]);
      }
      dr := ListRange(dr, i == 0, din[i], din[i+1]);
      i := i + 2;
    }
    assert rs[..i / 2] == rs;
    ends := true;
  }

  /** Storing and reading an internal key yields a sorted superset of it. */
  lemma ReadKeepsAll(u: seq<int>, key: seq<int>, k: seq<int>)
    requires Ascending(u) && StoredAs(u, key) && ReadAs(key, k)
    ensures Ascending(k) && Subset(u, k)
  {
    if |u| >= 2 * MAXNUMRANGE {
      var starts: seq<int>, t: int :| |starts| == MAXNUMRANGE && Packed(key, u, starts, t);
      PackedRanges(key, u, starts, t);
      forall x | x in u ensures x in k {
        var i :| 0 <= i < |u| && u[i] == x;
        RangesCover(u, starts, i, 0);
      }
    }
  }

  /** A long key with the largest `int` among its elements, and no other, is stored as ranges that cannot be read. */
  lemma MaxIsStored(u: seq<int>, key: seq<int>)
    requires Ascending(u) && (forall i :: 0 <= i < |u| ==> IsInt32(u[i])) && |u| >= 2 * MAXNUMRANGE && StoredAs(u, key)
    ensures |key| % 2 == 0 && (ReachesMax(key) <==> u[|u| - 1] == 2147483647)
  {
    var starts: seq<int>, t: int :| |starts| == MAXNUMRANGE && Packed(key, u, starts, t);
    PackedRanges(key, u, starts, t);
    var rs := PairRanges(key);
    assert rs[|starts| - 1].hi == u[|u| - 1];
    if ReachesMax(key) {
      var k :| 0 <= k < |key| / 2 && rs[k].hi == INT_MAX;
      StartBounds(starts, |u|, k);
      assert rs[k].hi == u[LastOf(starts, k, |u|)];
    }
  }

  /** The 200 largest `int`s. */
  function TopInts(): (u: seq<int>)
    ensures Ascending(u) && |u| == 200 && forall i :: 0 <= i < |u| ==> u[i] == 2147483448 + i
  {
    seq(2 * MAXNUMRANGE, i requires 0 <= i < 2 * MAXNUMRANGE => INT_MAX - 199 + i)
  }

  /** They are stored as ranges of no more than 200 integers. */
  lemma TopIntsAreFew(key: seq<int>)
    requires StoredAs(TopInts(), key)
    ensures |key| % 2 == 0 && FewEnough(key)
  {
    var u := TopInts();
    var starts: seq<int>, t: int :| |starts| == MAXNUMRANGE && Packed(key, u, starts, t);
    var d, one := Interval(INT_MAX - 200, INT_MAX), [Range(INT_MAX - 199, INT_MAX)];
    assert UnionOf(d, one) by {
      forall x ensures x in d <==> Held(one, x) { assert one[0].Holds(x) <==> x in d; }
    }
    CompressionIsOptimal(key, u, starts, t, Integers(PairRanges(key)), one, d);
    IntervalSize(INT_MAX - 200, INT_MAX);
  }

  /** An internal key that is stored and cannot be read again. */
  method StoreTopInts() returns (s: Stored, r: Reading)
    ensures s.Stored? && r == Endless
  {
    s := GIntCompress(TopInts());
    forall key: seq<int> | StoredAs(TopInts(), key) ensures |key| % 2 == 0 && FewEnough(key) { TopIntsAreFew(key); }
    MaxIsStored(TopInts(), s.key);
    StoredApart(TopInts(), s.key);
    r := GIntDecompress(s.key);
  }

  lemma StoredApart(u: seq<int>, key: seq<int>)
    requires Ascending(u) && (forall i :: 0 <= i < |u| ==> IsInt32(u[i])) && |u| >= 2 * MAXNUMRANGE && StoredAs(u, key)
    ensures |key| % 2 == 0 && Apart(PairRanges(key)) && forall k :: 0 <= k < |key| ==> IsInt32(key[k])
  {
    var starts: seq<int>, t: int :| |starts| == MAXNUMRANGE && Packed(key, u, starts, t);
    PackedApart(key, u, starts, t);
    forall k | 0 <= k < |key| ensures IsInt32(key[k]) { LaidInt32(key, u, starts, k); }
  }

  // ----- Consistent -----

  datatype Strategy =
    | Overlap(q: seq<int>) | Contains(q: seq<int>) | Same(q: seq<int>) | ContainedBy(q: seq<int>)
    | Boolean(t: QG.Tree) | Other

  ghost function Presence(a: seq<int>): int -> bool {
    v => v in a
  }

  /** The indexed operator on a stored array. */
  ghost predicate Satisfies(st: Strategy, a: seq<int>) {
    match st
    case Overlap(q) => Meets(a, q)
    case Contains(q) => Subset(q, a)
    case Same(q) => multiset(a) == multiset(q)
    case ContainedBy(q) => Subset(a, q)
    case Boolean(t) => QI.Eval(t, Presence(a))
    case Other => false
  }

  /** What `g_int_consistent` answers for a key, in terms of its elements. */
  ghost predicate Consistent(st: Strategy, key: seq<int>, leaf: bool) {
    match st
    case Overlap(q) => Meets(key, q)
    case Contains(q) => Subset(q, key)
    case Same(q) => if leaf then SameElements(key, q) else Subset(q, key)
    case ContainedBy(q) => if leaf then Subset(key, q) else Meets(key, q)
    case Boolean(t) => if leaf then QI.Eval(t, Presence(key)) else QI.EvalLoose(t, Presence(key))
    case Other => false
  }

  /** The array operators, told by each other and by the elements. */
  lemma StrategyLaws(a: seq<int>, q: seq<int>)
    ensures Satisfies(Contains(q), a) <==> Satisfies(ContainedBy(a), q)
    ensures Satisfies(Contains(q), a) <==> forall x :: x in q ==> x in a
    ensures Satisfies(Overlap(q), a) <==> exists x :: x in a && Satisfies(Contains([x]), q)
    ensures Satisfies(Same(q), a) ==> Satisfies(Contains(q), a) && Satisfies(ContainedBy(q), a) && |a| == |q|
    ensures Satisfies(Same(q + a), a + q) && (Satisfies(Same(q), a) <==> Satisfies(Same(q + [0]), a + [0]))
  {
    assert multiset(a + q) == multiset(q + a);
    assert multiset(a + [0]) == multiset(a) + multiset{0} && multiset(q + [0]) == multiset(q) + multiset{0};
    assert multiset(a) == multiset(a + [0]) - multiset{0} && multiset(q) == multiset(q + [0]) - multiset{0};
    if Satisfies(Same(q), a) {
      assert |multiset(a)| == |a| && |multiset(q)| == |q|;
      forall x ensures x in a <==> x in q { assert x in a <==> x in multiset(a); }
    }
    forall x | x in a && Satisfies(Contains([x]), q) ensures Meets(a, q) { assert x in [x]; }
    if x :| x in a && x in q { assert x in a && Satisfies(Contains([x]), q); }
  }

  /** On an internal page the test for an array operator holds if and only if some array of elements of the key
      satisfies the operator, for "contained by" one that is not empty. */
  lemma NodeAdmitsIff(st: Strategy, key: seq<int>)
    requires !st.Boolean?
    ensures Consistent(st, key, false) <==> exists a :: Subset(a, key) && Satisfies(st, a) && (st.ContainedBy? ==> a != [])
  {
    match st
    case Overlap(q) =>
      if Meets(key, q) { assert Subset(key, key) && Satisfies(st, key); }
      if a :| Subset(a, key) && Satisfies(st, a) { assert Meets(key, q); }
    case Contains(q) =>
      if Subset(q, key) { assert Subset(key, key) && Satisfies(st, key); }
    case Same(q) =>
      if Subset(q, key) { assert Satisfies(st, q); }
      if a :| Subset(a, key) && Satisfies(st, a) {
        forall x | x in q ensures x in a { assert x in multiset(a); }
      }
    case ContainedBy(q) =>
      if Meets(key, q) {
        var x :| x in key && x in q;
        assert Subset([x], key) && Satisfies(st, [x]) && [x] != [];
      }
      if a :| Subset(a, key) && Satisfies(st, a) && a != [] {
        var x := a[0];
        assert x in a;
        assert x in key && x in q;
      }
    case Other =>
  }

  /** `g_int_consistent` for the array strategies: the query is sorted first, the key already is. */
  method GIntConsistent(st: Strategy, key: seq<int>, leaf: bool) returns (r: bool)
    requires !st.Boolean? && Ascending(key)
    ensures r <==> Consistent(st, key, leaf)
  {
    if st.Other? {
      return false;
    }
    var query := PrepareArr(st.q);
    match st {
      case Overlap(q) =>
        r := InnerIntOverlap(key, query);
      case Same(q) =>
        if leaf {
          if SameElements(key, q) { AscendingUnique(key, query); }
          r := key == query;
        } else {
          r := InnerIntContains(key, query);
        }
      case Contains(q) =>
        r := InnerIntContains(key, query);
      case ContainedBy(q) =>
        if leaf {
          r := InnerIntContains(query, key);
        } else {
          r := InnerIntOverlap(key, query);
        }
    }
  }

  /** `execconsistent` as `g_int_consistent` calls it: negations count only on a leaf. */
  method ExecConsistent(items: seq<QI.Item>, key: seq<int>, leaf: bool, ghost t: QG.Tree) returns (r: bool)
    requires QI.Compiles(items, t) && QI.ShortLinks(t) && Ascending(key)
    ensures r <==> Consistent(Boolean(t), key, leaf)
  {
    r := QI.ExecuteArr(items, |items| - 1, leaf, key, t, Presence(key));
  }

  /** A leaf key answers for its array, up to the recheck for equality. */
  lemma LeafExact(st: Strategy, key: seq<int>, a: seq<int>)
    requires SameElements(key, a)
    ensures Satisfies(st, a) ==> Consistent(st, key, true)
    ensures !st.Same? && Consistent(st, key, true) ==> Satisfies(st, a)
  {
    if st.Same? && Satisfies(st, a) { SameMultiset(a, st.q); }
    if st.Boolean? { PresenceSame(st.t, key, a); }
  }

  lemma {:induction false} PresenceSame(t: QG.Tree, a: seq<int>, b: seq<int>)
    requires SameElements(a, b)
    ensures QI.Eval(t, Presence(a)) == QI.Eval(t, Presence(b))
  {
    match t
    case Val(v) =>
    case Not(x) => PresenceSame(x, a, b);
    case And(x, y) => PresenceSame(x, a, b); PresenceSame(y, a, b);
    case Or(x, y) => PresenceSame(x, a, b); PresenceSame(y, a, b);
  }

  /** A key that holds the elements of an array does not hide it, unless the array is empty and the
      strategy is "contained by". */
  lemma NodeSound(st: Strategy, key: seq<int>, a: seq<int>)
    requires Subset(a, key) && Satisfies(st, a) && (st.ContainedBy? ==> a != [])
    ensures Consistent(st, key, false)
  {
    match st
    case Same(q) => SameMultiset(a, q);
    case ContainedBy(q) =>
      NotEmpty(a, key);
      NotEmpty(a, q);
      var x := a[0];
      assert x in key && x in q;
    case Boolean(t) => QI.LooseIsSound(t, Presence(a), Presence(key));
    case _ =>
  }

  // ----- Whole trees -----

  /** A leaf key short enough not to be taken for ranges. */
  ghost predicate LeafKey(key: seq<int>, a: seq<int>) {
    Ascending(key) && SameElements(key, a) && |key| < 2 * MAXNUMRANGE
  }

  /** How a key came about: from one array, or from other keys by union, compression and decompression. */
  datatype Origin =
    | FromArray(a: seq<int>, leaf: seq<int>)
    | FromUnion(parts: seq<Origin>, u: seq<int>, stored: seq<int>, read: seq<int>)
  {
    ghost function Key(): seq<int> {
      if FromArray? then leaf else read
    }

    ghost predicate Built() {
      match this
      case FromArray(x, k) => LeafKey(k, x)
      case FromUnion(ps, v, s, k) =>
        && IsUnion(v, PartKeys(ps)) && StoredAs(v, s) && ReadAs(s, k)
        && forall i :: 0 <= i < |ps| ==> ps[i].Built()
    }

    ghost predicate Mentions(x: seq<int>) {
      match this
      case FromArray(y, _) => x == y
      case FromUnion(ps, _, _, _) => exists i :: 0 <= i < |ps| && ps[i].Mentions(x)
    }
  }

  ghost function PartKeys(ps: seq<Origin>): seq<seq<int>> {
    seq(|ps|, i requires 0 <= i < |ps| => ps[i].Key())
  }

  /** However a key came about, it is sorted and holds the elements of every array that went into it. */
  lemma {:induction false} BuiltCovers(o: Origin, a: seq<int>)
    requires o.Built() && o.Mentions(a)
    ensures Ascending(o.Key()) && Subset(a, o.Key())
  {
    match o
    case FromArray(_, _) =>
    case FromUnion(ps, u, s, k) =>
      var i :| 0 <= i < |ps| && ps[i].Mentions(a);
      BuiltCovers(ps[i], a);
      ReadKeepsAll(u, s, k);
      forall x | x in a ensures x in k { assert x in PartKeys(ps)[i]; }
  }

  ghost predicate Accounts(key: seq<int>, a: seq<int>) {
    exists o: Origin :: o.Built() && o.Key() == key && o.Mentions(a)
  }

  /** An empty array lies below an internal key that has no element of the query. */
  ghost predicate EmptyHidden(t: G.Tree<seq<int>, seq<int>>, q: seq<int>) {
    G.Hides(t, (k: seq<int>, leaf: bool) => Meets(k, q), (a: seq<int>) => a == [])
  }

  /** The scan of a tree built by these methods returns exactly the arrays that satisfy the operator; only
      equality needs its recheck. "Contained by" does so if and only if no empty array is hidden. */
  lemma SearchIsExact(t: G.Tree<seq<int>, seq<int>>, st: Strategy)
    requires G.WellFormed(t, LeafKey, Accounts)
    ensures G.Search(t, (k: seq<int>, leaf: bool) => Consistent(st, k, leaf), (a: seq<int>) => st.Same? ==> Satisfies(st, a))
         == G.Matching(G.Rows(t), (a: seq<int>) => Satisfies(st, a))
       <==> !(st.ContainedBy? && EmptyHidden(t, st.q))
  {
    var consistent := (k: seq<int>, leaf: bool) => Consistent(st, k, leaf);
    var sat := (a: seq<int>) => Satisfies(st, a);
    Truth(st);
    G.SearchExactIff(t, LeafKey, Accounts, consistent, (a: seq<int>) => st.Same? ==> Satisfies(st, a), sat);
    if st.ContainedBy? {
      HiddenAreEmpty(t, st.q);
    } else {
      var none := (a: seq<int>) => false;
      forall k: seq<int>, a: seq<int> | Accounts(k, a) && !consistent(k, false) ensures sat(a) <==> none(a) {
        if sat(a) { AccountedIsFound(st, k, a); }
      }
      G.HidesSame(t, LeafKey, Accounts, consistent, sat, none);
      G.NothingHidden(t, consistent, none);
    }
  }

  /** The tests are exact on leaf pages. */
  lemma Truth(st: Strategy)
    ensures G.LeafTruthful(LeafKey, (k: seq<int>, leaf: bool) => Consistent(st, k, leaf),
                           (a: seq<int>) => st.Same? ==> Satisfies(st, a), (a: seq<int>) => Satisfies(st, a))
  {
    forall k: seq<int>, a: seq<int> | LeafKey(k, a)
      ensures Satisfies(st, a) <==> Consistent(st, k, true) && (st.Same? ==> Satisfies(st, a))
    {
      LeafExact(st, k, a);
    }
  }

  lemma AccountedIsFound(st: Strategy, k: seq<int>, a: seq<int>)
    requires Accounts(k, a) && Satisfies(st, a) && (st.ContainedBy? ==> a != [])
    ensures Consistent(st, k, false)
  {
    var o: Origin :| o.Built() && o.Key() == k && o.Mentions(a);
    BuiltCovers(o, a);
    NodeSound(st, k, a);
  }

  /** What "contained by" hides are empty arrays. */
  lemma HiddenAreEmpty(t: G.Tree<seq<int>, seq<int>>, q: seq<int>)
    requires G.WellFormed(t, LeafKey, Accounts)
    ensures G.Hides(t, (k: seq<int>, leaf: bool) => Consistent(ContainedBy(q), k, leaf), (a: seq<int>) => Satisfies(ContainedBy(q), a))
       <==> EmptyHidden(t, q)
  {
    var st := ContainedBy(q);
    var consistent := (k: seq<int>, leaf: bool) => Consistent(st, k, leaf);
    var meets := (k: seq<int>, leaf: bool) => Meets(k, q);
    var sat := (a: seq<int>) => Satisfies(st, a);
    var empty := (a: seq<int>) => a == [];
    forall k: seq<int>, a: seq<int> | Accounts(k, a) && !consistent(k, false) ensures sat(a) <==> empty(a) {
      if sat(a) && a != [] { AccountedIsFound(st, k, a); }
    }
    G.HidesSame(t, LeafKey, Accounts, consistent, sat, empty);
    G.HidesByKey(t, consistent, meets, empty);
  }

  /** Whatever the tree, the scan returns the non-empty arrays that satisfy the operator. */
  lemma NonEmptyAreFound(t: G.Tree<seq<int>, seq<int>>, st: Strategy)
    requires G.WellFormed(t, LeafKey, Accounts)
    ensures var found := G.Search(t, (k: seq<int>, leaf: bool) => Consistent(st, k, leaf), (a: seq<int>) => st.Same? ==> Satisfies(st, a));
      G.Matching(found, (a: seq<int>) => a != [])
      == G.Matching(G.Matching(G.Rows(t), (a: seq<int>) => Satisfies(st, a)), (a: seq<int>) => a != [])
  {
    var consistent := (k: seq<int>, leaf: bool) => Consistent(st, k, leaf);
    var sat, nonEmpty := (a: seq<int>) => Satisfies(st, a), (a: seq<int>) => a != [];
    Truth(st);
    forall k: seq<int>, a: seq<int> | Accounts(k, a) && sat(a) && nonEmpty(a) ensures consistent(k, false) {
      AccountedIsFound(st, k, a);
    }
    G.PromisedAreFound(t, LeafKey, Accounts, consistent, (a: seq<int>) => st.Same? ==> Satisfies(st, a), sat, nonEmpty);
  }

  /** A leaf page with one empty array, and the key that union makes of it. */
  ghost function EmptyTree(): G.Tree<seq<int>, seq<int>> {
    G.InnerPage(G.Entry([], G.LeafPage([G.Row([], [])]), G.End))
  }

  /** "Contained by" misses an empty array: everything contains `{}`, but a search below `{1}` returns nothing. */
  lemma EmptyArrayMissed()
    ensures G.WellFormed(EmptyTree(), LeafKey, Accounts) && G.Row([], []) in G.Rows(EmptyTree()) && Satisfies(ContainedBy([1]), [])
    ensures G.Search(EmptyTree(), (k: seq<int>, leaf: bool) => Consistent(ContainedBy([1]), k, leaf), (a: seq<int>) => true) == []
  {
    var leaf := FromArray([], []);
    var o := FromUnion([leaf], [], [], []);
    assert PartKeys([leaf])[0] == [];
    assert IsUnion([], PartKeys([leaf]));
    assert o.parts[0].Built() && o.parts[0].Mentions([]);
    assert o.Built() && o.Key() == [] && o.Mentions([]);
    assert Accounts([], []);
    var t := EmptyTree();
    assert G.Rows(t.entries.sub) == [G.Row([], [])];
    assert G.EntryRows(t.entries) == [G.Row([], [])];
    assert !Consistent(ContainedBy([1]), [], false);
  }
}
