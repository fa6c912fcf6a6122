/** Lists of pairs on their way into a packed value: sorting, removing duplicates, packing. */
module HstorePairs {
  import opened Bytes
  import opened Sorting
  import opened HstoreFormat
  import opened HstoreBuild
  import opened HstoreMap

  /** `Pairs` */
  datatype InPair = InPair(key: seq<byte>, val: seq<byte>, isnull: bool, needfree: bool)

  /** What is stored of a pair: the value of a null pair is not looked at. */
  function Content(p: InPair): Pair {
    Pair(p.key, if p.isnull then Null else Text(p.val))
  }

  function Contents(ps: seq<InPair>): (r: seq<Pair>)
    ensures |r| == |ps|
  {
    seq(|ps|, i requires 0 <= i < |ps| => Content(ps[i]))
  }

  function PairLen(p: InPair): nat {
    |p.key| + if p.isnull then 0 else |p.val|
  }

  /** The bytes of strings that the pairs need. */
  ghost function PairsLen(ps: seq<InPair>): nat {
    if ps == [] then 0 else PairsLen(ps[..|ps| - 1]) + PairLen(ps[|ps| - 1])
  }

  lemma PairsLenNext(ps: seq<InPair>, i: nat)
    requires i < |ps|
    ensures PairsLen(ps[..i+1]) == PairsLen(ps[..i]) + PairLen(ps[i])
  {
    assert ps[..i+1][..i] == ps[..i];
  }

  lemma {:induction false} PairsLenGrows(ps: seq<InPair>, i: nat)
    requires i <= |ps|
    ensures PairsLen(ps[..i]) <= PairsLen(ps)
    decreases |ps| - i
  {
    if i < |ps| {
      PairsLenNext(ps, i);
      PairsLenGrows(ps, i + 1);
    } else {
      assert ps[..i] == ps;
    }
  }

  // ----- Sorting and removing duplicates -----

  /** `comparePairs`: by key, and among equal keys those that need no freeing first. */
  function ComparePairs(a: InPair, b: InPair): int {
    if |a.key| == |b.key| then
      var res := Compare(a.key, b.key);
      if res != 0 then res
      else if b.needfree == a.needfree then 0
      else if a.needfree then 1 else -1
    else if |a.key| > |b.key| then 1 else -1
  }

  function PairLe(): (InPair, InPair) -> bool {
    (x: InPair, y: InPair) => ComparePairs(x, y) <= 0
  }

  /** The order compares keys first. */
  lemma CompareKeys(a: InPair, b: InPair)
    ensures KeyCmp(a.key, b.key) < 0 ==> ComparePairs(a, b) < 0
    ensures KeyCmp(a.key, b.key) == 0 <==> a.key == b.key
    ensures KeyCmp(a.key, b.key) > 0 ==> ComparePairs(a, b) > 0
    ensures KeyCmp(a.key, b.key) == -KeyCmp(b.key, a.key)
  {
    KeyCmpOrder(a.key, b.key);
  }

  /** The order of pairs, told by the keys: what needs freeing comes after what does not. */
  lemma ComparePairsSign(a: InPair, b: InPair)
    ensures ComparePairs(a, b) < 0 <==> KeyBefore(a.key, b.key) || (a.key == b.key && !a.needfree && b.needfree)
    ensures ComparePairs(a, b) == 0 <==> a.key == b.key && a.needfree == b.needfree
  {
    CompareSign(a.key, b.key);
    KeyCmpSign(a.key, b.key);
  }

  lemma PairLeOrder()
    ensures TotalPreorder(PairLe())
  {
    forall x: InPair, y: InPair ensures ComparePairs(x, y) <= 0 || ComparePairs(y, x) <= 0 {
      CompareKeys(x, y);
      CompareKeys(y, x);
    }
    forall x: InPair, y: InPair, z: InPair | ComparePairs(x, y) <= 0 && ComparePairs(y, z) <= 0 ensures ComparePairs(x, z) <= 0 {
      CompareTransitive(x, y, z);
    }
  }

  lemma CompareTransitive(x: InPair, y: InPair, z: InPair)
    requires ComparePairs(x, y) <= 0 && ComparePairs(y, z) <= 0
    ensures ComparePairs(x, z) <= 0
  {
    CompareKeys(x, y);
    CompareKeys(y, z);
    CompareKeys(x, z);
    KeyCmpTransitive(x.key, y.key, z.key);
  }

  ghost predicate StrictKeys(ps: seq<InPair>) {
    forall i, j :: 0 <= i < j < |ps| ==> KeyCmp(ps[i].key, ps[j].key) < 0
  }

  ghost predicate HasKey(ps: seq<InPair>, key: seq<byte>) {
    exists i :: 0 <= i < |ps| && ps[i].key == key
  }

  /** `kept` has one pair of `all` for each of its keys, in order of keys. */
  ghost predicate Unique(kept: seq<InPair>, all: seq<InPair>) {
    && StrictKeys(kept) && (forall i :: 0 <= i < |kept| ==> kept[i] in all)
    && forall i :: 0 <= i < |all| ==> HasKey(kept, all[i].key)
  }

  /** What was kept needs freeing only if every pair of its key does. */
  ghost predicate Spares(kept: seq<InPair>, all: seq<InPair>) {
    forall i, j :: 0 <= i < |kept| && 0 <= j < |all| && kept[i].key == all[j].key && kept[i].needfree ==> all[j].needfree
  }

  /** The first `n` pairs of a sorted list are squeezed into `kept`. */
  ghost predicate Squeezed(kept: seq<InPair>, was: seq<InPair>, n: nat) {
    && 0 < n <= |was| && kept != [] && Unique(kept, was[..n]) && kept[|kept| - 1].key == was[n-1].key
    && Spares(kept, was[..n])
  }

  lemma SparesSame(kept: seq<InPair>, was: seq<InPair>, n: nat)
    requires Squeezed(kept, was, n) && n < |was| && was[n].key == kept[|kept| - 1].key && Sorted(was, PairLe())
    ensures Spares(kept, was[..n+1])
  {
    var w := was[..n+1];
    forall i, j | 0 <= i < |kept| && 0 <= j < |w| && kept[i].key == w[j].key && kept[i].needfree ensures w[j].needfree {
      if j < n {
        assert w[j] == was[..n][j];
      } else {
        assert kept[i] in was[..n];
        var m :| 0 <= m < n && was[m] == kept[i];
        assert PairLe()(was[m], was[n]);
        ComparePairsSign(was[m], was[n]);
      }
    }
  }

  lemma SparesNew(kept: seq<InPair>, was: seq<InPair>, n: nat)
    requires Squeezed(kept, was, n) && n < |was| && Below(Contents(kept), was[n].key)
    ensures Spares(kept + [was[n]], was[..n+1])
  {
    var next, w := kept + [was[n]], was[..n+1];
    KeyCmpOrder(was[n].key, was[n].key);
    forall i | 0 <= i < |kept| ensures kept[i].key != was[n].key { assert Contents(kept)[i].key == kept[i].key; }
    forall i, j | 0 <= i < |next| && 0 <= j < |w| && next[i].key == w[j].key && next[i].needfree ensures w[j].needfree {
      if j < n {
        assert w[j] == was[..n][j];
        assert HasKey(kept, was[..n][j].key);
      }
    }
  }

  lemma SqueezeSame(kept: seq<InPair>, was: seq<InPair>, n: nat)
    requires Squeezed(kept, was, n) && n < |was| && was[n].key == kept[|kept| - 1].key && Sorted(was, PairLe())
    ensures Squeezed(kept, was, n + 1)
  {
    SparesSame(kept, was, n);
    var w := was[..n+1];
    forall i | 0 <= i < |w| ensures HasKey(kept, w[i].key) {
      if i < n { assert HasKey(kept, was[..n][i].key); }
    }
    forall i | 0 <= i < |kept| ensures kept[i] in was[..n+1] { assert kept[i] in was[..n]; }
  }

  lemma SqueezeNew(kept: seq<InPair>, was: seq<InPair>, n: nat)
    requires Squeezed(kept, was, n) && n < |was| && was[n].key != kept[|kept| - 1].key && Sorted(was, PairLe())
    ensures Squeezed(kept + [was[n]], was, n + 1)
  {
    var next := kept + [was[n]];
    assert PairLe()(was[n-1], was[n]);
    CompareKeys(was[n-1], was[n]);
    forall i | 0 <= i < |kept| ensures KeyCmp(kept[i].key, was[n].key) < 0 {
      if i < |kept| - 1 { KeyCmpTransitive(kept[i].key, was[n-1].key, was[n].key); }
    }
    SparesNew(kept, was, n);
    var w := was[..n+1];
    forall i | 0 <= i < |w| ensures HasKey(next, w[i].key) {
      if i < n {
        assert HasKey(kept, was[..n][i].key);
        var j :| 0 <= j < |kept| && kept[j].key == was[i].key;
        assert next[j].key == was[i].key;
      } else {
        assert next[|kept|].key == was[i].key;
      }
    }
    forall i | 0 <= i < |next| ensures next[i] in was[..n+1] {
      if i < |kept| { assert kept[i] in was[..n]; } else { assert was[..n+1][n] == next[i]; }
    }
  }

  /** The array while duplicates are squeezed out: `res` is the last kept pair, `ptr` the next to read, and
      `buflen` counts the kept pairs before the last. */
  ghost predicate Squeezing(d: seq<InPair>, was: seq<InPair>, l: nat, ptr: nat, res: nat, buflen: nat) {
    && |was| == l <= |d| && res < ptr <= l && (forall k :: ptr <= k < l ==> d[k] == was[k])
    && Squeezed(d[..res + 1], was, ptr) && buflen == PairsLen(d[..res + 1][..res])
  }

  lemma SqueezingDrops(d: seq<InPair>, was: seq<InPair>, l: nat, ptr: nat, res: nat, buflen: nat)
    requires Squeezing(d, was, l, ptr, res, buflen) && ptr < l && d[ptr].key == d[res].key && Sorted(was, PairLe())
    ensures Squeezing(d, was, l, ptr + 1, res, buflen)
  {
    SqueezeSame(d[..res + 1], was, ptr);
  }

  lemma SqueezingKeeps(d: seq<InPair>, was: seq<InPair>, l: nat, ptr: nat, res: nat, buflen: nat)
    requires Squeezing(d, was, l, ptr, res, buflen) && ptr < l && d[ptr].key != d[res].key && Sorted(was, PairLe())
    ensures Squeezing(d[res + 1 := d[ptr]], was, l, ptr + 1, res + 1, buflen + PairLen(d[res]))
  {
    var kept, d' := d[..res + 1], d[res + 1 := d[ptr]];
    SqueezeNew(kept, was, ptr);
    assert d'[..res + 2] == kept + [was[ptr]];
    assert d'[..res + 2][..res + 1] == kept;
    PairsLenNext(kept, res);
    assert kept[..res+1] == kept;
  }

  /** One round of the loop: the pair at `ptr` is dropped or moved behind the last kept one. */
  method SqueezeOne(a: array<InPair>, l: nat, ptr: nat, res: nat, buflen: nat, ghost was: seq<InPair>) returns (r: nat, bl: nat)
    requires l <= a.Length && Sorted(was, PairLe()) && Squeezing(a[..], was, l, ptr, res, buflen) && ptr < l
    modifies a
    ensures Squeezing(a[..], was, l, ptr + 1, r, bl)
  {
    r, bl := res, buflen;
    ghost var d := a[..];
    CompareAntisymmetric(a[ptr].key, a[res].key);
    if |a[ptr].key| == |a[res].key| && Compare(a[ptr].key, a[res].key) == 0 {
      SqueezingDrops(d, was, l, ptr, res, buflen);
    } else {
      SqueezingKeeps(d, was, l, ptr, res, buflen);
      bl := bl + PairLen(a[res]);
      r := res + 1;
      if r != ptr {
        a[r] := a[ptr];
      }
      assert a[..] == d[r := d[ptr]];
    }
  }

  /** `hstoreUniquePairs`: sorts the pairs and keeps one for each key; `buflen` is what they need. */
  method HstoreUniquePairs(a: array<InPair>, l: nat) returns (n: nat, buflen: nat)
    requires l <= a.Length
    modifies a
    ensures n <= l && Unique(a[..n], old(a[..l])) && buflen == PairsLen(a[..n])
    ensures InKeyOrder(Contents(a[..n])) && Spares(a[..n], old(a[..l]))
  {
    buflen := 0;
    if l < 2 {
      if l == 1 {
        buflen := PairLen(a[0]);
        SingleUnique(a[0]);
        assert a[..1] == [a[0]];
      }
      return l, buflen;
    }
    ghost var all := a[..l];
    SortArray(a, l);
    ghost var was := a[..l];
    n, buflen := SqueezeAll(a, l);
    SameUnique(a[..n], was, all);
    SameSpares(a[..n], was, all);
    UniqueInOrder(a[..n], all);
  }

  method SqueezeAll(a: array<InPair>, l: nat) returns (n: nat, buflen: nat)
    requires 0 < l <= a.Length && Sorted(a[..l], PairLe())
    modifies a
    ensures n <= l && Unique(a[..n], old(a[..l])) && Spares(a[..n], old(a[..l])) && buflen == PairsLen(a[..n])
  {
    ghost var was := a[..l];
    var res;
    res, buflen := SqueezeLoop(a, l, was);
    EndSqueeze(a[..], was, l, l, res, buflen);
    assert a[..][..res + 1] == a[..res + 1];
    buflen := buflen + PairLen(a[res]);
    n := res + 1;
  }

  method SqueezeLoop(a: array<InPair>, l: nat, ghost was: seq<InPair>) returns (res: nat, buflen: nat)
    requires 0 < l <= a.Length && was == a[..l] && Sorted(was, PairLe())
    modifies a
    ensures Squeezing(a[..], was, l, l, res, buflen)
  {
    var ptr: nat := 1;
    res, buflen := 0, 0;
    StartSqueeze(was, a[..], l);
    while ptr < l
      invariant Squeezing(a[..], was, l, ptr, res, buflen)
    {
      res, buflen := SqueezeOne(a, l, ptr, res, buflen, was);
      ptr := ptr + 1;
    }
  }

  lemma UniqueInOrder(kept: seq<InPair>, all: seq<InPair>)
    requires Unique(kept, all)
    ensures InKeyOrder(Contents(kept))
  {
    SortedIffInOrder(Contents(kept));
  }

  lemma SingleUnique(p: InPair)
    ensures Unique([p], [p]) && Spares([p], [p]) && PairsLen([p]) == PairLen(p)
  {
    assert [p][0].key == p.key;
    assert PairsLen([p][..0]) == 0;
  }

  lemma StartSqueeze(was: seq<InPair>, d: seq<InPair>, l: nat)
    requires 0 < l <= |d| && was == d[..l]
    ensures Squeezing(d, was, l, 1, 0, 0)
  {
    SingleUnique(was[0]);
    assert d[..1] == [was[0]] == was[..1];
  }

  lemma EndSqueeze(d: seq<InPair>, was: seq<InPair>, l: nat, ptr: nat, res: nat, buflen: nat)
    requires Squeezing(d, was, l, ptr, res, buflen) && ptr == l
    ensures Unique(d[..res + 1], was) && Spares(d[..res + 1], was) && PairsLen(d[..res + 1]) == buflen + PairLen(d[res])
  {
    PairsLenNext(d[..res + 1], res);
    assert d[..res + 1][..res + 1] == d[..res + 1];
    assert was[..l] == was;
  }

  lemma SameUnique(kept: seq<InPair>, was: seq<InPair>, all: seq<InPair>)
    requires Unique(kept, was) && multiset(was) == multiset(all)
    ensures Unique(kept, all)
  {
    forall i | 0 <= i < |kept| ensures kept[i] in all { assert kept[i] in multiset(all); }
    forall i | 0 <= i < |all| ensures HasKey(kept, all[i].key) {
      assert all[i] in multiset(was);
      var j :| 0 <= j < |was| && was[j] == all[i];
      assert HasKey(kept, was[j].key);
    }
  }

  lemma SameSpares(kept: seq<InPair>, was: seq<InPair>, all: seq<InPair>)
    requires Spares(kept, was) && multiset(was) == multiset(all)
    ensures Spares(kept, all)
  {
    forall i, j | 0 <= i < |kept| && 0 <= j < |all| && kept[i].key == all[j].key && kept[i].needfree ensures all[j].needfree {
      assert all[j] in multiset(was);
      var m :| 0 <= m < |was| && was[m] == all[j];
    }
  }

  /** `qsort` of the first `l` pairs. */
  method SortArray(a: array<InPair>, l: nat)
    requires l <= a.Length
    modifies a
    ensures multiset(a[..l]) == multiset(old(a[..l])) && Sorted(a[..l], PairLe())
  {
    PairLeOrder();
    var s := Sort(a[..l], PairLe());
    assert |s| == |multiset(s)| == |multiset(a[..l])| == l;
    CopyBack(a, s);
  }

  method CopyBack(a: array<InPair>, s: seq<InPair>)
    requires |s| <= a.Length
    modifies a
    ensures a[..|s|] == s
  {
    var i := 0;
    while i < |s|
      invariant 0 <= i <= |s| && forall k :: 0 <= k < i ==> a[k] == s[k]
    {
      a[i] := s[i];
      i := i + 1;
    }
  }

  // ----- Packing -----

  datatype Outcome<T> = Done(value: T) | TooLarge

  /** `CALCDATASIZE` */
  function DataSize(n: nat, len: nat): nat {
    8 * n + HSHRDSIZE + len
  }

  /** `hstorePairs`: packs the pairs in the order given; `palloc` refuses what is too large. */
  method HstorePairs(pairs: seq<InPair>, buflen: nat) returns (r: Outcome<HStore>)
    requires buflen == PairsLen(pairs)
    ensures r.TooLarge? <==> 8 + 8 * |pairs| + PairsLen(pairs) > 0x3fff_ffff
    ensures r.Done? ==> Structured(r.value) && Decode(r.value) == Contents(pairs)
  {
    var len := DataSize(|pairs|, buflen);
    if len > MaxAllocSize {
      return TooLarge;
    }
    var b := new Builder(8 * |pairs| + buflen, |pairs|);
    var i := 0;
    while i < |pairs|
      invariant 0 <= i <= |pairs| && fresh(b) && fresh(b.data) && Adding(b, pairs, i)
    {
      AddPair(b, pairs, i);
      i := i + 1;
    }
    assert Contents(pairs)[..i] == Contents(pairs);
    var hs := b.Finalize(|pairs|);
    return Done(hs);
  }

  /** The value holds the first `i` pairs and has room for all. */
  ghost predicate Adding(b: Builder, pairs: seq<InPair>, i: nat)
    reads b, b.data
  {
    && i <= |pairs| && b.Valid() && b.count == |pairs| && b.items == i && b.ptr == PairsLen(pairs[..i])
    && b.data.Length == 8 * |pairs| + PairsLen(pairs) && b.pairs == Contents(pairs)[..i]
  }

  method AddPair(b: Builder, pairs: seq<InPair>, i: nat)
    requires i < |pairs| && Adding(b, pairs, i)
    modifies b, b.data
    ensures b.data == old(b.data) && Adding(b, pairs, i + 1)
  {
    PairsLenNext(pairs, i);
    PairsLenGrows(pairs, i + 1);
    assert Contents(pairs)[..i+1] == Contents(pairs)[..i] + [Content(pairs[i])];
    b.AddItem(pairs[i].key, pairs[i].val, pairs[i].isnull);
  }

  // ----- Key arrays -----

  const MaxPairs := MaxAllocSize / 40

  /** The list has the non-null elements of the array as its keys, in order. */
  ghost predicate KeysOfArray(pairs: seq<Pair>, a: seq<Value>) {
    SortedKeys(pairs) && forall k :: k in MapOf(pairs) <==> Text(k) in a
  }

  /** The non-null elements, in array order. */
  ghost function Elements(a: seq<Value>): seq<InPair> {
    if a == [] then []
    else Elements(a[..|a| - 1]) + if a[|a| - 1].Null? then [] else [InPair(a[|a| - 1].bytes, [], true, false)]
  }

  lemma ElementsNext(a: seq<Value>, i: nat)
    requires i < |a|
    ensures Elements(a[..i+1]) == Elements(a[..i]) + if a[i].Null? then [] else [InPair(a[i].bytes, [], true, false)]
  {
    assert a[..i+1][..i] == a[..i];
  }

  lemma {:induction false} ElementKeys(a: seq<Value>, k: seq<byte>)
    ensures HasKey(Elements(a), k) <==> Text(k) in a
  {
    if a != [] {
      var n := |a| - 1;
      ElementKeys(a[..n], k);
      assert a == a[..n] + [a[n]];
      var es := Elements(a[..n]);
      if HasKey(es, k) {
        var i :| 0 <= i < |es| && es[i].key == k;
        assert Elements(a)[i].key == k;
      }
      if a[n] == Text(k) { assert Elements(a)[|es|].key == k; }
    }
  }

  lemma UniqueKeys(kept: seq<InPair>, all: seq<InPair>, k: seq<byte>)
    requires Unique(kept, all)
    ensures SortedKeys(Contents(kept)) && (k in MapOf(Contents(kept)) <==> HasKey(all, k))
  {
    MapKeys(Contents(kept), k);
    if k in MapOf(Contents(kept)) {
      var i :| 0 <= i < |kept| && Contents(kept)[i].key == k;
      assert kept[i] in all;
    }
    if HasKey(all, k) {
      var i :| 0 <= i < |all| && all[i].key == k;
      assert HasKey(kept, all[i].key);
      var j :| 0 <= j < |kept| && kept[j].key == k;
      assert Contents(kept)[j].key == k;
    }
  }

  /** `hstoreArrayToPairs`: the non-null elements as keys, sorted and without duplicates. */
  method HstoreArrayToPairs(a: seq<Value>) returns (r: Outcome<seq<InPair>>)
    ensures r.TooLarge? <==> |a| > 26843545
    ensures r.Done? ==> KeysOfArray(Contents(r.value), a)
  {
    if |a| > MaxPairs {
      return TooLarge;
    }
    var pairs := new InPair[|a|](_ => InPair([], [], false, false));
    var i, j := 0, 0;
    while i < |a|
      invariant 0 <= j <= i <= |a| && pairs[..j] == Elements(a[..i])
    {
      ElementsNext(a, i);
      if a[i].Text? {
        pairs[j] := InPair(a[i].bytes, [], true, false);
        j := j + 1;
      }
      i := i + 1;
    }
    assert a[..i] == a;
    ghost var all := pairs[..j];
    var n, bufsiz := HstoreUniquePairs(pairs, j);
    forall k ensures k in MapOf(Contents(pairs[..n])) <==> Text(k) in a {
      ElementKeys(a, k);
      UniqueKeys(pairs[..n], all, k);
    }
    UniqueKeys(pairs[..n], all, []);
    return Done(pairs[..n]);
  }
}
