/** `gist__intbig_ops`: hashed bit signatures and the index methods of `_intbig_gist.c`. */
module IntbigGist {
  import opened IG = IntGist
  import opened Sorting
  import G = GistTree
  import QG = QueryGrammar
  import QI = QueryItems

  const SIGLEN := 252
  const SIGLENBIT := 2016

  /** `BITVEC` */
  type Sign = s: seq<bv8> | |s| == SIGLEN witness seq(SIGLEN, _ => 0)

  /** `0x01 << k` */
  function Mask(k: nat): bv8
    requires k < 8
  {
    [0x01, 0x02, 0x04, 0x08, 0x10, 0x20, 0x40, 0x80][k]
  }

  predicate ByteBit(b: bv8, k: nat)
    requires k < 8
  {
    b & Mask(k) != 0
  }

  predicate GetBit(s: Sign, i: nat)
    requires i < SIGLENBIT
  {
    ByteBit(s[i / 8], i % 8)
  }

  function SetBit(s: Sign, i: nat): Sign
    requires i < SIGLENBIT
  {
    s[i / 8 := s[i / 8] | Mask(i % 8)]
  }

  /** `HASHVAL`: the value as an unsigned 32-bit integer, modulo the number of bits. */
  function HashVal(v: int): (h: nat)
    ensures h < SIGLENBIT
  {
    (v % 0x1_0000_0000) % SIGLENBIT
  }

  lemma OrBit(b: bv8, c: bv8, k: nat)
    requires k < 8
    ensures ByteBit(b | c, k) == (ByteBit(b, k) || ByteBit(c, k))
  {
    match k
    case 0 => assert (b | c) & 0x01 == (b & 0x01) | (c & 0x01);
    case 1 => assert (b | c) & 0x02 == (b & 0x02) | (c & 0x02);
    case 2 => assert (b | c) & 0x04 == (b & 0x04) | (c & 0x04);
    case 3 => assert (b | c) & 0x08 == (b & 0x08) | (c & 0x08);
    case 4 => assert (b | c) & 0x10 == (b & 0x10) | (c & 0x10);
    case 5 => assert (b | c) & 0x20 == (b & 0x20) | (c & 0x20);
    case 6 => assert (b | c) & 0x40 == (b & 0x40) | (c & 0x40);
    case _ => assert (b | c) & 0x80 == (b & 0x80) | (c & 0x80);
  }

  lemma MaskBit(j: nat, k: nat)
    requires j < 8 && k < 8
    ensures ByteBit(Mask(j), k) == (j == k)
  {}

  lemma FullBit(k: nat)
    requires k < 8
    ensures ByteBit(0xff, k)
  {}

  lemma SetBitBits(s: Sign, i: nat, j: nat)
    requires i < SIGLENBIT && j < SIGLENBIT
    ensures GetBit(SetBit(s, i), j) == (i == j || GetBit(s, j))
  {
    if i / 8 == j / 8 {
      OrBit(s[i / 8], Mask(i % 8), j % 8);
      MaskBit(i % 8, j % 8);
    }
  }

  // ----- Keys -----

  datatype Key = AllTrue | Signature(sign: Sign)

  ghost predicate HasBit(k: Key, i: nat)
    requires i < SIGLENBIT
  {
    k.AllTrue? || GetBit(k.sign, i)
  }

  /** The key has the bit of every element. */
  ghost predicate Signs(k: Key, a: seq<int>) {
    forall x :: x in a ==> HasBit(k, HashVal(x))
  }

  /** The signature is that of the array: the bits of its elements and no others. */
  ghost predicate IsSignature(s: Sign, a: seq<int>) {
    forall i: nat :: i < SIGLENBIT ==> (GetBit(s, i) <==> exists x :: x in a && HashVal(x) == i)
  }

  /** `HASH` of every element into a cleared vector. */
  method MakeSignature(a: seq<int>) returns (s: Sign)
    ensures IsSignature(s, a)
  {
    s := seq(SIGLEN, _ => 0);
    var n := 0;
    while n < |a|
      invariant 0 <= n <= |a| && IsSignature(s, a[..n])
    {
      SignatureStep(s, a, n);
      s := SetBit(s, HashVal(a[n]));
      n := n + 1;
    }
    assert a[..n] == a;
  }

  lemma SignatureStep(s: Sign, a: seq<int>, n: nat)
    requires n < |a| && IsSignature(s, a[..n])
    ensures IsSignature(SetBit(s, HashVal(a[n])), a[..n+1])
  {
    var y := a[n];
    assert a[..n+1] == a[..n] + [y];
    forall i: nat | i < SIGLENBIT ensures GetBit(SetBit(s, HashVal(y)), i) <==> exists x :: x in a[..n+1] && HashVal(x) == i {
      SetBitBits(s, HashVal(y), i);
      assert GetBit(s, i) <==> exists x :: x in a[..n] && HashVal(x) == i;
      if HashVal(y) == i { assert y in a[..n+1]; }
    }
  }

  /** `g_intbig_compress`: a leaf becomes its signature, a full internal signature becomes `AllTrue`. */
  method CompressLeaf(a: seq<int>) returns (k: Key)
    ensures k.Signature? && IsSignature(k.sign, a)
  {
    var s := MakeSignature(a);
    k := Signature(s);
  }

  method CompressInternal(k: Key) returns (r: Key)
    ensures forall i: nat :: i < SIGLENBIT ==> (HasBit(r, i) <==> HasBit(k, i))
    ensures r.AllTrue? <==> forall i: nat :: i < SIGLENBIT ==> HasBit(k, i)
  {
    if k.AllTrue? {
      return k;
    }
    var i := 0;
    while i < SIGLEN
      invariant 0 <= i <= SIGLEN
      invariant forall j :: 0 <= j < i ==> k.sign[j] == 0xff
    {
      if k.sign[i] != 0xff {
        ghost var b := MissingBit(k.sign, i);
        assert !HasBit(k, b);
        return k;
      }
      i := i + 1;
    }
    forall i: nat | i < SIGLENBIT ensures HasBit(k, i) { FullBit(i % 8); }
    return AllTrue;
  }

  lemma MissingBit(s: Sign, i: nat) returns (b: nat)
    requires i < SIGLEN && s[i] != 0xff
    ensures b < SIGLENBIT && !GetBit(s, b)
  {
    if forall k: nat :: k < 8 ==> ByteBit(s[i], k) == ByteBit(0xff, k) {
      BytesEqual(s[i], 0xff);
      assert false;
    }
    var k: nat :| k < 8 && ByteBit(s[i], k) != ByteBit(0xff, k);
    FullBit(k);
    b := 8 * i + k;
    assert b / 8 == i && b % 8 == k;
  }

  /** A key that has every bit of another. */
  ghost predicate Includes(k: Key, e: Key) {
    forall i: nat :: i < SIGLENBIT && HasBit(e, i) ==> HasBit(k, i)
  }

  lemma IncludesSigns(k: Key, e: Key, a: seq<int>)
    requires Includes(k, e) && Signs(e, a)
    ensures Signs(k, a)
  {}

  /** The bytewise OR of two signatures. */
  function OrSigns(s: Sign, t: Sign): Sign {
    seq(SIGLEN, i requires 0 <= i < SIGLEN => s[i] | t[i])
  }

  lemma OrSignsBit(s: Sign, t: Sign, i: nat)
    requires i < SIGLENBIT
    ensures GetBit(OrSigns(s, t), i) == (GetBit(s, i) || GetBit(t, i))
  {
    OrBit(s[i / 8], t[i / 8], i % 8);
  }

  /** `unionkey`: ORs a key into an array of bytes; an all-true key is reported instead. */
  method UnionKey(base: array<bv8>, add: Key) returns (all: bool)
    requires base.Length == SIGLEN
    modifies base
    ensures all == add.AllTrue?
    ensures base[..] == if all then old(base[..]) else OrSigns(old(base[..]), add.sign)
  {
    if add.AllTrue? {
      return true;
    }
    var i := 0;
    while i < SIGLEN
      invariant 0 <= i <= SIGLEN
      invariant forall j :: 0 <= j < i ==> base[j] == old(base[j]) | add.sign[j]
      invariant forall j :: i <= j < SIGLEN ==> base[j] == old(base[j])
    {
      base[i] := base[i] | add.sign[i];
      i := i + 1;
    }
    return false;
  }

  /** One of the first `n` keys has the bit. */
  ghost predicate SomeHas(entries: seq<Key>, n: nat, i: nat)
    requires n <= |entries| && i < SIGLENBIT
  {
    exists e :: 0 <= e < n && HasBit(entries[e], i)
  }

  /** The key has exactly the bits of the first `n` keys. */
  ghost predicate IsUnionKey(u: Key, entries: seq<Key>, n: nat)
    requires n <= |entries|
  {
    forall i: nat :: i < SIGLENBIT ==> (HasBit(u, i) <==> SomeHas(entries, n, i))
  }

  /** `g_intbig_union`. */
  method GIntbigUnion(entries: seq<Key>) returns (u: Key)
    ensures IsUnionKey(u, entries, |entries|)
  {
    var base := new bv8[SIGLEN](_ => 0);
    var i := 0;
    EmptySignature(base[..]);
    while i < |entries|
      invariant 0 <= i <= |entries| && IsUnionKey(Signature(base[..]), entries, i)
    {
      ghost var before: Sign := base[..];
      var all := UnionKey(base, entries[i]);
      if all {
        AllTrueUnion(entries, i);
        return AllTrue;
      }
      UnionStep(before, entries, i);
      i := i + 1;
    }
    return Signature(base[..]);
  }

  lemma EmptySignature(s: Sign)
    requires forall i :: 0 <= i < SIGLEN ==> s[i] == 0
    ensures forall i: nat :: i < SIGLENBIT ==> !GetBit(s, i)
  {}

  lemma AllTrueUnion(entries: seq<Key>, e: nat)
    requires e < |entries| && entries[e] == AllTrue
    ensures IsUnionKey(AllTrue, entries, |entries|)
  {
    forall i: nat | i < SIGLENBIT ensures SomeHas(entries, |entries|, i) {
      assert HasBit(entries[e], i);
    }
  }

  lemma UnionStep(s: Sign, entries: seq<Key>, n: nat)
    requires n < |entries| && entries[n].Signature? && IsUnionKey(Signature(s), entries, n)
    ensures IsUnionKey(Signature(OrSigns(s, entries[n].sign)), entries, n + 1)
  {
    var u := Signature(OrSigns(s, entries[n].sign));
    forall i: nat | i < SIGLENBIT ensures HasBit(u, i) <==> SomeHas(entries, n + 1, i) {
      OrSignsBit(s, entries[n].sign, i);
      assert HasBit(Signature(s), i) <==> SomeHas(entries, n, i);
      if HasBit(entries[n], i) { assert SomeHas(entries, n + 1, i); }
    }
  }

  // ----- Splitting a page -----

  datatype SplitCost = SplitCost(pos: nat, cost: int)

  /** `GETENTRY`: offsets count from one. */
  function GetEntry(keys: seq<Key>, j: nat): Key
    requires 1 <= j <= |keys|
  {
    keys[j-1]
  }

  /** The pair that is farthest apart among all offsets but the last; 1 and 2 if there is no pair. */
  method PickSeeds(keys: seq<Key>, dist: (Key, Key) -> nat) returns (seed1: nat, seed2: nat)
    requires |keys| >= 2
    ensures 1 <= seed1 < seed2 <= |keys| && (|keys| > 2 ==> seed2 < |keys|)
    ensures forall k, j :: 1 <= k < j < |keys| ==> dist(GetEntry(keys, k), GetEntry(keys, j)) <= dist(GetEntry(keys, seed1), GetEntry(keys, seed2))
  {
    var maxoff := |keys| - 1;
    var waste: int := -1;
    seed1, seed2 := 0, 0;
    var k := 1;
    while k < maxoff
      invariant 1 <= k <= maxoff && SeedsSoFar(keys, dist, k, k + 1, seed1, seed2, waste)
    {
      var j := k + 1;
      while j <= maxoff
        invariant k < j <= maxoff + 1 && SeedsSoFar(keys, dist, k, j, seed1, seed2, waste)
      {
        var sizeWaste := dist(GetEntry(keys, k), GetEntry(keys, j));
        if sizeWaste > waste {
          waste, seed1, seed2 := sizeWaste, k, j;
        }
        j := j + 1;
      }
      k := k + 1;
    }
    if seed1 == 0 || seed2 == 0 {
      seed1, seed2 := 1, 2;
    }
  }

  /** The seeds are the farthest apart among the pairs compared so far: those with an offset below `k`, and
      `k` with an offset below `j`. */
  ghost predicate SeedsSoFar(keys: seq<Key>, dist: (Key, Key) -> nat, k: nat, j: nat, seed1: nat, seed2: nat, waste: int) {
    && (if waste == -1 then seed1 == seed2 == 0
        else 1 <= seed1 < seed2 < |keys| && waste == dist(GetEntry(keys, seed1), GetEntry(keys, seed2)))
    && forall p, q :: 1 <= p < q < |keys| && (p < k || (p == k && q < j)) ==> dist(GetEntry(keys, p), GetEntry(keys, q)) <= waste
  }

  /** `union_l` and `union_r`: an all-true key fills a signature with ones and leaves it a signature. */
  method Absorb(datum: Key, key: Key) returns (r: Key)
    ensures r.AllTrue? == datum.AllTrue?
    ensures forall i: nat :: i < SIGLENBIT ==> (HasBit(r, i) <==> HasBit(datum, i) || HasBit(key, i))
  {
    if datum.AllTrue? || key.AllTrue? {
      r := if datum.AllTrue? then datum else Signature(seq(SIGLEN, _ => 0xff));
      forall i: nat | i < SIGLENBIT ensures HasBit(r, i) { FullBit(i % 8); }
    } else {
      r := Signature(OrSigns(datum.sign, key.sign));
      forall i: nat | i < SIGLENBIT ensures HasBit(r, i) <==> HasBit(datum, i) || HasBit(key, i) {
        OrSignsBit(datum.sign, key.sign, i);
      }
    }
  }

  ghost predicate Offsets(side: seq<nat>, keys: seq<Key>) {
    forall j :: j in side ==> 1 <= j <= |keys|
  }

  /** Some entry of a side has the bit. */
  ghost predicate SideHas(side: seq<nat>, keys: seq<Key>, i: nat)
    requires Offsets(side, keys) && i < SIGLENBIT
  {
    exists j :: j in side && HasBit(GetEntry(keys, j), i)
  }

  /** A side's key has exactly the bits of its entries. */
  ghost predicate SideKey(datum: Key, side: seq<nat>, keys: seq<Key>) {
    Offsets(side, keys) && forall i: nat :: i < SIGLENBIT ==> (HasBit(datum, i) <==> SideHas(side, keys, i))
  }

  lemma SideKeyStep(was: Key, datum: Key, side: seq<nat>, keys: seq<Key>, j: nat)
    requires SideKey(was, side, keys) && 1 <= j <= |keys|
    requires forall i: nat :: i < SIGLENBIT ==> (HasBit(datum, i) <==> HasBit(was, i) || HasBit(GetEntry(keys, j), i))
    ensures SideKey(datum, side + [j], keys)
  {
    forall i: nat | i < SIGLENBIT ensures HasBit(datum, i) <==> SideHas(side + [j], keys, i) {
      assert HasBit(was, i) <==> SideHas(side, keys, i);
      if HasBit(GetEntry(keys, j), i) { assert j in side + [j]; }
      if SideHas(side, keys, i) {
        var e :| e in side && HasBit(GetEntry(keys, e), i);
        assert e in side + [j];
      }
    }
  }

  /** A side's key covers every entry of the side. */
  lemma SideKeyIncludes(datum: Key, side: seq<nat>, keys: seq<Key>, j: nat)
    requires SideKey(datum, side, keys) && j in side
    ensures Includes(datum, GetEntry(keys, j))
  {
    forall i: nat | i < SIGLENBIT && HasBit(GetEntry(keys, j), i) ensures HasBit(datum, i) {
      assert SideHas(side, keys, i);
    }
  }

  /** The order in which entries are dealt out: by how little they care for a side. */
  method CostOrder(keys: seq<Key>, dist: (Key, Key) -> nat, l: Key, r: Key) returns (order: seq<nat>)
    ensures Permutes(order, |keys|)
  {
    var costs: seq<SplitCost> := [];
    var j := 1;
    while j <= |keys|
      invariant 1 <= j <= |keys| + 1 && |costs| == j - 1
      invariant forall k :: 0 <= k < j - 1 ==> costs[k].pos == k + 1
    {
      var alpha, beta := dist(l, GetEntry(keys, j)), dist(r, GetEntry(keys, j));
      costs := costs + [SplitCost(j, if alpha < beta then beta - alpha else alpha - beta)];
      j := j + 1;
    }
    var le := (x: SplitCost, y: SplitCost) => x.cost <= y.cost;
    var sorted := Sort(costs, le);
    order := Positions(sorted);
    CountsAgree(sorted, costs, |keys|);
  }

  function Positions(costs: seq<SplitCost>): seq<nat> {
    seq(|costs|, i requires 0 <= i < |costs| => costs[i].pos)
  }

  /** Every offset from 1 to `n` occurs once, and nothing else occurs. */
  ghost predicate Permutes(order: seq<nat>, n: nat) {
    && |order| == n && (forall j :: j in order ==> 1 <= j <= n)
    && (forall j: nat :: 1 <= j <= n ==> j in order)
    && (forall p, q :: 0 <= p < q < n ==> order[p] != order[q])
  }

  lemma CountsAgree(sorted: seq<SplitCost>, costs: seq<SplitCost>, n: nat)
    requires |costs| == n && (forall k :: 0 <= k < n ==> costs[k].pos == k + 1)
    requires multiset(sorted) == multiset(costs)
    ensures Permutes(Positions(sorted), n)
  {
    var order := Positions(sorted);
    assert |sorted| == |multiset(sorted)| == n;
    forall k | 0 <= k < n ensures 1 <= sorted[k].pos <= n && sorted[k] == costs[sorted[k].pos - 1] {
      assert sorted[k] in multiset(costs);
    }
    forall j: nat | 1 <= j <= n ensures j in order {
      assert costs[j-1] in multiset(sorted);
      var k :| 0 <= k < n && sorted[k] == costs[j-1];
      assert order[k] == j;
    }
    forall p, q | 0 <= p < q < n ensures order[p] != order[q] {
      if order[p] == order[q] {
        CountTwice(sorted, p, q);
        CountOnce(costs, order[p] - 1);
      }
    }
  }

  lemma CountTwice(s: seq<SplitCost>, p: nat, q: nat)
    requires p < q < |s| && s[p] == s[q]
    ensures multiset(s)[s[p]] >= 2
  {
    assert s == s[..q] + s[q..];
    assert s[..q][p] in multiset(s[..q]) && s[q..][0] in multiset(s[q..]);
  }

  lemma CountOnce(s: seq<SplitCost>, k: nat)
    requires k < |s| && forall i :: 0 <= i < |s| && i != k ==> s[i] != s[k]
    ensures multiset(s)[s[k]] == 1
  {
    assert s == s[..k] + [s[k]] + s[k+1..];
    assert s[k] !in s[..k] && s[k] !in s[k+1..];
  }

  /** Each offset from 1 to `n` is on exactly one side, once, and neither side is empty. */
  ghost predicate IsSplit(left: seq<nat>, right: seq<nat>, n: nat) {
    && left != [] && right != [] && |left| + |right| == n
    && forall j: nat :: (1 <= j <= n <==> j in left || j in right) && !(j in left && j in right)
  }

  /** The first `k` entries in order have been dealt out, each to one side. */
  ghost predicate Dealt(left: seq<nat>, right: seq<nat>, order: seq<nat>, k: nat)
    requires k <= |order|
  {
    && |left| + |right| == k
    && (forall j: nat :: j in left || j in right <==> j in order[..k])
    && forall j: nat :: !(j in left && j in right)
  }

  lemma DealtStep(left: seq<nat>, right: seq<nat>, order: seq<nat>, k: nat, n: nat)
    requires Permutes(order, n) && k < n && Dealt(left, right, order, k)
    ensures Dealt(left + [order[k]], right, order, k + 1)
    ensures Dealt(left, right + [order[k]], order, k + 1)
  {
    var o := order[k];
    assert order[..k+1] == order[..k] + [o];
    assert o !in order[..k];
    assert o !in left && o !in right;
  }

  lemma SeedStep(datum: Key, seed: nat, side: seq<nat>, keys: seq<Key>)
    requires SideKey(datum, [seed] + side, keys)
    ensures SideKey(datum, [seed] + (side + [seed]), keys)
  {
    SameSide(datum, [seed] + side, [seed] + (side + [seed]), keys);
  }

  lemma SameSide(datum: Key, side: seq<nat>, same: seq<nat>, keys: seq<Key>)
    requires SideKey(datum, side, keys) && forall j :: j in side <==> j in same
    ensures SideKey(datum, same, keys)
  {
    forall i: nat | i < SIGLENBIT ensures HasBit(datum, i) <==> SideHas(same, keys, i) {
      assert HasBit(datum, i) <==> SideHas(side, keys, i);
    }
  }

  /** `g_intbig_picksplit`, for any distance and any way to weigh distances and side sizes. */
  method PickSplit(keys: seq<Key>, dist: (Key, Key) -> nat, prefersLeft: (nat, nat, nat, nat) -> bool)
    returns (left: seq<nat>, right: seq<nat>, datumL: Key, datumR: Key)
    requires |keys| >= 2
    ensures IsSplit(left, right, |keys|)
    ensures SideKey(datumL, left, keys) && SideKey(datumR, right, keys)
  {
    var seed1, seed2 := PickSeeds(keys, dist);
    datumL, datumR := GetEntry(keys, seed1), GetEntry(keys, seed2);
    var order := CostOrder(keys, dist, datumL, datumR);
    left, right := [], [];
    var k := 0;
    SeedKey(seed1, keys);
    SeedKey(seed2, keys);
    while k < |keys|
      invariant 0 <= k <= |keys| && Dealt(left, right, order, k)
      invariant SideKey(datumL, [seed1] + left, keys) && SideKey(datumR, [seed2] + right, keys)
      invariant seed1 in order[..k] ==> seed1 in left
      invariant seed2 in order[..k] ==> seed2 in right
    {
      var j := order[k];
      assert j in order;
      assert order[..k+1] == order[..k] + [j];
      DealtStep(left, right, order, k, |keys|);
      if j == seed1 {
        SeedStep(datumL, seed1, left, keys);
        left := left + [j];
      } else if j == seed2 {
        SeedStep(datumR, seed2, right, keys);
        right := right + [j];
      } else if prefersLeft(dist(datumL, GetEntry(keys, j)), dist(datumR, GetEntry(keys, j)), |left|, |right|) {
        datumL := Deal(datumL, seed1, left, keys, j);
        left := left + [j];
      } else {
        datumR := Deal(datumR, seed2, right, keys, j);
        right := right + [j];
      }
      k := k + 1;
    }
    assert order[..k] == order;
    SameSide(datumL, [seed1] + left, left, keys);
    SameSide(datumR, [seed2] + right, right, keys);
  }

  lemma SeedKey(seed: nat, keys: seq<Key>)
    requires 1 <= seed <= |keys|
    ensures SideKey(GetEntry(keys, seed), [seed] + [], keys)
  {
    forall i: nat | i < SIGLENBIT ensures HasBit(GetEntry(keys, seed), i) <==> SideHas([seed] + [], keys, i) {
      assert seed in [seed] + [];
    }
  }

  method Deal(datum: Key, ghost seed: nat, ghost side: seq<nat>, keys: seq<Key>, j: nat) returns (r: Key)
    requires SideKey(datum, [seed] + side, keys) && 1 <= j <= |keys|
    ensures SideKey(r, [seed] + (side + [j]), keys)
  {
    r := Absorb(datum, GetEntry(keys, j));
    SideKeyStep(datum, r, [seed] + side, keys, j);
    assert [seed] + (side + [j]) == [seed] + side + [j];
  }

  // ----- Single values -----

  lemma OneBit(h: nat) returns (s: Sign)
    requires h < SIGLENBIT
    ensures forall i: nat :: i < SIGLENBIT ==> (GetBit(s, i) <==> i == h)
    ensures forall k :: 0 <= k < SIGLEN ==> s[k] == if k == h / 8 then Mask(h % 8) else 0
  {
    s := seq(SIGLEN, k requires 0 <= k < SIGLEN => if k == h / 8 then Mask(h % 8) else 0);
    forall i: nat | i < SIGLENBIT ensures GetBit(s, i) <==> i == h {
      if i / 8 == h / 8 { MaskBit(h % 8, i % 8); } else { NoBit(i % 8); }
    }
  }

  lemma NoBit(k: nat)
    requires k < 8
    ensures !ByteBit(0, k)
  {}

  lemma MaskShifts(k: nat)
    requires k < 8
    ensures Mask(k) == (0x01 as bv8) << k
  {
    match k
    case 0 => assert (0x01 as bv8) << 0 == 0x01;
    case 1 => assert (0x01 as bv8) << 1 == 0x02;
    case 2 => assert (0x01 as bv8) << 2 == 0x04;
    case 3 => assert (0x01 as bv8) << 3 == 0x08;
    case 4 => assert (0x01 as bv8) << 4 == 0x10;
    case 5 => assert (0x01 as bv8) << 5 == 0x20;
    case 6 => assert (0x01 as bv8) << 6 == 0x40;
    case _ => assert (0x01 as bv8) << 7 == 0x80;
  }

  /** The signature of a single int has one bit: that of the value modulo 2016, a negative value taken as an
      unsigned one of 32 bits; bit h is the bit 1 << h % 8 of byte h / 8. */
  lemma SignatureOfOne(s: Sign, v: int)
    requires IsSignature(s, [v]) && -0x8000_0000 <= v <= 0x7fff_ffff
    ensures var h := (if v < 0 then v + 4294967296 else v) % 2016;
      forall k :: 0 <= k < 252 ==> s[k] == if k == h / 8 then (0x01 as bv8) << (h % 8) else 0
  {
    var h := (if v < 0 then v + 4294967296 else v) % 2016;
    assert HashVal(v) == h;
    var t := OneBit(h);
    forall i: nat | i < SIGLENBIT ensures GetBit(s, i) == GetBit(t, i) { assert v in [v]; }
    SignsEqual(s, t);
    MaskShifts(h % 8);
  }

  // ----- Consistent -----

  /** The bits a key has, read as a test on values. */
  ghost function Hashed(k: Key): int -> bool {
    v => HasBit(k, HashVal(v))
  }

  /** The key has the bit of some element, or is all-true. */
  ghost predicate BitsMeet(k: Key, q: seq<int>) {
    k.AllTrue? || exists x :: x in q && Hashed(k)(x)
  }

  /** What `g_intbig_consistent` answers: an all-true key always, a signature by its bits. */
  ghost predicate SignConsistent(st: Strategy, key: Key, leaf: bool) {
    key.AllTrue? ||
    match st
    case Overlap(q) => BitsMeet(key, q)
    case Contains(q) => Signs(key, q)
    case Same(q) => if leaf then IsSignature(key.sign, q) else Signs(key, q)
    case ContainedBy(q) => if leaf then Within(key.sign, q) else BitsMeet(key, q)
    case Boolean(t) => QI.EvalLoose(t, Hashed(key))
    case Other => false
  }

  /** On an internal page the test of a signature for an array operator holds if and only if some array whose bits
      the signature has satisfies the operator, for "contained by" one that is not empty. */
  lemma SignAdmitsIff(st: Strategy, key: Key)
    requires !st.Boolean? && key.Signature?
    ensures SignConsistent(st, key, false) <==> exists a :: Signs(key, a) && Satisfies(st, a) && (st.ContainedBy? ==> a != [])
  {
    match st
    case Overlap(q) =>
      if BitsMeet(key, q) {
        var x :| x in q && Hashed(key)(x);
        assert x in [x] && Signs(key, [x]) && Satisfies(st, [x]);
      }
      if a :| Signs(key, a) && Satisfies(st, a) {
        var x :| x in a && x in q;
        assert Hashed(key)(x);
      }
    case Contains(q) =>
      if Signs(key, q) { assert Satisfies(st, q); }
    case Same(q) =>
      if Signs(key, q) { assert Satisfies(st, q); }
      if a :| Signs(key, a) && Satisfies(st, a) {
        forall x | x in q ensures x in a { assert x in multiset(a); }
      }
    case ContainedBy(q) =>
      if BitsMeet(key, q) {
        var x :| x in q && Hashed(key)(x);
        assert Signs(key, [x]) && Satisfies(st, [x]) && [x] != [];
      }
      if a :| Signs(key, a) && Satisfies(st, a) && a != [] {
        var x := a[0];
        assert x in a;
        assert x in q && Hashed(key)(x);
      }
    case Other =>
  }

  /** No bit is set but those of the elements. */
  ghost predicate Within(s: Sign, a: seq<int>) {
    forall i: nat :: i < SIGLENBIT && GetBit(s, i) ==> exists x :: x in a && HashVal(x) == i
  }

  method IntbigOverlap(s: Sign, b: seq<int>) returns (r: bool)
    ensures r <==> BitsMeet(Signature(s), b)
  {
    var n := 0;
    while n < |b|
      invariant 0 <= n <= |b| && forall k :: 0 <= k < n ==> !GetBit(s, HashVal(b[k]))
    {
      if GetBit(s, HashVal(b[n])) {
        var x := b[n];
        assert x in b && Hashed(Signature(s))(x);
        return true;
      }
      n := n + 1;
    }
    return false;
  }

  method IntbigContains(s: Sign, b: seq<int>) returns (r: bool)
    ensures r <==> Signs(Signature(s), b)
  {
    var n := 0;
    while n < |b|
      invariant 0 <= n <= |b| && forall k :: 0 <= k < n ==> GetBit(s, HashVal(b[k]))
    {
      if !GetBit(s, HashVal(b[n])) {
        var x := b[n];
        assert x in b && !HasBit(Signature(s), HashVal(x));
        return false;
      }
      n := n + 1;
    }
    return true;
  }

  /** Signatures with the same bits have the same bytes. */
  lemma SignsEqual(s: Sign, t: Sign)
    requires forall i: nat :: i < SIGLENBIT ==> GetBit(s, i) == GetBit(t, i)
    ensures s == t
  {
    forall k | 0 <= k < SIGLEN ensures s[k] == t[k] {
      forall b: nat | b < 8 ensures ByteBit(s[k], b) == ByteBit(t[k], b) {
        assert (8 * k + b) / 8 == k && (8 * k + b) % 8 == b;
        assert GetBit(s, 8 * k + b) == GetBit(t, 8 * k + b);
      }
      BytesEqual(s[k], t[k]);
    }
  }

  lemma BytesEqual(b: bv8, c: bv8)
    requires forall k: nat :: k < 8 ==> ByteBit(b, k) == ByteBit(c, k)
    ensures b == c
  {
    assert ByteBit(b, 0) == ByteBit(c, 0) && ByteBit(b, 1) == ByteBit(c, 1)
        && ByteBit(b, 2) == ByteBit(c, 2) && ByteBit(b, 3) == ByteBit(c, 3)
        && ByteBit(b, 4) == ByteBit(c, 4) && ByteBit(b, 5) == ByteBit(c, 5)
        && ByteBit(b, 6) == ByteBit(c, 6) && ByteBit(b, 7) == ByteBit(c, 7);
  }

  predicate BitWithin(b: bv8, c: bv8, k: nat)
    requires k < 8
  {
    ByteBit(b, k) ==> ByteBit(c, k)
  }

  lemma NoBitOutsideMeans(b: bv8, c: bv8, k: nat)
    requires b & !c == 0 && k < 8
    ensures BitWithin(b, c, k)
  {
    OrBit(b, c, k);
    assert b | c == c;
  }

  /** A byte keeps no bit outside another if each of its bits is in the other. */
  lemma NoBitOutside(b: bv8, c: bv8)
    requires forall k: nat :: k < 8 ==> BitWithin(b, c, k)
    ensures b & !c == 0
  {
    forall k: nat | k < 8 ensures ByteBit(b | c, k) == ByteBit(c, k) {
      OrBit(b, c, k);
      assert BitWithin(b, c, k);
    }
    BytesEqual(b | c, c);
    OrSameWithin(b, c);
  }

  lemma OrSameWithin(b: bv8, c: bv8)
    requires b | c == c
    ensures b & !c == 0
  {}

  lemma SignatureUnique(s: Sign, t: Sign, a: seq<int>)
    requires IsSignature(s, a)
    ensures IsSignature(t, a) <==> s == t
  {
    if IsSignature(t, a) {
      forall i: nat | i < SIGLENBIT ensures GetBit(s, i) == GetBit(t, i) {
        assert GetBit(s, i) <==> exists x :: x in a && HashVal(x) == i;
        assert GetBit(t, i) <==> exists x :: x in a && HashVal(x) == i;
      }
      SignsEqual(s, t);
    }
  }

  /** Whether `de & ~dq` is zero in every byte. */
  method NoneOutside(de: Sign, dq: Sign) returns (r: bool)
    ensures r <==> forall i: nat :: i < SIGLENBIT && GetBit(de, i) ==> GetBit(dq, i)
  {
    var i := 0;
    while i < SIGLEN
      invariant 0 <= i <= SIGLEN && forall k :: 0 <= k < i ==> de[k] & !dq[k] == 0
    {
      if de[i] & !dq[i] != 0 {
        ghost var b := BitOutside(de, dq, i);
        assert GetBit(de, b) && !GetBit(dq, b);
        return false;
      }
      i := i + 1;
    }
    forall j: nat | j < SIGLENBIT && GetBit(de, j) ensures GetBit(dq, j) {
      NoBitOutsideMeans(de[j / 8], dq[j / 8], j % 8);
    }
    return true;
  }

  lemma BitOutside(de: Sign, dq: Sign, i: nat) returns (b: nat)
    requires i < SIGLEN && de[i] & !dq[i] != 0
    ensures b < SIGLENBIT && GetBit(de, b) && !GetBit(dq, b)
  {
    if forall k: nat :: k < 8 ==> BitWithin(de[i], dq[i], k) {
      NoBitOutside(de[i], dq[i]);
      assert false;
    }
    var k: nat :| k < 8 && !BitWithin(de[i], dq[i], k);
    b := 8 * i + k;
    assert b / 8 == i && b % 8 == k;
  }

  /** `g_intbig_consistent` for the array strategies. */
  method GIntbigConsistent(st: Strategy, key: Key, leaf: bool) returns (r: bool)
    requires !st.Boolean?
    ensures r <==> SignConsistent(st, key, leaf)
  {
    if key.AllTrue? {
      return true;
    }
    match st {
      case Overlap(q) =>
        r := IntbigOverlap(key.sign, q);
      case Same(q) =>
        if leaf {
          var qp := MakeSignature(q);
          SignatureUnique(qp, key.sign, q);
          r := key.sign == qp;
        } else {
          r := IntbigContains(key.sign, q);
        }
      case Contains(q) =>
        r := IntbigContains(key.sign, q);
      case ContainedBy(q) =>
        if leaf {
          var qp := MakeSignature(q);
          r := NoneOutside(key.sign, qp);
        } else {
          r := IntbigOverlap(key.sign, q);
        }
      case Other =>
        r := false;
    }
  }

  /** `signconsistent`, on leaf pages too with negations taken as true. */
  method BoolConsistent(items: seq<QI.Item>, key: Key, leaf: bool, ghost t: QG.Tree) returns (r: bool)
    requires QI.Compiles(items, t) && QI.ShortLinks(t)
    ensures r <==> SignConsistent(Boolean(t), key, leaf)
  {
    if key.AllTrue? {
      return true;
    }
    var chk := (i: int) => 0 <= i < |items| && items[i].node.NVal? && GetBit(key.sign, HashVal(items[i].node.v));
    QI.ExecuteIsEval(items, |items| - 1, false, chk, t, Hashed(key));
    r := QI.Execute(items, |items| - 1, false, chk, t);
  }

  /** A key with the bits of an array does not hide it; on a leaf the key has no other bits. */
  lemma KeySound(st: Strategy, key: Key, a: seq<int>, leaf: bool)
    requires Signs(key, a) && Satisfies(st, a) && (leaf && key.Signature? ==> IsSignature(key.sign, a))
    requires !leaf && st.ContainedBy? ==> a != []
    ensures SignConsistent(st, key, leaf)
  {
    match st
    case Overlap(q) =>
    case Contains(q) =>
    case Same(q) => SameMultiset(a, q);
    case ContainedBy(q) =>
      if !leaf {
        NotEmpty(a, q);
        var x := a[0];
        assert x in a && x in q && Hashed(key)(x);
      }
    case Boolean(t) => QI.LooseIsSound(t, Presence(a), Hashed(key));
    case Other =>
  }

  // ----- Whole trees -----

  /** How a key came about: from one array, or from other keys by union or as one side of a split, and then
      by compression. */
  datatype Origin =
    | FromArray(a: seq<int>, leaf: Key)
    | FromUnion(parts: seq<Origin>, union: Key)
    | FromSplit(parts: seq<Origin>, side: seq<nat>, datum: Key)
    | FromCompress(part: Origin, compressed: Key)
  {
    ghost function Key(): Key {
      match this
      case FromArray(_, k) => k
      case FromUnion(_, k) => k
      case FromSplit(_, _, k) => k
      case FromCompress(_, k) => k
    }

    ghost predicate Built() {
      match this
      case FromArray(x, k) => LeafSign(k, x)
      case FromUnion(ps, k) =>
        IsUnionKey(k, PartSigns(ps), |ps|) && forall i :: 0 <= i < |ps| ==> ps[i].Built()
      case FromSplit(ps, s, k) =>
        SideKey(k, s, PartSigns(ps)) && forall i :: 0 <= i < |ps| ==> ps[i].Built()
      case FromCompress(p, k) =>
        p.Built() && forall i: nat :: i < SIGLENBIT ==> (HasBit(k, i) <==> HasBit(p.Key(), i))
    }

    /** The arrays below the key. */
    ghost predicate Mentions(x: seq<int>) {
      match this
      case FromArray(y, _) => x == y
      case FromUnion(ps, _) => exists i :: 0 <= i < |ps| && ps[i].Mentions(x)
      case FromSplit(ps, s, _) => exists i :: 0 <= i < |ps| && i + 1 in s && ps[i].Mentions(x)
      case FromCompress(p, _) => p.Mentions(x)
    }
  }

  ghost predicate LeafSign(k: Key, a: seq<int>) {
    k.Signature? && IsSignature(k.sign, a)
  }

  ghost function PartSigns(ps: seq<Origin>): (r: seq<Key>)
    ensures |r| == |ps|
  {
    seq(|ps|, i requires 0 <= i < |ps| => ps[i].Key())
  }

  lemma LeafSigns(k: Key, a: seq<int>)
    requires LeafSign(k, a)
    ensures Signs(k, a)
  {
    forall x | x in a ensures HasBit(k, HashVal(x)) {
      var i := HashVal(x);
      assert GetBit(k.sign, i) <==> exists y :: y in a && HashVal(y) == i;
    }
  }

  /** However a key came about, it has the bits of every array that went into it. */
  lemma {:induction false} BuiltSigns(o: Origin, a: seq<int>)
    requires o.Built() && o.Mentions(a)
    ensures Signs(o.Key(), a)
  {
    match o
    case FromArray(_, k) => LeafSigns(k, a);
    case FromUnion(ps, k) =>
      var i :| 0 <= i < |ps| && ps[i].Mentions(a);
      BuiltSigns(ps[i], a);
      UnionIncludes(k, PartSigns(ps), i);
      IncludesSigns(k, ps[i].Key(), a);
    case FromSplit(ps, s, k) =>
      var i :| 0 <= i < |ps| && i + 1 in s && ps[i].Mentions(a);
      BuiltSigns(ps[i], a);
      SideKeyIncludes(k, s, PartSigns(ps), i + 1);
      IncludesSigns(k, ps[i].Key(), a);
    case FromCompress(p, k) => BuiltSigns(p, a);
  }

  lemma UnionIncludes(u: Key, keys: seq<Key>, e: nat)
    requires e < |keys| && IsUnionKey(u, keys, |keys|)
    ensures Includes(u, keys[e])
  {
    forall i: nat | i < SIGLENBIT && HasBit(keys[e], i) ensures HasBit(u, i) {
      assert SomeHas(keys, |keys|, i);
    }
  }

  ghost predicate Accounts(key: Key, a: seq<int>) {
    exists o: Origin :: o.Built() && o.Key() == key && o.Mentions(a)
  }

  /** An empty array lies below an internal key that has no bit of the query. */
  ghost predicate EmptyHidden(t: G.Tree<Key, seq<int>>, q: seq<int>) {
    G.Hides(t, (k: Key, leaf: bool) => BitsMeet(k, q), (a: seq<int>) => a == [])
  }

  /** The scan of a tree built by these methods, with the recheck that every strategy asks for, returns
      exactly the arrays that satisfy the operator. "Contained by" does so if and only if no empty array is
      hidden. */
  lemma SearchIsExact(t: G.Tree<Key, seq<int>>, st: Strategy)
    requires G.WellFormed(t, LeafSign, Accounts)
    ensures G.Search(t, (k: Key, leaf: bool) => SignConsistent(st, k, leaf), (a: seq<int>) => Satisfies(st, a))
         == G.Matching(G.Rows(t), (a: seq<int>) => Satisfies(st, a))
       <==> !(st.ContainedBy? && EmptyHidden(t, st.q))
  {
    var consistent := (k: Key, leaf: bool) => SignConsistent(st, k, leaf);
    var sat := (a: seq<int>) => Satisfies(st, a);
    SignTruth(st);
    G.SearchExactIff(t, LeafSign, Accounts, consistent, sat, sat);
    if st.ContainedBy? {
      HiddenAreEmpty(t, st.q);
    } else {
      var none := (a: seq<int>) => false;
      forall k: Key, a: seq<int> | Accounts(k, a) && !consistent(k, false) ensures sat(a) <==> none(a) {
        if sat(a) { AccountedIsFound(st, k, a); }
      }
      G.HidesSame(t, LeafSign, Accounts, consistent, sat, none);
      G.NothingHidden(t, consistent, none);
    }
  }

  lemma SignTruth(st: Strategy)
    ensures G.LeafTruthful(LeafSign, (k: Key, leaf: bool) => SignConsistent(st, k, leaf),
                           (a: seq<int>) => Satisfies(st, a), (a: seq<int>) => Satisfies(st, a))
  {
    forall k: Key, a: seq<int> | LeafSign(k, a) && Satisfies(st, a) ensures SignConsistent(st, k, true) {
      LeafSigns(k, a);
      KeySound(st, k, a, true);
    }
  }

  lemma AccountedIsFound(st: Strategy, k: Key, a: seq<int>)
    requires Accounts(k, a) && Satisfies(st, a) && (st.ContainedBy? ==> a != [])
    ensures SignConsistent(st, k, false)
  {
    var o: Origin :| o.Built() && o.Key() == k && o.Mentions(a);
    BuiltSigns(o, a);
    KeySound(st, k, a, false);
  }

  /** What "contained by" hides are empty arrays. */
  lemma HiddenAreEmpty(t: G.Tree<Key, seq<int>>, q: seq<int>)
    requires G.WellFormed(t, LeafSign, Accounts)
    ensures G.Hides(t, (k: Key, leaf: bool) => SignConsistent(ContainedBy(q), k, leaf), (a: seq<int>) => Satisfies(ContainedBy(q), a))
       <==> EmptyHidden(t, q)
  {
    var st := ContainedBy(q);
    var consistent := (k: Key, leaf: bool) => SignConsistent(st, k, leaf);
    var meets := (k: Key, leaf: bool) => BitsMeet(k, q);
    var sat := (a: seq<int>) => Satisfies(st, a);
    var empty := (a: seq<int>) => a == [];
    forall k: Key, a: seq<int> | Accounts(k, a) && !consistent(k, false) ensures sat(a) <==> empty(a) {
      if sat(a) && a != [] { AccountedIsFound(st, k, a); }
    }
    G.HidesSame(t, LeafSign, Accounts, consistent, sat, empty);
    G.HidesByKey(t, consistent, meets, empty);
  }

  /** Whatever the tree, the scan returns the non-empty arrays that satisfy the operator. */
  lemma NonEmptyAreFound(t: G.Tree<Key, seq<int>>, st: Strategy)
    requires G.WellFormed(t, LeafSign, Accounts)
    ensures var found := G.Search(t, (k: Key, leaf: bool) => SignConsistent(st, k, leaf), (a: seq<int>) => Satisfies(st, a));
      G.Matching(found, (a: seq<int>) => a != [])
      == G.Matching(G.Matching(G.Rows(t), (a: seq<int>) => Satisfies(st, a)), (a: seq<int>) => a != [])
  {
    var consistent := (k: Key, leaf: bool) => SignConsistent(st, k, leaf);
    var sat, nonEmpty := (a: seq<int>) => Satisfies(st, a), (a: seq<int>) => a != [];
    SignTruth(st);
    forall k: Key, a: seq<int> | Accounts(k, a) && sat(a) && nonEmpty(a) ensures consistent(k, false) {
      AccountedIsFound(st, k, a);
    }
    G.PromisedAreFound(t, LeafSign, Accounts, consistent, sat, sat, nonEmpty);
  }

  ghost function ZeroSign(): Sign {
    seq(SIGLEN, _ => 0)
  }

  /** A leaf page with one empty array, and the key that union makes of it. */
  ghost function EmptyTree(): G.Tree<Key, seq<int>> {
    G.InnerPage(G.Entry(Signature(ZeroSign()), G.LeafPage([G.Row(Signature(ZeroSign()), [])]), G.End))
  }

  lemma OneHas(k: Key, i: nat)
    requires i < SIGLENBIT
    ensures SomeHas([k], 1, i) <==> HasBit(k, i)
  {
    assert [k][0] == k;
  }

  lemma EmptyIsAccounted(k: Key)
    requires k == Signature(ZeroSign())
    ensures LeafSign(k, []) && Accounts(k, [])
  {
    EmptySignature(ZeroSign());
    var leaf: Origin := Origin.FromArray([], k);
    var o: Origin := Origin.FromUnion([leaf], k);
    assert PartSigns([leaf]) == [k];
    forall i: nat | i < SIGLENBIT ensures HasBit(k, i) <==> SomeHas(PartSigns([leaf]), 1, i) { OneHas(k, i); }
    assert o.parts[0].Built() && o.parts[0].Mentions([]);
    assert o.Built() && o.Key() == k && o.Mentions([]);
  }

  /** "Contained by" misses an empty array: everything contains `{}`, but a search below `{1}` returns nothing. */
  lemma EmptyArrayMissed()
    ensures G.WellFormed(EmptyTree(), LeafSign, Accounts)
    ensures G.Row(Signature(ZeroSign()), []) in G.Rows(EmptyTree()) && Satisfies(ContainedBy([1]), [])
    ensures G.Search(EmptyTree(), (k: Key, leaf: bool) => SignConsistent(ContainedBy([1]), k, leaf), (a: seq<int>) => Satisfies(ContainedBy([1]), a)) == []
  {
    var k := Signature(ZeroSign());
    EmptyIsAccounted(k);
    EmptySignature(ZeroSign());
    var t := EmptyTree();
    assert G.Rows(t.entries.sub) == [G.Row(k, [])];
    assert G.EntryRows(t.entries) == [G.Row(k, [])];
    assert !SignConsistent(ContainedBy([1]), k, false);
  }
}
