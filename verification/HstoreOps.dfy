/** The operators of `hstore_op.c` that build packed values by merging: deletion and concatenation. */
module HstoreOps {
  import opened Bytes
  import opened HstoreFormat
  import opened HstoreBuild
  import opened HstoreMap
  import opened HstorePairs

  /** What a value means. */
  ghost function Meaning(hs: HStore): Dict
    requires Structured(hs)
  {
    MapOf(Decode(hs))
  }

  // ----- Copying pairs -----

  /** `HS_COPYITEM` of pair `i` of a value. */
  method CopyPair(b: Builder, hs: HStore, i: nat)
    requires Structured(hs) && i < Count(hs) && b.Valid() && b.items < b.count
    requires 8 * b.count + b.ptr + Start(hs.entries, 2 * i + 2) - Start(hs.entries, 2 * i) <= b.data.Length
    modifies b, b.data
    ensures b.Valid() && b.data == old(b.data) && b.count == old(b.count) && b.items == old(b.items) + 1
    ensures b.ptr == old(b.ptr) + Start(hs.entries, 2 * i + 2) - Start(hs.entries, 2 * i)
    ensures b.pairs == old(b.pairs) + [Decode(hs)[i]]
  {
    LaidBounds(hs.entries, hs.strings, Count(hs), i);
    assert PairInOrder(hs.entries, i);
    var s, v, w := Start(hs.entries, 2 * i), hs.entries[2 * i], hs.entries[2 * i + 1];
    b.CopyItem(hs.strings, s, v.end - s, w.end - v.end, w.isnull);
  }

  /** A copy being filled from the first `i` pairs of a value, with room for the rest. */
  ghost predicate Filling(b: Builder, hs: HStore, i: nat)
    reads b, b.data
  {
    && 2 * i <= |hs.entries| && b.Valid() && b.count == Count(hs) && b.data.Length == 8 * Count(hs) + |hs.strings|
    && b.items <= i && b.ptr <= Start(hs.entries, 2 * i)
  }

  /** `palloc` of as much as a value takes. */
  method StartCopy(hs: HStore) returns (b: Builder)
    requires Structured(hs)
    ensures fresh(b) && fresh(b.data) && Filling(b, hs, 0) && b.items == 0 && b.pairs == []
  {
    b := new Builder(8 * Count(hs) + |hs.strings|, Count(hs));
  }

  // ----- Deletion -----

  /** The copy holds those of the first `i` pairs that stay. */
  ghost predicate Sieving(b: Builder, hs: HStore, i: nat, outcount: nat, keep: Pair -> bool)
    requires Structured(hs)
    reads b, b.data
  {
    Filling(b, hs, i) && b.items == outcount && Filtered(b.pairs, Decode(hs), i, keep)
  }

  /** Pair `i` is copied or left out. */
  method Sieve(b: Builder, hs: HStore, i: nat, outcount: nat, stays: bool, ghost keep: Pair -> bool) returns (n: nat)
    requires WellFormed(hs) && i < Count(hs) && Sieving(b, hs, i, outcount, keep) && stays == keep(Decode(hs)[i])
    modifies b, b.data
    ensures b.data == old(b.data) && Sieving(b, hs, i + 1, n, keep)
  {
    FilterStep(b.pairs, Decode(hs), i, keep);
    LaidBounds(hs.entries, hs.strings, Count(hs), i);
    n := outcount;
    if stays {
      CopyPair(b, hs, i);
      n := n + 1;
    }
  }

  /** The copy is complete. */
  method EndSieve(b: Builder, hs: HStore, outcount: nat, ghost keep: Pair -> bool) returns (out: HStore)
    requires WellFormed(hs) && Sieving(b, hs, Count(hs), outcount, keep)
    modifies b, b.data
    ensures WellFormed(out) && Meaning(out) == Kept(Meaning(hs), keep)
  {
    assert Decode(hs)[..Count(hs)] == Decode(hs);
    out := b.Finalize(outcount);
  }

  /** `hstore_delete`. */
  method Delete(hs: HStore, key: seq<byte>) returns (out: HStore)
    requires WellFormed(hs)
    ensures WellFormed(out) && Meaning(out) == Meaning(hs) - {key}
  {
    ghost var keep := (p: Pair) => p.key != key;
    var b := StartCopy(hs);
    var i, outcount := 0, 0;
    while i < Count(hs)
      invariant 0 <= i <= Count(hs) && fresh(b) && fresh(b.data) && Sieving(b, hs, i, outcount, keep)
    {
      var k := Decode(hs)[i].key;
      CompareAntisymmetric(k, key);
      outcount := Sieve(b, hs, i, outcount, !(|k| == |key| && Compare(k, key) == 0), keep);
      i := i + 1;
    }
    out := EndSieve(b, hs, outcount, keep);
    assert Kept(Meaning(hs), keep) == Meaning(hs) - {key};
  }

  /** How pair `i` compares with what is next in a list; an exhausted list is past everything. */
  function Difference(ps: seq<Pair>, i: nat, qs: seq<Pair>, j: nat): int
    requires i < |ps|
  {
    if j >= |qs| then -1 else KeyCmp(ps[i].key, qs[j].key)
  }

  /** The comparison, with what it tells about the next pair and how to go on. */
  method CompareNext(ps: seq<Pair>, i: nat, qs: seq<Pair>, j: nat) returns (difference: int)
    requires SortedKeys(ps) && SortedKeys(qs) && Passed(qs, j, ps, i) && i < |ps|
    ensures difference > 0 ==> j < |qs| && Passed(qs, j + 1, ps, i)
    ensures difference == 0 ==>
      j < |qs| && ps[i].key in MapOf(qs) && MapOf(qs)[ps[i].key] == qs[j].value && Passed(qs, j + 1, ps, i + 1)
    ensures difference < 0 ==> ps[i].key !in MapOf(qs) && Passed(qs, j, ps, i + 1)
  {
    difference := Difference(ps, i, qs, j);
    if difference > 0 {
      PassedSkip(qs, j, ps, i);
    } else if difference == 0 {
      PassedFound(qs, j, ps, i);
    } else {
      PassedAbsent(qs, j, ps, i);
    }
  }

  /** The copy of a value while a list is walked along with it. */
  ghost predicate Walking(b: Builder, hs: HStore, i: nat, outcount: nat, qs: seq<Pair>, j: nat, keep: Pair -> bool)
    requires Structured(hs)
    reads b, b.data
  {
    Sieving(b, hs, i, outcount, keep) && Passed(qs, j, Decode(hs), i)
  }

  /** The pairs whose key is not in a list. */
  ghost function KeyNotIn(qs: seq<Pair>): Pair -> bool {
    (p: Pair) => p.key !in MapOf(qs)
  }

  /** `hstore_delete_array`. */
  method DeleteArray(hs: HStore, keys: seq<Value>) returns (r: Outcome<HStore>)
    requires WellFormed(hs)
    ensures r.TooLarge? <==> |keys| > 26843545
    ensures r.Done? ==> WellFormed(r.value) && Meaning(r.value) == map k | k in Meaning(hs) && Text(k) !in keys :: Meaning(hs)[k]
  {
    var pairs := HstoreArrayToPairs(keys);
    if pairs.TooLarge? {
      return TooLarge;
    }
    var qs := Contents(pairs.value);
    if |qs| == 0 {
      assert forall k :: k in Meaning(hs) ==> k !in MapOf(qs);
      FixSizeExact(hs);
      return Done(FixSize(hs));
    }
    var out := DeleteKeys(hs, qs);
    return Done(out);
  }

  /** The merge loop of `hstore_delete_array`. */
  method DeleteKeys(hs: HStore, qs: seq<Pair>) returns (out: HStore)
    requires WellFormed(hs) && SortedKeys(qs)
    ensures WellFormed(out) && Meaning(out) == Kept(Meaning(hs), KeyNotIn(qs))
  {
    var b := StartCopy(hs);
    var i: nat, j: nat, outcount: nat := 0, 0, 0;
    while i < Count(hs)
      invariant i <= Count(hs) && fresh(b) && fresh(b.data) && Walking(b, hs, i, outcount, qs, j, KeyNotIn(qs))
      decreases Count(hs) - i + |qs| - j
    {
      i, j, outcount := DeleteKeysStep(b, hs, i, outcount, qs, j);
    }
    out := EndSieve(b, hs, outcount, KeyNotIn(qs));
  }

  method DeleteKeysStep(b: Builder, hs: HStore, i0: nat, outcount0: nat, qs: seq<Pair>, j0: nat) returns (i: nat, j: nat, outcount: nat)
    requires WellFormed(hs) && SortedKeys(qs) && i0 < Count(hs) && Walking(b, hs, i0, outcount0, qs, j0, KeyNotIn(qs))
    modifies b, b.data
    ensures b.data == old(b.data) && Walking(b, hs, i, outcount, qs, j, KeyNotIn(qs)) && i0 + j0 < i + j
  {
    i, j, outcount := i0, j0, outcount0;
    var difference := CompareNext(Decode(hs), i, qs, j);
    if difference > 0 {
      j := j + 1;
    } else {
      var stays := difference != 0;
      assert stays == KeyNotIn(qs)(Decode(hs)[i]);
      outcount := Sieve(b, hs, i, outcount, stays, KeyNotIn(qs));
      i := i + 1;
      if difference == 0 {
        j := j + 1;
      }
    }
  }

  /** The pairs that are not in a list. */
  ghost function PairNotIn(qs: seq<Pair>): Pair -> bool {
    (p: Pair) => !(p.key in MapOf(qs) && MapOf(qs)[p.key] == p.value)
  }

  /** `hstore_delete_hstore`: deletes the pairs that the second value has too. */
  method DeleteHstore(hs: HStore, hs2: HStore) returns (out: HStore)
    requires WellFormed(hs) && WellFormed(hs2)
    ensures WellFormed(out)
    ensures Meaning(out) == map k | k in Meaning(hs) && !(k in Meaning(hs2) && Meaning(hs2)[k] == Meaning(hs)[k]) :: Meaning(hs)[k]
  {
    if Count(hs2) == 0 {
      FixSizeExact(hs);
      return FixSize(hs);
    }
    out := DeletePairs(hs, Decode(hs2));
  }

  /** The merge loop of `hstore_delete_hstore`. */
  method DeletePairs(hs: HStore, qs: seq<Pair>) returns (out: HStore)
    requires WellFormed(hs) && SortedKeys(qs)
    ensures WellFormed(out) && Meaning(out) == Kept(Meaning(hs), PairNotIn(qs))
  {
    var b := StartCopy(hs);
    var i: nat, j: nat, outcount: nat := 0, 0, 0;
    while i < Count(hs)
      invariant i <= Count(hs) && fresh(b) && fresh(b.data) && Walking(b, hs, i, outcount, qs, j, PairNotIn(qs))
      decreases Count(hs) - i + |qs| - j
    {
      i, j, outcount := DeletePairsStep(b, hs, i, outcount, qs, j);
    }
    out := EndSieve(b, hs, outcount, PairNotIn(qs));
  }

  method DeletePairsStep(b: Builder, hs: HStore, i0: nat, outcount0: nat, qs: seq<Pair>, j0: nat) returns (i: nat, j: nat, outcount: nat)
    requires WellFormed(hs) && SortedKeys(qs) && i0 < Count(hs) && Walking(b, hs, i0, outcount0, qs, j0, PairNotIn(qs))
    modifies b, b.data
    ensures b.data == old(b.data) && Walking(b, hs, i, outcount, qs, j, PairNotIn(qs)) && i0 + j0 < i + j
  {
    i, j, outcount := i0, j0, outcount0;
    var difference := CompareNext(Decode(hs), i, qs, j);
    if difference > 0 {
      j := j + 1;
    } else {
      var stays := difference < 0 || !SameValue(Decode(hs)[i].value, qs[j].value);
      assert stays == PairNotIn(qs)(Decode(hs)[i]);
      outcount := Sieve(b, hs, i, outcount, stays, PairNotIn(qs));
      i := i + 1;
      if difference == 0 {
        j := j + 1;
      }
    }
  }

  /** The comparison of values: both null, or neither and the same length and bytes. */
  predicate SameValue(v: Value, w: Value)
    ensures SameValue(v, w) <==> v == w
  {
    if v.Text? && w.Text? then CompareAntisymmetric(v.bytes, w.bytes); |v.bytes| == |w.bytes| && Compare(v.bytes, w.bytes) == 0
    else v.Null? == w.Null?
  }

  // ----- Concatenation -----

  /** A merge of the first `i` and `j` pairs of two values, with room for the rest. */
  ghost predicate Joining(b: Builder, s1: HStore, i: nat, s2: HStore, j: nat, outcount: nat)
    reads b, b.data
  {
    && 2 * i <= |s1.entries| && 2 * j <= |s2.entries| && b.Valid() && b.count == Count(s1) + Count(s2)
    && b.data.Length == 8 * b.count + |s1.strings| + |s2.strings| + HSHRDSIZE
    && b.items == outcount <= i + j && b.ptr <= Start(s1.entries, 2 * i) + Start(s2.entries, 2 * j)
  }

  lemma JoinRoom(s: HStore, i: nat)
    requires Structured(s) && i <= Count(s)
    ensures 2 * i <= |s.entries| && Start(s.entries, 2 * i) <= |s.strings|
    ensures i < Count(s) ==> Start(s.entries, 2 * i) <= Start(s.entries, 2 * i + 2) <= |s.strings|
  {
    StartsGrow(s.entries, s.strings, Count(s), i);
    if i < Count(s) { LaidBounds(s.entries, s.strings, Count(s), i); }
  }

  method JoinLeft(b: Builder, s1: HStore, i: nat, s2: HStore, j: nat, outcount: nat)
    requires Structured(s1) && Structured(s2) && Joining(b, s1, i, s2, j, outcount) && i < Count(s1) && j <= Count(s2)
    modifies b, b.data
    ensures b.data == old(b.data) && Joining(b, s1, i + 1, s2, j, outcount + 1)
    ensures b.pairs == old(b.pairs) + [Decode(s1)[i]]
  {
    JoinRoom(s1, i);
    JoinRoom(s2, j);
    CopyPair(b, s1, i);
  }

  method JoinRight(b: Builder, s1: HStore, i: nat, s2: HStore, j: nat, outcount: nat)
    requires Structured(s1) && Structured(s2) && Joining(b, s1, i, s2, j, outcount) && i <= Count(s1) && j < Count(s2)
    modifies b, b.data
    ensures b.data == old(b.data) && Joining(b, s1, i, s2, j + 1, outcount + 1)
    ensures i < Count(s1) ==> Joining(b, s1, i + 1, s2, j + 1, outcount + 1)
    ensures b.pairs == old(b.pairs) + [Decode(s2)[j]]
  {
    JoinRoom(s1, i);
    JoinRoom(s2, j);
    CopyPair(b, s2, j);
  }

  /** `hstore_concat`: the union, in which the second value wins. */
  method Concat(s1: HStore, s2: HStore) returns (r: Outcome<HStore>)
    requires WellFormed(s1) && WellFormed(s2)
    ensures r.TooLarge? <==> VarSize(s1) + VarSize(s2) > 0x3fff_ffff
    ensures r.Done? ==> WellFormed(r.value) && Meaning(r.value) == Meaning(s1) + Meaning(s2)
    ensures r.Done? ==> InKeyOrder(Decode(r.value))
  {
    WellFormedIff(s1);
    WellFormedIff(s2);
    if VarSize(s1) + VarSize(s2) > MaxAllocSize {
      return TooLarge;
    }
    if Count(s1) == 0 {
      FixSizeExact(s2);
      return Done(FixSize(s2));
    }
    if Count(s2) == 0 {
      FixSizeExact(s1);
      return Done(FixSize(s1));
    }
    var out := Join(s1, s2);
    WellFormedIff(out);
    return Done(out);
  }

  /** The merge loop of `hstore_concat`. */
  method Join(s1: HStore, s2: HStore) returns (out: HStore)
    requires WellFormed(s1) && WellFormed(s2) && VarSize(s1) + VarSize(s2) <= MaxAllocSize
    ensures WellFormed(out) && Meaning(out) == Meaning(s1) + Meaning(s2)
  {
    var count := Count(s1) + Count(s2);
    var b := new Builder(8 * count + |s1.strings| + |s2.strings| + HSHRDSIZE, count);
    var i: nat, j: nat, outcount: nat := 0, 0, 0;
    while i < Count(s1) || j < Count(s2)
      invariant i <= Count(s1) && j <= Count(s2) && fresh(b) && fresh(b.data) && Merging(b, s1, i, s2, j, outcount)
      decreases Count(s1) - i + Count(s2) - j
    {
      i, j := JoinStep(b, s1, i, s2, j, outcount);
      outcount := outcount + 1;
    }
    assert Decode(s1)[..i] == Decode(s1) && Decode(s2)[..j] == Decode(s2);
    out := b.Finalize(outcount);
  }

  ghost predicate Merging(b: Builder, s1: HStore, i: nat, s2: HStore, j: nat, outcount: nat)
    requires Structured(s1) && Structured(s2)
    reads b, b.data
  {
    Joining(b, s1, i, s2, j, outcount) && Merged(b.pairs, Decode(s1), i, Decode(s2), j)
  }

  method JoinStep(b: Builder, s1: HStore, i0: nat, s2: HStore, j0: nat, outcount: nat) returns (i: nat, j: nat)
    requires WellFormed(s1) && WellFormed(s2) && i0 <= Count(s1) && j0 <= Count(s2) && (i0 < Count(s1) || j0 < Count(s2))
    requires Merging(b, s1, i0, s2, j0, outcount)
    modifies b, b.data
    ensures b.data == old(b.data) && i <= Count(s1) && j <= Count(s2) && i0 + j0 < i + j && Merging(b, s1, i, s2, j, outcount + 1)
  {
    i, j := i0, j0;
    var difference := MergeNext(b.pairs, Decode(s1), i, Decode(s2), j);
    if difference >= 0 {
      JoinRight(b, s1, i, s2, j, outcount);
      j := j + 1;
      if difference == 0 {
        i := i + 1;
      }
    } else {
      JoinLeft(b, s1, i, s2, j, outcount);
      i := i + 1;
    }
  }

  /** The comparison, with what it makes of the merge. */
  method MergeNext(ghost acc: seq<Pair>, ps: seq<Pair>, i: nat, qs: seq<Pair>, j: nat) returns (difference: int)
    requires SortedKeys(ps) && SortedKeys(qs) && Merged(acc, ps, i, qs, j) && (i < |ps| || j < |qs|)
    ensures difference > 0 ==> j < |qs| && Merged(acc + [qs[j]], ps, i, qs, j + 1)
    ensures difference == 0 ==> i < |ps| && j < |qs| && Merged(acc + [qs[j]], ps, i + 1, qs, j + 1)
    ensures difference < 0 ==> i < |ps| && Merged(acc + [ps[i]], ps, i + 1, qs, j)
  {
    difference := if i >= |ps| then 1 else Difference(ps, i, qs, j);
    if difference > 0 {
      TakeRight(acc, ps, i, qs, j);
    } else if difference == 0 {
      TakeBoth(acc, ps, i, qs, j);
    } else {
      TakeLeft(acc, ps, i, qs, j);
    }
  }
}
