/** Searching packed values by binary search with a cached lower bound, and the operators built on it. */
module HstoreSearch {
  import opened Bytes
  import opened HstoreFormat
  import opened HstoreMap
  import opened HstorePairs
  import opened HstoreOps

  // ----- The search -----

  ghost predicate AllBefore(ps: seq<Pair>, n: nat, key: seq<byte>) {
    n <= |ps| && forall k :: 0 <= k < n ==> KeyCmp(ps[k].key, key) < 0
  }

  ghost predicate AllAfter(ps: seq<Pair>, n: nat, key: seq<byte>) {
    n <= |ps| && forall k :: n <= k < |ps| ==> KeyCmp(ps[k].key, key) > 0
  }

  /** No key of the first `n` comes after `key`. */
  ghost predicate NoneAfter(ps: seq<Pair>, n: nat, key: seq<byte>) {
    n <= |ps| && forall k :: 0 <= k < n ==> KeyCmp(ps[k].key, key) <= 0
  }

  lemma SearchUp(ps: seq<Pair>, mid: nat, key: seq<byte>)
    requires SortedKeys(ps) && mid < |ps| && KeyCmp(ps[mid].key, key) <= 0
    ensures NoneAfter(ps, mid + 1, key) && AllBefore(ps, mid, key)
    ensures KeyCmp(ps[mid].key, key) < 0 ==> AllBefore(ps, mid + 1, key)
  {
    forall k | 0 <= k < mid ensures KeyCmp(ps[k].key, key) < 0 {
      KeyCmpTransitive(ps[k].key, ps[mid].key, key);
    }
  }

  lemma SearchDown(ps: seq<Pair>, mid: nat, key: seq<byte>)
    requires SortedKeys(ps) && mid < |ps| && KeyCmp(ps[mid].key, key) > 0
    ensures AllAfter(ps, mid, key)
  {
    forall k | mid < k < |ps| ensures KeyCmp(ps[k].key, key) > 0 {
      KeyCmpOrder(ps[k].key, key);
      KeyCmpOrder(ps[mid].key, key);
      KeyCmpTransitive(key, ps[mid].key, ps[k].key);
    }
  }

  lemma NotThere(ps: seq<Pair>, n: nat, key: seq<byte>)
    requires AllBefore(ps, n, key) && AllAfter(ps, n, key)
    ensures key !in MapOf(ps)
  {
    MapKeys(ps, key);
    forall k | 0 <= k < |ps| ensures ps[k].key != key { KeyCmpOrder(ps[k].key, key); }
  }

  /** Where a full search finds the key, or -1. */
  ghost predicate IsPosition(ps: seq<Pair>, key: seq<byte>, idx: int) {
    -1 <= idx < |ps| && (idx >= 0 ==> ps[idx].key == key) && (idx == -1 ==> key !in MapOf(ps))
  }

  /** A sorted list has one position for a key. */
  lemma PositionUnique(ps: seq<Pair>, key: seq<byte>, a: int, b: int)
    requires SortedKeys(ps) && IsPosition(ps, key, a) && IsPosition(ps, key, b)
    ensures a == b
  {
    MapKeys(ps, key);
    KeyCmpOrder(key, key);
  }

  /** `hstoreFindKey`: what lies below the lower bound must come before the key; the new lower bound is good
      for every later key. */
  method HstoreFindKey(hs: HStore, lowbound: nat, key: seq<byte>) returns (idx: int, low: nat)
    requires WellFormed(hs) && AllBefore(Decode(hs), lowbound, key)
    ensures IsPosition(Decode(hs), key, idx) && NoneAfter(Decode(hs), low, key)
    ensures lowbound <= low && (idx >= 0 ==> lowbound <= idx && low == idx + 1)
  {
    ghost var ps := Decode(hs);
    var stopLow, stopHigh := lowbound, Count(hs);
    while stopLow < stopHigh
      invariant lowbound <= stopLow <= stopHigh <= Count(hs) && AllBefore(ps, stopLow, key) && AllAfter(ps, stopHigh, key)
    {
      var stopMiddle := stopLow + (stopHigh - stopLow) / 2;
      var difference := KeyCmp(Decode(hs)[stopMiddle].key, key);
      if difference == 0 {
        KeyCmpOrder(ps[stopMiddle].key, key);
        SearchUp(ps, stopMiddle, key);
        return stopMiddle, stopMiddle + 1;
      } else if difference < 0 {
        SearchUp(ps, stopMiddle, key);
        stopLow := stopMiddle + 1;
      } else {
        SearchDown(ps, stopMiddle, key);
        stopHigh := stopMiddle;
      }
    }
    NotThere(ps, stopLow, key);
    return -1, stopLow;
  }

  /** The cached bound is good for the next key of an ascending sequence. */
  lemma BoundCarries(ps: seq<Pair>, low: nat, key: seq<byte>, later: seq<byte>)
    requires NoneAfter(ps, low, key) && KeyCmp(key, later) < 0
    ensures AllBefore(ps, low, later)
  {
    forall k | 0 <= k < low ensures KeyCmp(ps[k].key, later) < 0 { KeyCmpTransitive(ps[k].key, key, later); }
  }

  /** The lower bound is good for the probe at `i`. */
  ghost predicate BoundGood(ps: seq<Pair>, low: nat, qs: seq<Pair>, i: nat) {
    low <= |ps| && (i < |qs| ==> AllBefore(ps, low, qs[i].key))
  }

  /** One probe of an ascending sequence of keys. */
  method Probe(hs: HStore, low: nat, qs: seq<Pair>, i: nat) returns (idx: int, next: nat)
    requires WellFormed(hs) && SortedKeys(qs) && i < |qs| && BoundGood(Decode(hs), low, qs, i)
    ensures IsPosition(Decode(hs), qs[i].key, idx) && BoundGood(Decode(hs), next, qs, i + 1)
    ensures low <= next && (idx >= 0 ==> low <= idx && next == idx + 1)
  {
    idx, next := HstoreFindKey(hs, low, qs[i].key);
    if i + 1 < |qs| { BoundCarries(Decode(hs), next, qs[i].key, qs[i+1].key); }
  }

  // ----- Containment and existence -----

  ghost predicate SubDict(small: Dict, large: Dict) {
    forall k :: k in small ==> k in large && large[k] == small[k]
  }

  lemma SubDictNext(ps: seq<Pair>, i: nat, large: Dict)
    requires SortedKeys(ps) && i < |ps|
    ensures SubDict(MapOf(ps[..i+1]), large) <==>
            SubDict(MapOf(ps[..i]), large) && ps[i].key in large && large[ps[i].key] == ps[i].value
  {
    var m, m' := MapOf(ps[..i]), MapOf(ps[..i+1]);
    MapOfNext(ps, i);
    SortedBelow(ps, i);
    BelowFresh(ps[..i], ps[i].key);
    if SubDict(m', large) {
      forall k | k in m ensures k in large && large[k] == m[k] { assert m'[k] == m[k]; }
    }
  }

  lemma {:induction false} SubDictWhole(ps: seq<Pair>, i: nat, large: Dict)
    requires SortedKeys(ps) && i <= |ps| && SubDict(MapOf(ps), large)
    ensures SubDict(MapOf(ps[..i]), large)
    decreases |ps| - i
  {
    if i == |ps| {
      assert ps[..i] == ps;
    } else {
      SubDictWhole(ps, i + 1, large);
      SubDictNext(ps, i, large);
    }
  }

  /** What a position says about the map. */
  lemma PositionValue(ps: seq<Pair>, key: seq<byte>, idx: int)
    requires SortedKeys(ps) && IsPosition(ps, key, idx)
    ensures key in MapOf(ps) <==> idx >= 0
    ensures idx >= 0 ==> MapOf(ps)[key] == ps[idx].value
  {
    if idx >= 0 { MapAt(ps, idx); }
  }

  /** `hstore_contains`. */
  method Contains(val: HStore, tmpl: HStore) returns (res: bool)
    requires WellFormed(val) && WellFormed(tmpl)
    ensures res <==> forall k :: k in Meaning(tmpl) ==> k in Meaning(val) && Meaning(val)[k] == Meaning(tmpl)[k]
  {
    ghost var large, ts := Meaning(val), Decode(tmpl);
    res := true;
    var i, low := 0, 0;
    while res && i < Count(tmpl)
      invariant 0 <= i <= Count(tmpl) && 0 <= low && (res ==> BoundGood(Decode(val), low, ts, i))
      invariant res <==> SubDict(MapOf(ts[..i]), large)
    {
      SubDictNext(ts, i, large);
      var idx;
      idx, low := Probe(val, low, Decode(tmpl), i);
      PositionValue(Decode(val), ts[i].key, idx);
      res := idx >= 0 && SameValue(Decode(tmpl)[i].value, Decode(val)[idx].value);
      i := i + 1;
    }
    if res {
      assert ts[..i] == ts;
    } else if SubDict(MapOf(ts), large) {
      SubDictWhole(ts, i, large);
    }
  }

  /** `hstore_exists_any`. */
  method ExistsAny(hs: HStore, keys: seq<Value>) returns (r: Outcome<bool>)
    requires WellFormed(hs)
    ensures r.TooLarge? <==> |keys| > 26843545
    ensures r.Done? ==> (r.value <==> exists k :: k in Meaning(hs) && Text(k) in keys)
  {
    var pairs := HstoreArrayToPairs(keys);
    if pairs.TooLarge? {
      return TooLarge;
    }
    var qs := Contents(pairs.value);
    var i, low := 0, 0;
    while i < |qs|
      invariant 0 <= i <= |qs| && 0 <= low && BoundGood(Decode(hs), low, qs, i)
      invariant forall j :: 0 <= j < i ==> qs[j].key !in Meaning(hs)
    {
      var idx;
      idx, low := Probe(hs, low, qs, i);
      PositionValue(Decode(hs), qs[i].key, idx);
      if idx >= 0 {
        MapAt(qs, i);
        assert qs[i].key in Meaning(hs);
        return Done(true);
      }
      i := i + 1;
    }
    forall k | Text(k) in keys ensures k !in Meaning(hs) { MapKeys(qs, k); }
    return Done(false);
  }

  /** `hstore_exists_all`. */
  method ExistsAll(hs: HStore, keys: seq<Value>) returns (r: Outcome<bool>)
    requires WellFormed(hs)
    ensures r.TooLarge? <==> |keys| > 26843545
    ensures r.Done? ==> (r.value <==> forall k :: Text(k) in keys ==> k in Meaning(hs))
  {
    var pairs := HstoreArrayToPairs(keys);
    if pairs.TooLarge? {
      return TooLarge;
    }
    var qs := Contents(pairs.value);
    var i, low := 0, 0;
    while i < |qs|
      invariant 0 <= i <= |qs| && 0 <= low && BoundGood(Decode(hs), low, qs, i)
      invariant forall j :: 0 <= j < i ==> qs[j].key in Meaning(hs)
    {
      var idx;
      idx, low := Probe(hs, low, qs, i);
      PositionValue(Decode(hs), qs[i].key, idx);
      if idx < 0 {
        MapAt(qs, i);
        assert Text(qs[i].key) in keys;
        return Done(false);
      }
      i := i + 1;
    }
    forall k | Text(k) in keys ensures k in Meaning(hs) { MapKeys(qs, k); }
    return Done(true);
  }

  // ----- Slices -----

  /** The values that `m` has for the keys of another map. */
  ghost function ValuesFor(keys: Dict, m: Dict): Dict {
    map k | k in keys && k in m :: m[k]
  }

  lemma ValuesForStep(keys: Dict, k: seq<byte>, v: Value, m: Dict)
    ensures ValuesFor(keys[k := v], m) == if k in m then ValuesFor(keys, m)[k := m[k]] else ValuesFor(keys, m)
  {}

  /** The pairs of `m` for the first `i` keys, in order. */
  ghost predicate Sliced(acc: seq<Pair>, qs: seq<Pair>, i: nat, m: Dict) {
    && i <= |qs| && SortedKeys(acc) && MapOf(acc) == ValuesFor(MapOf(qs[..i]), m)
    && (i < |qs| ==> Below(acc, qs[i].key))
  }

  lemma SliceStep(acc: seq<Pair>, qs: seq<Pair>, i: nat, m: Dict)
    requires Sliced(acc, qs, i, m) && SortedKeys(qs) && i < |qs|
    ensures qs[i].key !in m ==> Sliced(acc, qs, i + 1, m)
    ensures qs[i].key in m ==> Sliced(acc + [Pair(qs[i].key, m[qs[i].key])], qs, i + 1, m)
  {
    var key := qs[i].key;
    MapOfNext(qs, i);
    ValuesForStep(MapOf(qs[..i]), key, qs[i].value, m);
    if key in m {
      var p := Pair(key, m[key]);
      MapOfAppend(acc, p);
      SortedStep(acc, p);
      if i + 1 < |qs| { BelowStep(acc, p, qs[i+1].key); }
    } else if i + 1 < |qs| {
      BelowLater(acc, key, qs[i+1].key);
    }
  }

  /** The pairs found so far, and that they take no more room than the part of the value already searched. */
  ghost predicate Slicing(out: seq<InPair>, bufsiz: nat, hs: HStore, low: nat, qs: seq<Pair>, i: nat)
    requires Structured(hs)
  {
    && Sliced(Contents(out), qs, i, Meaning(hs)) && BoundGood(Decode(hs), low, qs, i)
    && bufsiz == PairsLen(out) <= Start(hs.entries, 2 * low) && |out| <= low
  }

  /** One key of the slice. */
  method SliceOne(out: seq<InPair>, bufsiz: nat, hs: HStore, low: nat, keys: seq<InPair>, i: nat)
    returns (out': seq<InPair>, bufsiz': nat, low': nat)
    requires WellFormed(hs) && SortedKeys(Contents(keys)) && i < |keys| && low <= Count(hs)
    requires Slicing(out, bufsiz, hs, low, Contents(keys), i)
    ensures low' <= Count(hs) && Slicing(out', bufsiz', hs, low', Contents(keys), i + 1)
  {
    var qs := Contents(keys);
    var idx;
    idx, low' := Probe(hs, low, qs, i);
    PositionValue(Decode(hs), qs[i].key, idx);
    SliceStep(Contents(out), qs, i, Meaning(hs));
    SliceRoom(hs, low, low');
    out', bufsiz' := out, bufsiz;
    if idx >= 0 {
      var v := Decode(hs)[idx].value;
      var p := InPair(keys[i].key, if v.Null? then [] else v.bytes, v.Null?, false);
      out' := out + [p];
      bufsiz' := bufsiz + PairLen(p);
      AddedPair(out, p);
      PairRoom(hs, low, idx);
    }
  }

  lemma AddedPair(out: seq<InPair>, p: InPair)
    ensures Contents(out + [p]) == Contents(out) + [Content(p)] && PairsLen(out + [p]) == PairsLen(out) + PairLen(p)
  {
    assert (out + [p])[..|out|] == out;
  }

  lemma SliceRoom(hs: HStore, low: nat, next: nat)
    requires Structured(hs) && low <= next <= Count(hs)
    ensures Start(hs.entries, 2 * low) <= Start(hs.entries, 2 * next)
    decreases next - low
  {
    if low < next {
      LaidBounds(hs.entries, hs.strings, Count(hs), low);
      SliceRoom(hs, low + 1, next);
    }
  }

  lemma PairRoom(hs: HStore, low: nat, idx: nat)
    requires Structured(hs) && low <= idx < Count(hs)
    ensures var p := Decode(hs)[idx];
      Start(hs.entries, 2 * low) + |p.key| + ValueLen(p.value) <= Start(hs.entries, 2 * idx + 2)
  {
    SliceRoom(hs, low, idx);
    LaidBounds(hs.entries, hs.strings, Count(hs), idx);
  }

  /** `hstore_slice_to_hstore`. */
  method SliceToHstore(hs: HStore, keys: seq<Value>) returns (r: Outcome<HStore>)
    requires WellFormed(hs)
    ensures r.TooLarge? <==> |keys| > 26843545
    ensures r.Done? ==> WellFormed(r.value) && Meaning(r.value) == map k | k in Meaning(hs) && Text(k) in keys :: Meaning(hs)[k]
  {
    var pairs := HstoreArrayToPairs(keys);
    if pairs.TooLarge? {
      return TooLarge;
    }
    ghost var qs := Contents(pairs.value);
    var out: seq<InPair>, bufsiz: nat, low: nat := [], 0, 0;
    var i := 0;
    while i < |pairs.value|
      invariant 0 <= i <= |qs| && low <= Count(hs) && Slicing(out, bufsiz, hs, low, qs, i)
    {
      out, bufsiz, low := SliceOne(out, bufsiz, hs, low, pairs.value, i);
      i := i + 1;
    }
    assert qs[..i] == qs;
    SliceRoom(hs, low, Count(hs));
    r := HstorePairs.HstorePairs(out, bufsiz);
  }
}
