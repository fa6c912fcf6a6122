/** The packed representation of hstore values: the entries and accessors of `hstore.h`. */
module HstoreFormat {
  import opened Bytes

  /** `MaxAllocSize`; no value and no buffer is larger. */
  const MaxAllocSize := 0x3fff_ffff
  const HSHRDSIZE := 8
  const NEWVERSION := 0x8000_0000

  type word = w: int | 0 <= w < 0x1_0000_0000

  /** `HEntry`: two flags and the position where a string ends. */
  datatype HEntry = HEntry(first: bool, isnull: bool, end: nat)

  datatype Value = Null | Text(bytes: seq<byte>)
  datatype Pair = Pair(key: seq<byte>, value: Value)

  function ValueLen(v: Value): nat {
    if v.Null? then 0 else |v.bytes|
  }

  // ----- Entries and strings -----

  /** `HSE_OFF`: a string begins where the previous one ends. */
  function Start(es: seq<HEntry>, k: nat): nat
    requires k <= |es|
  {
    if k == 0 then 0 else es[k-1].end
  }

  /** The two entries of pair `i`: the strings end in order, the key is not null, a null is empty. */
  ghost predicate PairInOrder(es: seq<HEntry>, i: nat)
    requires 2 * i + 2 <= |es|
  {
    && Start(es, 2 * i) <= es[2 * i].end <= es[2 * i + 1].end
    && !es[2 * i].isnull && (es[2 * i + 1].isnull ==> es[2 * i].end == es[2 * i + 1].end)
  }

  /** The entries of `n` pairs, in order, whose strings all lie in the buffer. */
  ghost predicate Laid(es: seq<HEntry>, buf: seq<byte>, n: nat) {
    |es| == 2 * n && (forall i: nat :: i < n ==> PairInOrder(es, i)) && Start(es, 2 * n) <= |buf|
  }

  lemma {:induction false} StartsGrow(es: seq<HEntry>, buf: seq<byte>, n: nat, i: nat)
    requires Laid(es, buf, n) && i <= n
    ensures Start(es, 2 * i) <= Start(es, 2 * n)
    decreases n - i
  {
    if i < n {
      assert PairInOrder(es, i);
      StartsGrow(es, buf, n, i + 1);
    }
  }

  lemma LaidBounds(es: seq<HEntry>, buf: seq<byte>, n: nat, i: nat)
    requires Laid(es, buf, n) && i < n
    ensures Start(es, 2 * i) <= es[2 * i].end <= es[2 * i + 1].end <= Start(es, 2 * n) <= |buf|
  {
    assert PairInOrder(es, i);
    StartsGrow(es, buf, n, i + 1);
  }

  /** `HS_KEY` with `HS_KEYLEN` */
  function KeyAt(es: seq<HEntry>, buf: seq<byte>, n: nat, i: nat): seq<byte>
    requires Laid(es, buf, n) && i < n
  {
    LaidBounds(es, buf, n, i);
    buf[Start(es, 2 * i)..es[2 * i].end]
  }

  /** `HS_VAL` with `HS_VALLEN` and `HS_VALISNULL` */
  function ValueAt(es: seq<HEntry>, buf: seq<byte>, n: nat, i: nat): Value
    requires Laid(es, buf, n) && i < n
  {
    LaidBounds(es, buf, n, i);
    if es[2 * i + 1].isnull then Null else Text(buf[es[2 * i].end..es[2 * i + 1].end])
  }

  function PairsAt(es: seq<HEntry>, buf: seq<byte>, n: nat): (ps: seq<Pair>)
    requires Laid(es, buf, n)
    ensures |ps| == n
  {
    seq(n, i requires 0 <= i < n => Pair(KeyAt(es, buf, n, i), ValueAt(es, buf, n, i)))
  }

  /** The entries agree but for the first flag. */
  ghost predicate SameEntries(es: seq<HEntry>, es': seq<HEntry>) {
    |es| == |es'| && forall k :: 0 <= k < |es| ==> es'[k].end == es[k].end && es'[k].isnull == es[k].isnull
  }

  lemma SameLaid(es: seq<HEntry>, es': seq<HEntry>, buf: seq<byte>, n: nat)
    requires Laid(es, buf, n) && SameEntries(es, es')
    ensures Laid(es', buf, n) && Start(es, 2 * n) == Start(es', 2 * n)
  {
    forall i: nat | i < n ensures PairInOrder(es', i) { assert PairInOrder(es, i); }
  }

  /** Neither the first flag nor what lies behind the strings matters. */
  lemma SamePairs(es: seq<HEntry>, buf: seq<byte>, es': seq<HEntry>, buf': seq<byte>, n: nat)
    requires Laid(es, buf, n) && SameEntries(es, es')
    requires Start(es, 2 * n) <= |buf'| && buf'[..Start(es, 2 * n)] == buf[..Start(es, 2 * n)]
    ensures Laid(es', buf', n) && PairsAt(es', buf', n) == PairsAt(es, buf, n)
  {
    SameLaid(es, es', buf, n);
    forall i | 0 <= i < n
      ensures KeyAt(es', buf', n, i) == KeyAt(es, buf, n, i) && ValueAt(es', buf', n, i) == ValueAt(es, buf, n, i)
    {
      LaidBounds(es, buf, n, i);
      SubSlice(buf, buf', Start(es, 2 * n), Start(es, 2 * i), es[2 * i].end);
      SubSlice(buf, buf', Start(es, 2 * n), es[2 * i].end, es[2 * i + 1].end);
    }
  }

  lemma SubSlice(b: seq<byte>, b': seq<byte>, n: nat, i: nat, j: nat)
    requires n <= |b| && n <= |b'| && b'[..n] == b[..n] && i <= j <= n
    ensures b'[i..j] == b[i..j]
  {
    assert b'[i..j] == b'[..n][i..j] && b[i..j] == b[..n][i..j];
  }

  /** The entries that follow `es` for one more pair. */
  function PairEntries(es: seq<HEntry>, p: Pair): seq<HEntry> {
    var s := Start(es, |es|);
    [HEntry(false, false, s + |p.key|), HEntry(false, p.value.Null?, s + |p.key| + ValueLen(p.value))]
  }

  function PairBytes(p: Pair): (b: seq<byte>)
    ensures |b| == |p.key| + ValueLen(p.value)
  {
    p.key + if p.value.Null? then [] else p.value.bytes
  }

  /** Adding the entries and the strings of a pair adds the pair. */
  lemma LaidStep(es: seq<HEntry>, buf: seq<byte>, n: nat, p: Pair)
    requires Laid(es, buf, n) && |buf| == Start(es, 2 * n)
    ensures var es', buf' := es + PairEntries(es, p), buf + PairBytes(p);
      Laid(es', buf', n + 1) && |buf'| == Start(es', 2 * n + 2) && PairsAt(es', buf', n + 1) == PairsAt(es, buf, n) + [p]
  {
    var es', buf' := es + PairEntries(es, p), buf + PairBytes(p);
    forall i: nat | i < n + 1 ensures PairInOrder(es', i) {
      if i < n { assert PairInOrder(es, i); }
    }
    assert es'[..2 * n] == es && buf'[..|buf|] == buf;
    SamePairs(es, buf, es, buf', n);
    forall i | 0 <= i < n ensures PairsAt(es', buf', n + 1)[i] == PairsAt(es, buf', n)[i] {}
    assert KeyAt(es', buf', n + 1, n) == p.key;
    assert ValueAt(es', buf', n + 1, n) == p.value;
  }

  // ----- Values -----

  /** A value: the size word, the entries and the strings. */
  datatype HStore = HStore(size: word, entries: seq<HEntry>, strings: seq<byte>)

  function Count(hs: HStore): nat {
    hs.size % 0x1000_0000
  }

  function VarSize(hs: HStore): nat {
    HSHRDSIZE + 4 * |hs.entries| + |hs.strings|
  }

  ghost predicate Flagged(es: seq<HEntry>) {
    forall k :: 0 <= k < |es| ==> (es[k].first <==> k == 0)
  }

  /** A value in the present format, of exact size. */
  ghost predicate Structured(hs: HStore) {
    && hs.size == 0x8000_0000 + Count(hs) && VarSize(hs) <= MaxAllocSize
    && Laid(hs.entries, hs.strings, Count(hs)) && Flagged(hs.entries)
    && |hs.strings| == Start(hs.entries, 2 * Count(hs))
  }

  /** The pairs of a value, in stored order. */
  function Decode(hs: HStore): (ps: seq<Pair>)
    requires Structured(hs)
    ensures |ps| == Count(hs)
  {
    PairsAt(hs.entries, hs.strings, Count(hs))
  }

  /** The order of keys: by length, then by `memcmp`. */
  function KeyCmp(a: seq<byte>, b: seq<byte>): int {
    if |a| == |b| then Compare(a, b) else if |a| > |b| then 1 else -1
  }

  lemma KeyCmpOrder(a: seq<byte>, b: seq<byte>)
    ensures KeyCmp(a, b) == -KeyCmp(b, a) && (KeyCmp(a, b) == 0 <==> a == b)
  {
    CompareAntisymmetric(a, b);
  }

  lemma KeyCmpTransitive(a: seq<byte>, b: seq<byte>, c: seq<byte>)
    requires KeyCmp(a, b) <= 0 && KeyCmp(b, c) <= 0
    ensures KeyCmp(a, c) <= 0
    ensures KeyCmp(a, b) < 0 || KeyCmp(b, c) < 0 ==> KeyCmp(a, c) < 0
  {
    KeyCmpOrder(a, c);
    KeyCmpOrder(a, b);
    KeyCmpOrder(b, c);
    if |a| == |b| == |c| {
      Between(a, b, c);
    }
  }

  ghost predicate SortedKeys(ps: seq<Pair>) {
    forall i, j :: 0 <= i < j < |ps| ==> KeyCmp(ps[i].key, ps[j].key) < 0
  }

  ghost predicate WellFormed(hs: HStore) {
    Structured(hs) && SortedKeys(Decode(hs))
  }

  /** A shorter key comes first; of keys of the same length, the one with the smaller byte where they first differ. */
  ghost predicate KeyBefore(a: seq<byte>, b: seq<byte>) {
    |a| < |b| || (|a| == |b| && exists k: nat :: k < |a| && a[..k] == b[..k] && a[k] < b[k])
  }

  lemma KeyBelow(a: seq<byte>, b: seq<byte>)
    ensures KeyCmp(a, b) < 0 <==> KeyBefore(a, b)
  {
    CompareSign(a, b);
    if |a| == |b| {
      if Precedes(a, b) {
        var k: nat :| k <= |a| && k < |b| && a[..k] == b[..k] && (k == |a| || a[k] < b[k]);
        assert k < |a| && a[..k] == b[..k] && a[k] < b[k];
      }
      if KeyBefore(a, b) {
        var k: nat :| k < |a| && a[..k] == b[..k] && a[k] < b[k];
        PrecedesAt(a, b, k);
      }
    }
  }

  /** The sign of a comparison of keys, told by their lengths and bytes. */
  lemma KeyCmpSign(a: seq<byte>, b: seq<byte>)
    ensures KeyCmp(a, b) == if KeyBefore(a, b) then -1 else if KeyBefore(b, a) then 1 else 0
    ensures !(KeyBefore(a, b) && KeyBefore(b, a)) && (a == b <==> !KeyBefore(a, b) && !KeyBefore(b, a))
  {
    KeyBelow(a, b);
    KeyBelow(b, a);
    KeyCmpOrder(a, b);
  }

  ghost predicate InKeyOrder(ps: seq<Pair>) {
    forall i, j :: 0 <= i < j < |ps| ==> KeyBefore(ps[i].key, ps[j].key)
  }

  lemma SortedIffInOrder(ps: seq<Pair>)
    ensures SortedKeys(ps) <==> InKeyOrder(ps)
  {
    forall i, j | 0 <= i < j < |ps| ensures KeyCmp(ps[i].key, ps[j].key) < 0 <==> KeyBefore(ps[i].key, ps[j].key) {
      KeyBelow(ps[i].key, ps[j].key);
    }
  }

  /** A value is well-formed if and only if it has the present format, exact size, and keys in this order. */
  lemma WellFormedIff(hs: HStore)
    ensures WellFormed(hs) <==> Structured(hs) && InKeyOrder(Decode(hs))
  {
    if Structured(hs) { SortedIffInOrder(Decode(hs)); }
  }

  /** The pairs of a list determine the entries, but for the first flag, and the strings. */
  lemma {:induction false} PairsDetermine(es: seq<HEntry>, buf: seq<byte>, es': seq<HEntry>, buf': seq<byte>, n: nat)
    requires Laid(es, buf, n) && Laid(es', buf', n) && |buf| == Start(es, 2 * n) && |buf'| == Start(es', 2 * n)
    requires PairsAt(es, buf, n) == PairsAt(es', buf', n)
    ensures SameEntries(es, es') && buf == buf'
  {
    if n > 0 {
      LastPair(es, buf, n);
      LastPair(es', buf', n);
      var k := 2 * n - 2;
      PairsDetermine(es[..k], buf[..Start(es, k)], es'[..k], buf'[..Start(es', k)], n - 1);
      assert PairsAt(es, buf, n)[n-1] == PairsAt(es', buf', n)[n-1];
      SameLast(es, buf, es', buf', n, PairsAt(es, buf, n)[n-1]);
    }
  }

  ghost predicate EndsWith(es: seq<HEntry>, buf: seq<byte>, n: nat, p: Pair)
    requires n > 0 && |es| == 2 * n
  {
    var s, v, w := Start(es, 2 * n - 2), es[2 * n - 2], es[2 * n - 1];
    && !v.isnull && w.isnull == p.value.Null? && s + |p.key| == v.end && v.end + ValueLen(p.value) == w.end == |buf|
    && buf == buf[..s] + PairBytes(p)
  }

  lemma LastPair(es: seq<HEntry>, buf: seq<byte>, n: nat)
    requires n > 0 && Laid(es, buf, n) && |buf| == Start(es, 2 * n)
    ensures var k := 2 * n - 2;
      && Start(es, k) <= |buf| && Laid(es[..k], buf[..Start(es, k)], n - 1) && Start(es[..k], k) == Start(es, k)
      && PairsAt(es[..k], buf[..Start(es, k)], n - 1) == PairsAt(es, buf, n)[..n-1]
    ensures EndsWith(es, buf, n, PairsAt(es, buf, n)[n-1])
  {
    var k := 2 * n - 2;
    LaidBounds(es, buf, n, n - 1);
    assert PairInOrder(es, n - 1);
    forall i: nat | i < n - 1 ensures PairInOrder(es[..k], i) { assert PairInOrder(es, i); }
    ShorterPairs(es, buf, n, k);
    var p := PairsAt(es, buf, n)[n-1];
    assert buf == buf[..Start(es, k)] + buf[Start(es, k)..es[k].end] + buf[es[k].end..];
  }

  lemma ShorterPairs(es: seq<HEntry>, buf: seq<byte>, n: nat, k: nat)
    requires n > 0 && k == 2 * n - 2 && Laid(es, buf, n) && Start(es, k) <= |buf| && Laid(es[..k], buf[..Start(es, k)], n - 1)
    ensures PairsAt(es[..k], buf[..Start(es, k)], n - 1) == PairsAt(es, buf, n)[..n-1]
  {
    var b := buf[..Start(es, k)];
    forall i | 0 <= i < n - 1
      ensures KeyAt(es[..k], b, n - 1, i) == KeyAt(es, buf, n, i) && ValueAt(es[..k], b, n - 1, i) == ValueAt(es, buf, n, i)
    {
      LaidBounds(es[..k], b, n - 1, i);
    }
  }

  lemma SameLast(es: seq<HEntry>, buf: seq<byte>, es': seq<HEntry>, buf': seq<byte>, n: nat, p: Pair)
    requires n > 0 && |es| == |es'| == 2 * n && EndsWith(es, buf, n, p) && EndsWith(es', buf', n, p)
    requires SameEntries(es[..2 * n - 2], es'[..2 * n - 2])
    requires buf[..Start(es, 2 * n - 2)] == buf'[..Start(es', 2 * n - 2)]
    ensures SameEntries(es, es') && buf == buf'
  {
    forall k | 0 <= k < 2 * n ensures es'[k].end == es[k].end && es'[k].isnull == es[k].isnull {
      if k < 2 * n - 2 {
        assert es[k] == es[..2 * n - 2][k] && es'[k] == es'[..2 * n - 2][k];
      }
    }
  }

  /** A value is determined by its pairs. */
  lemma PackedUnique(a: HStore, b: HStore)
    requires Structured(a) && Structured(b) && Decode(a) == Decode(b)
    ensures a == b
  {
    assert Count(a) == |Decode(a)| == |Decode(b)| == Count(b);
    PairsDetermine(a.entries, a.strings, b.entries, b.strings, Count(a));
    assert a.entries == b.entries;
  }
}
