/** Packed values in memory, built in place: `HS_COPYITEM`, `HS_ADDITEM`, `HS_FINALIZE` and `HS_FIXSIZE`. */
module HstoreBuild {
  import opened Bytes
  import opened HstoreFormat

  // ----- Entries in memory -----

  /** `HSE_ISFIRST`, `HSE_ISNULL` and `HSE_ENDPOS` of a word, low byte first: two flags above 30 bits. */
  function FromBytes(a: byte, b: byte, c: byte, d: byte): HEntry {
    HEntry(d >= 0x80, d % 0x80 >= 0x40, a + 0x100 * b + 0x1_0000 * c + 0x100_0000 * (d % 0x40))
  }

  /** The bytes of the word of an entry. */
  function BytesOf(e: HEntry): (s: seq<byte>)
    requires e.end < 0x4000_0000
    ensures |s| == 4
  {
    [e.end % 0x100, e.end / 0x100 % 0x100, e.end / 0x1_0000 % 0x100,
     e.end / 0x100_0000 + (if e.isnull then 0x40 else 0) + (if e.first then 0x80 else 0)]
  }

  lemma ThreeBytes(x: nat)
    ensures x % 0x100 + 0x100 * (x / 0x100 % 0x100) + 0x1_0000 * (x / 0x1_0000 % 0x100) + 0x100_0000 * (x / 0x100_0000) == x
  {
    assert x / 0x100 / 0x100 == x / 0x1_0000 && x / 0x1_0000 / 0x100 == x / 0x100_0000;
  }

  lemma TopByte(x: nat, isnull: bool, first: bool)
    requires x < 0x40
    ensures var d := x + (if isnull then 0x40 else 0) + (if first then 0x80 else 0);
      (d >= 0x80 <==> first) && (d % 0x80 >= 0x40 <==> isnull) && d % 0x40 == x
  {}

  lemma ReadBack(e: HEntry)
    requires e.end < 0x4000_0000
    ensures var s := BytesOf(e); FromBytes(s[0], s[1], s[2], s[3]) == e
  {
    ThreeBytes(e.end);
    TopByte(e.end / 0x100_0000, e.isnull, e.first);
  }

  lemma LowByte(a: byte, x: int, a': byte, x': int)
    requires a + 0x100 * x == a' + 0x100 * x'
    ensures a == a' && x == x'
  {}

  /** The word of four bytes, low byte first. */
  function WordOf(a: int, b: int, c: int, d: int): int {
    a + 0x100 * b + 0x1_0000 * c + 0x100_0000 * d
  }

  /** The fields of an entry, by the word its bytes make up. */
  lemma WordFields(a: byte, b: byte, c: byte, d: byte)
    ensures var w, e := WordOf(a, b, c, d), FromBytes(a, b, c, d);
      (e.first <==> w >= 0x8000_0000) && (e.isnull <==> w / 0x4000_0000 % 2 == 1) && e.end == w % 0x4000_0000
  {
    var q, x := d / 0x40, a + 0x100 * b + 0x1_0000 * c + 0x100_0000 * (d % 0x40);
    assert d == 0x40 * q + d % 0x40;
    assert WordOf(a, b, c, d) == x + 0x4000_0000 * q;
    PosMask(x, q);
    TopFlags(d);
  }

  lemma PosMask(x: nat, q: nat)
    requires x < 0x4000_0000
    ensures (x + 0x4000_0000 * q) % 0x4000_0000 == x && (x + 0x4000_0000 * q) / 0x4000_0000 == q
  {}

  lemma TopFlags(d: byte)
    ensures (d >= 0x80 <==> d / 0x40 >= 2) && (d % 0x80 >= 0x40 <==> d / 0x40 % 2 == 1)
  {}

  /** The word of an entry is its position and its flags. */
  lemma WordOfEntry(e: HEntry)
    requires e.end < 0x4000_0000
    ensures var s := BytesOf(e);
      WordOf(s[0], s[1], s[2], s[3]) == e.end + (if e.isnull then 0x4000_0000 else 0) + (if e.first then 0x8000_0000 else 0)
  {
    ThreeBytes(e.end);
  }

  /** An entry is read from one sequence of four bytes only. */
  lemma BytesDetermined(a: byte, b: byte, c: byte, d: byte, a': byte, b': byte, c': byte, d': byte)
    requires FromBytes(a, b, c, d) == FromBytes(a', b', c', d')
    ensures a == a' && b == b' && c == c' && d == d'
  {
    LowByte(a, b + 0x100 * c + 0x1_0000 * (d % 0x40), a', b' + 0x100 * c' + 0x1_0000 * (d' % 0x40));
    LowByte(b, c + 0x100 * (d % 0x40), b', c' + 0x100 * (d' % 0x40));
    LowByte(c, d % 0x40, c', d' % 0x40);
  }

  function EntryAt(m: seq<byte>, k: nat): HEntry
    requires 4 * k + 4 <= |m|
  {
    FromBytes(m[4*k], m[4*k+1], m[4*k+2], m[4*k+3])
  }

  ghost predicate EntryIs(m: seq<byte>, k: nat, e: HEntry) {
    4 * k + 4 <= |m| && EntryAt(m, k) == e
  }

  /** The entries stand at the front of the area. */
  ghost predicate Stored(m: seq<byte>, es: seq<HEntry>) {
    4 * |es| <= |m| && forall k: nat {:trigger EntryIs(m, k, es[k])} :: k < |es| ==> EntryIs(m, k, es[k])
  }

  /** The areas agree from `lo` up to `hi`. */
  ghost predicate Same(m: seq<byte>, m': seq<byte>, lo: nat, hi: nat) {
    lo <= hi <= |m| == |m'| && forall i :: lo <= i < hi ==> m'[i] == m[i]
  }

  /** The string lies in the area at `at`. */
  ghost predicate LiesAt(m: seq<byte>, at: nat, s: seq<byte>) {
    at + |s| <= |m| && forall i :: at <= i < at + |s| ==> m[i] == s[i - at]
  }

  lemma LiesAtSlice(m: seq<byte>, at: nat, s: seq<byte>)
    requires LiesAt(m, at, s)
    ensures m[at..at + |s|] == s
  {}

  lemma SameSlice(m: seq<byte>, m': seq<byte>, lo: nat, hi: nat)
    requires Same(m, m', lo, hi)
    ensures m'[lo..hi] == m[lo..hi]
  {}

  lemma EntrySame(m: seq<byte>, m': seq<byte>, k: nat)
    requires Same(m, m', 4 * k, 4 * k + 4)
    ensures EntryAt(m', k) == EntryAt(m, k)
  {}

  lemma StoredSame(m: seq<byte>, m': seq<byte>, es: seq<HEntry>)
    requires Stored(m, es) && Same(m, m', 0, 4 * |es|)
    ensures Stored(m', es)
  {
    forall k: nat | k < |es| ensures EntryIs(m', k, es[k]) {
      assert EntryIs(m, k, es[k]);
      EntrySame(m, m', k);
    }
  }

  // ----- Memory operations -----

  method PutEntry(data: array<byte>, k: nat, e: HEntry)
    requires 4 * k + 4 <= data.Length && e.end < 0x4000_0000
    modifies data
    ensures EntryIs(data[..], k, e)
    ensures Same(old(data[..]), data[..], 0, 4 * k) && Same(old(data[..]), data[..], 4 * k + 4, data.Length)
  {
    ReadBack(e);
    var s := BytesOf(e);
    data[4*k] := s[0];
    data[4*k+1] := s[1];
    data[4*k+2] := s[2];
    data[4*k+3] := s[3];
  }

  /** `|= HENTRY_ISFIRST` on the first entry. */
  method FlagFirst(data: array<byte>)
    requires 4 <= data.Length
    modifies data
    ensures EntryAt(data[..], 0) == old(EntryAt(data[..], 0)).(first := true) && Same(old(data[..]), data[..], 4, data.Length)
  {
    if data[3] < 0x80 {
      data[3] := data[3] + 0x80;
    }
  }

  /** `memcpy` of a string into the area. */
  method CopyIn(data: array<byte>, at: nat, s: seq<byte>)
    requires at + |s| <= data.Length
    modifies data
    ensures LiesAt(data[..], at, s)
    ensures Same(old(data[..]), data[..], 0, at) && Same(old(data[..]), data[..], at + |s|, data.Length)
  {
    var i := 0;
    while i < |s|
      invariant 0 <= i <= |s|
      invariant forall k :: at <= k < at + i ==> data[k] == s[k - at]
      invariant forall k :: 0 <= k < data.Length && !(at <= k < at + i) ==> data[k] == old(data[k])
    {
      data[at + i] := s[i];
      i := i + 1;
    }
  }

  /** `memmove` towards lower addresses; the regions may overlap. */
  method MoveDown(data: array<byte>, to: nat, from: nat, len: nat)
    requires to <= from && from + len <= data.Length
    modifies data
    ensures LiesAt(data[..], to, old(data[from..from + len])) && Same(old(data[..]), data[..], 0, to)
  {
    var i := 0;
    while i < len
      invariant 0 <= i <= len
      invariant forall k :: to <= k < to + i ==> data[k] == old(data[k + (from - to)])
      invariant forall k :: 0 <= k < data.Length && !(to <= k < to + i) ==> data[k] == old(data[k])
    {
      data[to + i] := data[from + i];
      i := i + 1;
    }
  }

  /** The two entries of the next pair. */
  method PutEntries(data: array<byte>, n: nat, v: HEntry, w: HEntry, ghost es: seq<HEntry>)
    requires 8 * n + 8 <= data.Length && |es| == 2 * n && Stored(data[..], es) && v.end < 0x4000_0000 && w.end < 0x4000_0000
    modifies data
    ensures Stored(data[..], es + [v, w]) && Same(old(data[..]), data[..], 8 * n + 8, data.Length)
  {
    ghost var m := data[..];
    PutEntry(data, 2 * n, v);
    ghost var mid := data[..];
    PutEntry(data, 2 * n + 1, w);
    StoredNext(m, mid, es, v);
    StoredNext(mid, data[..], es + [v], w);
    assert es + [v] + [w] == es + [v, w];
  }

  lemma StoredNext(m: seq<byte>, m': seq<byte>, es: seq<HEntry>, e: HEntry)
    requires Stored(m, es) && Same(m, m', 0, 4 * |es|) && EntryIs(m', |es|, e)
    ensures Stored(m', es + [e])
  {
    StoredSame(m, m', es);
    forall k: nat | k < |es| + 1 ensures EntryIs(m', k, (es + [e])[k]) {
      if k < |es| { assert EntryIs(m', k, es[k]); }
    }
  }

  // ----- Areas under construction -----

  /** An area with `n` pairs: entries from the front, `ptr` bytes of strings from `base`. */
  ghost predicate Holds(m: seq<byte>, base: nat, n: nat, ptr: nat, es: seq<HEntry>, ps: seq<Pair>) {
    && 8 * n <= base && base + ptr <= |m| <= MaxAllocSize - HSHRDSIZE
    && Stored(m, es) && (forall k :: 0 <= k < |es| ==> !es[k].first)
    && Laid(es, m[base..base + ptr], n) && Start(es, 2 * n) == ptr && PairsAt(es, m[base..base + ptr], n) == ps
  }

  /** First the strings of the pair are copied, then its entries are written. */
  lemma GrownHolds(m: seq<byte>, mid: seq<byte>, m': seq<byte>, base: nat, n: nat, ptr: nat, es: seq<HEntry>, ps: seq<Pair>, p: Pair)
    requires Holds(m, base, n, ptr, es, ps) && 8 * n + 8 <= base
    requires Same(m, mid, 0, base + ptr) && LiesAt(mid, base + ptr, PairBytes(p))
    requires Stored(m', es + PairEntries(es, p)) && Same(mid, m', 8 * n + 8, |mid|)
    ensures Holds(m', base, n + 1, ptr + |PairBytes(p)|, es + PairEntries(es, p), ps + [p])
  {
    var b := PairBytes(p);
    assert m'[base..base + ptr + |b|] == m[base..base + ptr] + b by {
      SameSlice(mid, m', base, base + ptr + |b|);
      SameSlice(m, mid, base, base + ptr);
      LiesAtSlice(mid, base + ptr, b);
      assert mid[base..base + ptr + |b|] == mid[base..base + ptr] + mid[base + ptr..base + ptr + |b|];
    }
    LaidStep(es, m[base..base + ptr], n, p);
  }

  /** One string holds key and value. */
  method CopyBoth(data: array<byte>, base: nat, n: nat, ptr: nat, s: seq<byte>, klen: nat, isnull: bool,
                  ghost es: seq<HEntry>, ghost ps: seq<Pair>, ghost p: Pair)
    requires Holds(data[..], base, n, ptr, es, ps) && 8 * n + 8 <= base && base + ptr + |s| <= data.Length
    requires s == PairBytes(p) && klen == |p.key| && isnull == p.value.Null?
    modifies data
    ensures Holds(data[..], base, n + 1, ptr + |s|, es + PairEntries(es, p), ps + [p])
  {
    ghost var m := data[..];
    CopyIn(data, base + ptr, s);
    ghost var mid := data[..];
    StoredSame(m, mid, es);
    PutEntries(data, n, HEntry(false, false, ptr + klen), HEntry(false, isnull, ptr + |s|), es);
    GrownHolds(m, mid, data[..], base, n, ptr, es, ps, p);
  }

  /** Key and value come separately; the value is not looked at if it is null. */
  method CopyEach(data: array<byte>, base: nat, n: nat, ptr: nat, key: seq<byte>, val: seq<byte>, isnull: bool,
                  ghost es: seq<HEntry>, ghost ps: seq<Pair>)
    requires Holds(data[..], base, n, ptr, es, ps) && 8 * n + 8 <= base
    requires base + ptr + |key| + (if isnull then 0 else |val|) <= data.Length
    modifies data
    ensures var p := Pair(key, if isnull then Null else Text(val));
      Holds(data[..], base, n + 1, ptr + |PairBytes(p)|, es + PairEntries(es, p), ps + [p])
  {
    ghost var m := data[..];
    ghost var p := Pair(key, if isnull then Null else Text(val));
    CopyIn(data, base + ptr, key);
    ghost var first := data[..];
    var len := |key|;
    if !isnull {
      CopyIn(data, base + ptr + |key|, val);
      len := len + |val|;
    }
    ghost var mid := data[..];
    TwoCopies(m, first, mid, base + ptr, p);
    StoredSame(m, mid, es);
    PutEntries(data, n, HEntry(false, false, ptr + |key|), HEntry(false, isnull, ptr + len), es);
    GrownHolds(m, mid, data[..], base, n, ptr, es, ps, p);
  }

  lemma TwoCopies(m: seq<byte>, first: seq<byte>, mid: seq<byte>, at: nat, p: Pair)
    requires |m| == |first| == |mid| && at + |PairBytes(p)| <= |m|
    requires Same(m, first, 0, at) && LiesAt(first, at, p.key)
    requires if p.value.Null? then mid == first
             else Same(first, mid, 0, at + |p.key|) && LiesAt(mid, at + |p.key|, p.value.bytes)
    ensures Same(m, mid, 0, at) && LiesAt(mid, at, PairBytes(p))
  {}

  // ----- Finished areas -----

  function ReadEntries(m: seq<byte>, n: nat): (es: seq<HEntry>)
    requires 4 * n <= |m|
    ensures |es| == n
  {
    seq(n, k requires 0 <= k < n => EntryAt(m, k))
  }

  lemma ReadStored(m: seq<byte>, es: seq<HEntry>)
    requires Stored(m, es)
    ensures ReadEntries(m, |es|) == es
  {
    forall k: nat | k < |es| ensures ReadEntries(m, |es|)[k] == es[k] { assert EntryIs(m, k, es[k]); }
  }

  /** The value that an area with `n` pairs and `len` bytes of strings is. */
  function View(m: seq<byte>, n: nat, len: nat): HStore
    requires 8 * n + len <= |m| && n < 0x1000_0000
  {
    HStore(NEWVERSION + n, ReadEntries(m, 2 * n), m[8 * n..8 * n + len])
  }

  /** The entries with the first one flagged. */
  ghost function FirstFlagged(es: seq<HEntry>): seq<HEntry> {
    if es == [] then [] else es[0 := es[0].(first := true)]
  }

  lemma CountOf(n: nat, es: seq<HEntry>, s: seq<byte>)
    requires n < 0x1000_0000
    ensures Count(HStore(NEWVERSION + n, es, s)) == n
  {}

  /** A finished area: entries flagged, strings right behind them. */
  lemma FinishedIsStructured(m: seq<byte>, m': seq<byte>, base: nat, n: nat, ptr: nat, es: seq<HEntry>, ps: seq<Pair>)
    requires Holds(m, base, n, ptr, es, ps) && |m'| == |m|
    requires Stored(m', FirstFlagged(es)) && LiesAt(m', 8 * n, m[base..base + ptr])
    ensures var hs := View(m', n, ptr); Structured(hs) && Decode(hs) == ps
  {
    var es' := FirstFlagged(es);
    ReadStored(m', es');
    LiesAtSlice(m', 8 * n, m[base..base + ptr]);
    SamePairs(es, m[base..base + ptr], es', m[base..base + ptr], n);
    CountOf(n, es', m[base..base + ptr]);
  }

  /** The in-place part of `HS_FINALIZE`. */
  method Finish(data: array<byte>, base: nat, n: nat, ptr: nat, ghost es: seq<HEntry>, ghost ps: seq<Pair>)
    requires Holds(data[..], base, n, ptr, es, ps)
    modifies data
    ensures var hs := View(data[..], n, ptr); Structured(hs) && Decode(hs) == ps
  {
    ghost var m := data[..];
    if n > 0 {
      FlagFirst(data);
      StoredFlag(m, data[..], es);
    }
    ghost var mid := data[..];
    if 8 * n != base {
      MoveDown(data, 8 * n, base, ptr);
    }
    StoredSame(mid, data[..], FirstFlagged(es));
    assert mid[base..base + ptr] == m[base..base + ptr];
    FinishedIsStructured(m, data[..], base, n, ptr, es, ps);
  }

  lemma StoredFlag(m: seq<byte>, m': seq<byte>, es: seq<HEntry>)
    requires Stored(m, es) && es != [] && Same(m, m', 4, |m|) && EntryAt(m', 0) == EntryAt(m, 0).(first := true)
    ensures Stored(m', FirstFlagged(es))
  {
    forall k: nat | k < |es| ensures EntryIs(m', k, FirstFlagged(es)[k]) {
      assert EntryIs(m, k, es[k]);
      if k > 0 { EntrySame(m, m', k); }
    }
  }

  /** A value under construction. */
  class Builder {
    /** What follows the size word. */
    var data: array<byte>
    /** `HS_COUNT` until the value is finalized: strings start behind that many pairs of entries. */
    var count: nat
    /** Pairs of entries written. */
    var items: nat
    /** Bytes of strings written. */
    var ptr: nat
    /** The entries written. */
    ghost var entries: seq<HEntry>
    /** The pairs added so far. */
    ghost var pairs: seq<Pair>

    ghost predicate Valid()
      reads this, data
    {
      items <= count && Holds(data[..], 8 * count, items, ptr, entries, pairs)
    }

    /** `palloc` of a value with room for `size` bytes after the size word. */
    constructor (size: nat, count: nat)
      requires 8 * count <= size <= MaxAllocSize - HSHRDSIZE
      ensures Valid() && fresh(data) && pairs == [] && this.count == count && items == ptr == 0 && data.Length == size
    {
      data := new byte[size](_ => 0);
      this.count := count;
      items, ptr, entries, pairs := 0, 0, [], [];
    }

    /** `HS_COPYITEM`: a key and its value, contiguous in another value's strings. */
    method CopyItem(src: seq<byte>, sptr: nat, klen: nat, vlen: nat, vnull: bool)
      requires Valid() && items < count && sptr + klen + vlen <= |src| && (vnull ==> vlen == 0)
      requires 8 * count + ptr + klen + vlen <= data.Length
      modifies this, data
      ensures Valid() && data == old(data) && count == old(count)
      ensures items == old(items) + 1 && ptr == old(ptr) + klen + vlen
      ensures pairs == old(pairs)
              + [Pair(src[sptr..sptr + klen], if vnull then Null else Text(src[sptr + klen..sptr + klen + vlen]))]
    {
      ghost var p := Pair(src[sptr..sptr + klen], if vnull then Null else Text(src[sptr + klen..sptr + klen + vlen]));
      assert src[sptr..sptr + klen + vlen] == PairBytes(p);
      CopyBoth(data, 8 * count, items, ptr, src[sptr..sptr + klen + vlen], klen, vnull, entries, pairs, p);
      ptr, items := ptr + klen + vlen, items + 1;
      entries, pairs := entries + PairEntries(entries, p), pairs + [p];
    }

    /** `HS_ADDITEM`: a key and its value, each from its own string. */
    method AddItem(key: seq<byte>, val: seq<byte>, isnull: bool)
      requires Valid() && items < count
      requires 8 * count + ptr + |key| + (if isnull then 0 else |val|) <= data.Length
      modifies this, data
      ensures Valid() && data == old(data) && count == old(count)
      ensures items == old(items) + 1 && ptr == old(ptr) + |key| + (if isnull then 0 else |val|)
      ensures pairs == old(pairs) + [Pair(key, if isnull then Null else Text(val))]
    {
      ghost var p := Pair(key, if isnull then Null else Text(val));
      CopyEach(data, 8 * count, items, ptr, key, val, isnull, entries, pairs);
      ptr, items := ptr + |key| + (if isnull then 0 else |val|), items + 1;
      entries, pairs := entries + PairEntries(entries, p), pairs + [p];
    }

    /** `HS_FINALIZE`: flags the first entry and, if fewer pairs were added than expected, moves the strings
        down over the entries that stayed unused. */
    method Finalize(outcount: nat) returns (hs: HStore)
      requires Valid() && outcount == items
      modifies data, `count
      ensures Structured(hs) && Decode(hs) == pairs
    {
      Finish(data, 8 * count, outcount, ptr, entries, pairs);
      count := outcount;
      hs := View(data[..], outcount, ptr);
    }
  }

  /** `HS_FIXSIZE`: the value cut to the size its last entry tells. */
  function FixSize(hs: HStore): HStore
    requires Start(hs.entries, |hs.entries|) <= |hs.strings|
  {
    hs.(strings := hs.strings[..Start(hs.entries, |hs.entries|)])
  }

  /** A value with nothing behind its strings is not changed. */
  lemma FixSizeExact(hs: HStore)
    requires Structured(hs)
    ensures FixSize(hs) == hs
  {}
}
