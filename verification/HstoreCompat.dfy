/** Upgrading values of older formats in place: `hstore_compat.c`. */
module HstoreCompat {
  import opened Bytes
  import opened HstoreFormat
  import opened HstoreBuild

  // ----- The old format -----

  /** `HOldEntry` */
  datatype HOldEntry = HOldEntry(keylen: nat, vallen: nat, valisnull: bool, pos: nat)

  /** An old entry laid over the same eight bytes as two new ones: lengths of 16 bits, then the null bit below
      a position of 31 bits. */
  function OldFromBytes(a: byte, b: byte, c: byte, d: byte, e: byte, f: byte, g: byte, h: byte): HOldEntry {
    HOldEntry(a + 0x100 * b, c + 0x100 * d, e % 2 == 1, e / 2 + 0x80 * f + 0x8000 * g + 0x80_0000 * h)
  }

  /** The fields of an old entry, by the two words its bytes make up. */
  lemma OldWordFields(a: byte, b: byte, c: byte, d: byte, e: byte, f: byte, g: byte, h: byte)
    ensures var v, w, o := WordOf(a, b, c, d), WordOf(e, f, g, h), OldFromBytes(a, b, c, d, e, f, g, h);
      o.keylen == v % 0x1_0000 && o.vallen == v / 0x1_0000 && (o.valisnull <==> w % 2 == 1) && o.pos == w / 2
  {
    Halves(a + 0x100 * b, c + 0x100 * d);
    LowBit(e, 0x80 * f + 0x8000 * g + 0x80_0000 * h);
  }

  lemma Halves(low: nat, high: nat)
    requires low < 0x1_0000
    ensures (low + 0x1_0000 * high) % 0x1_0000 == low && (low + 0x1_0000 * high) / 0x1_0000 == high
  {}

  lemma LowBit(e: byte, x: nat)
    ensures (e + 2 * x) % 2 == e % 2 && (e + 2 * x) / 2 == e / 2 + x
  {}

  function OldEntry(m: seq<byte>, i: nat): HOldEntry
    requires 8 * i + 8 <= |m|
  {
    OldFromBytes(m[8*i], m[8*i+1], m[8*i+2], m[8*i+3], m[8*i+4], m[8*i+5], m[8*i+6], m[8*i+7])
  }

  /** `(HOldEntry *) ARRPTR(hs)` */
  function OldEntries(m: seq<byte>, n: nat): (os: seq<HOldEntry>)
    requires 8 * n <= |m|
    ensures |os| == n
  {
    seq(n, i requires 0 <= i < n => OldEntry(m, i))
  }

  /** The bytes that an old entry accounts for. */
  function OldLen(e: HOldEntry): nat {
    e.keylen + if e.valisnull then 0 else e.vallen
  }

  /** What the first `n` old entries account for. */
  ghost function OldEnd(os: seq<HOldEntry>, n: nat): nat
    requires n <= |os|
  {
    if n == 0 then 0 else OldEnd(os, n - 1) + OldLen(os[n-1])
  }

  ghost predicate KeyNotShorter(os: seq<HOldEntry>, i: nat)
    requires 0 < i < |os|
  {
    os[i-1].keylen <= os[i].keylen
  }

  ghost predicate InPlace(os: seq<HOldEntry>, i: nat)
    requires i < |os|
  {
    os[i].pos == OldEnd(os, i)
  }

  /** Keys do not get shorter, and the strings lie one behind the other in the room there is. */
  ghost predicate OldSound(os: seq<HOldEntry>, room: nat) {
    && (forall i: nat :: 0 < i < |os| ==> KeyNotShorter(os, i))
    && (forall i: nat :: i < |os| ==> InPlace(os, i)) && OldEnd(os, |os|) <= room
  }

  /** A value in the old format, with or without slop behind its strings. */
  ghost predicate OldValid(size: word, m: seq<byte>) {
    size <= 0x0fff_ffff && 8 * size <= |m| && OldSound(OldEntries(m, size), |m| - 8 * size)
  }

  /** `hstoreValidOldFormat`: 0 for not valid, 1 with slop behind the strings, 2 exactly valid. */
  method HstoreValidOldFormat(size: word, m: seq<byte>) returns (r: int)
    ensures r >= 0 && (r > 0 <==> OldValid(size, m))
    ensures r == 2 <==> OldValid(size, m) && (size == 0 || 8 * size + OldEnd(OldEntries(m, size), size) == |m|)
  {
    if size >= NEWVERSION {
      return 0;
    }
    if size == 0 {
      return 2;
    }
    if size > 0x0fff_ffff {
      return 0;
    }
    if 8 * size > |m| {
      return 0;
    }
    r := CheckOldEntries(OldEntries(m, size), |m| - 8 * size);
  }

  method CheckOldEntries(entries: seq<HOldEntry>, room: nat) returns (r: int)
    requires entries != []
    ensures r >= 0 && (r > 0 <==> OldSound(entries, room))
    ensures r == 2 <==> OldSound(entries, room) && OldEnd(entries, |entries|) == room
  {
    if entries[0].pos != 0 {
      assert !InPlace(entries, 0);
      return 0;
    }
    var i: nat := 1;
    while i < |entries|
      invariant 1 <= i <= |entries| && forall k: nat :: 0 < k < i ==> KeyNotShorter(entries, k)
    {
      if entries[i].keylen < entries[i-1].keylen {
        assert !KeyNotShorter(entries, i);
        return 0;
      }
      i := i + 1;
    }
    i := 0;
    var lastpos := 0;
    while i < |entries|
      invariant 0 <= i <= |entries| && lastpos == OldEnd(entries, i) && forall k: nat :: k < i ==> InPlace(entries, k)
    {
      if entries[i].pos != lastpos {
        assert !InPlace(entries, i);
        return 0;
      }
      lastpos := lastpos + OldLen(entries[i]);
      i := i + 1;
    }
    if lastpos > room {
      return 0;
    }
    if lastpos != room {
      return 1;
    }
    return 2;
  }

  lemma {:induction false} OldEndGrows(os: seq<HOldEntry>, i: nat, n: nat)
    requires i <= n <= |os|
    ensures OldEnd(os, i) <= OldEnd(os, n)
    decreases n - i
  {
    if i < n { OldEndGrows(os, i + 1, n); }
  }

  /** The pair of old entry `i`, by its own position in the strings. */
  ghost function OldPair(os: seq<HOldEntry>, buf: seq<byte>, i: nat): Pair
    requires OldSound(os, |buf|) && i < |os|
  {
    OldEndGrows(os, i + 1, |os|);
    assert InPlace(os, i);
    var e := os[i];
    var s, t := e.pos, e.pos + e.keylen;
    Pair(buf[s..t], if e.valisnull then Null else Text(buf[t..t + e.vallen]))
  }

  ghost function OldPairs(os: seq<HOldEntry>, buf: seq<byte>): seq<Pair>
    requires OldSound(os, |buf|)
  {
    seq(|os|, i requires 0 <= i < |os| => OldPair(os, buf, i))
  }

  /** What a value in the old format holds. */
  ghost function OldContents(size: word, m: seq<byte>): seq<Pair>
    requires OldValid(size, m)
  {
    OldPairs(OldEntries(m, size), m[8 * size..])
  }

  // ----- Conversion in place -----

  ghost predicate OldEntryIs(m: seq<byte>, i: nat, e: HOldEntry) {
    8 * i + 8 <= |m| && OldEntry(m, i) == e
  }

  ghost predicate OldStored(m: seq<byte>, os: seq<HOldEntry>) {
    forall i: nat {:trigger OldEntryIs(m, i, os[i])} :: i < |os| ==> OldEntryIs(m, i, os[i])
  }

  /** An old value of `n` entries in memory. */
  ghost predicate OldValue(was: seq<byte>, n: nat, os: seq<HOldEntry>) {
    && 0 < n == |os| && 8 * n <= |was| <= MaxAllocSize - HSHRDSIZE
    && OldStored(was, os) && OldSound(os, |was[8 * n..]|)
  }

  /** The first `i` old entries have been overwritten with new ones; the rest is untouched. */
  ghost predicate Converting(was: seq<byte>, n: nat, os: seq<HOldEntry>, m: seq<byte>, i: nat, es: seq<HEntry>)
    requires OldValue(was, n, os)
  {
    i <= n && Same(was, m, 8 * i, |was|) && Holds(m, 8 * n, i, OldEnd(os, i), es, OldPairs(os, was[8 * n..])[..i])
  }

  /** What entry `i` says about its pair. */
  lemma OldSizes(os: seq<HOldEntry>, buf: seq<byte>, i: nat)
    requires OldSound(os, |buf|) && i < |os|
    ensures os[i].pos == OldEnd(os, i) && os[i].pos + OldLen(os[i]) == OldEnd(os, i + 1) <= |buf|
    ensures |OldPair(os, buf, i).key| == os[i].keylen && (OldPair(os, buf, i).value.Null? <==> os[i].valisnull)
    ensures OldPair(os, buf, i).value.Text? ==> |OldPair(os, buf, i).value.bytes| == os[i].vallen
  {
    OldEndGrows(os, i + 1, |os|);
    assert InPlace(os, i);
  }

  /** The strings of entry `i` are where the entries before it end. */
  lemma OldBytes(os: seq<HOldEntry>, buf: seq<byte>, i: nat)
    requires OldSound(os, |buf|) && i < |os|
    ensures LiesAt(buf, OldEnd(os, i), PairBytes(OldPair(os, buf, i)))
  {
    OldSizes(os, buf, i);
    var e := os[i];
    var s, t, u := e.pos, e.pos + e.keylen, e.pos + OldLen(e);
    SlicesLie(buf, s, t, u);
    assert PairBytes(OldPair(os, buf, i)) == if e.valisnull then buf[s..t] + [] else buf[s..t] + buf[t..u];
    assert e.valisnull ==> buf[s..t] + [] == buf[s..t];
  }

  lemma SlicesLie(buf: seq<byte>, s: nat, t: nat, u: nat)
    requires s <= t <= u <= |buf|
    ensures LiesAt(buf, s, buf[s..t]) && LiesAt(buf, s, buf[s..t] + buf[t..u])
  {}

  lemma LiesBehind(was: seq<byte>, m: seq<byte>, base: nat, from: nat, at: nat, s: seq<byte>)
    requires from <= base <= |was| && LiesAt(was[base..], at, s) && Same(was, m, from, |was|)
    ensures LiesAt(m, base + at, s)
  {
    forall k | base + at <= k < base + at + |s| ensures m[k] == s[k - (base + at)] {
      assert was[k] == was[base..][k - base];
    }
  }

  lemma OldSame(was: seq<byte>, m: seq<byte>, os: seq<HOldEntry>, i: nat)
    requires i < |os| && OldStored(was, os) && 8 * |os| <= |was| && Same(was, m, 8 * i, |was|)
    ensures OldEntry(m, i) == os[i]
  {
    assert OldEntryIs(was, i, os[i]);
  }

  /** `e` as it is read in memory that is changed only before it. */
  method ReadOld(data: array<byte>, i: nat, ghost was: seq<byte>, ghost os: seq<HOldEntry>) returns (e: HOldEntry)
    requires i < |os| && OldStored(was, os) && 8 * |os| <= |was| && Same(was, data[..], 8 * i, |was|)
    ensures e == os[i]
  {
    OldSame(was, data[..], os, i);
    e := OldEntry(data[..], i);
  }

  /** One old entry becomes two new ones. */
  method ConvertOne(data: array<byte>, i: nat, ghost was: seq<byte>, ghost n: nat, ghost os: seq<HOldEntry>, ghost es: seq<HEntry>)
    returns (ghost es': seq<HEntry>)
    requires OldValue(was, n, os) && i < n && Converting(was, n, os, data[..], i, es)
    modifies data
    ensures Converting(was, n, os, data[..], i + 1, es')
  {
    var e := ReadOld(data, i, was, os);
    ghost var m, p := data[..], OldPair(os, was[8 * n..], i);
    NewEntriesOfPair(os, was[8 * n..], i, es);
    PutEntries(data, i, NewEntries(e)[0], NewEntries(e)[1], es);
    es' := es + PairEntries(es, p);
    ConvertedOne(was, n, os, m, data[..], i, es, p);
  }

  /** The new entries for an old one; the length of a null value is not looked at. */
  function NewEntries(e: HOldEntry): seq<HEntry> {
    [HEntry(false, false, e.pos + e.keylen), HEntry(false, e.valisnull, e.pos + OldLen(e))]
  }

  /** The entries of a pair, by its lengths. */
  lemma EntriesByLength(es: seq<HEntry>, p: Pair, e: HOldEntry)
    requires Start(es, |es|) == e.pos && |p.key| == e.keylen && (p.value.Null? <==> e.valisnull)
    requires p.value.Text? ==> |p.value.bytes| == e.vallen
    ensures PairEntries(es, p) == NewEntries(e)
  {}

  /** The two new entries are those of the pair. */
  lemma NewEntriesOfPair(os: seq<HOldEntry>, buf: seq<byte>, i: nat, es: seq<HEntry>)
    requires OldSound(os, |buf|) && i < |os| && Start(es, |es|) == OldEnd(os, i)
    ensures os[i].pos + OldLen(os[i]) <= |buf| && PairEntries(es, OldPair(os, buf, i)) == NewEntries(os[i])
  {
    OldSizes(os, buf, i);
    EntriesByLength(es, OldPair(os, buf, i), os[i]);
  }

  lemma OldPairsNext(os: seq<HOldEntry>, buf: seq<byte>, i: nat)
    requires OldSound(os, |buf|) && i < |os|
    ensures OldPairs(os, buf)[..i+1] == OldPairs(os, buf)[..i] + [OldPair(os, buf, i)]
  {}

  lemma SameLater(was: seq<byte>, m: seq<byte>, m': seq<byte>, lo: nat, hi: nat)
    requires lo <= hi <= |was| && Same(was, m, lo, |was|) && Same(m, m', hi, |m|)
    ensures Same(was, m', hi, |was|)
  {}

  /** A pair whose strings are already in place is added by its entries alone. */
  lemma GrownInPlace(m: seq<byte>, m': seq<byte>, base: nat, i: nat, ptr: nat, end: nat, es: seq<HEntry>, ps: seq<Pair>, ps': seq<Pair>, p: Pair)
    requires Holds(m, base, i, ptr, es, ps) && 8 * i + 8 <= base && end == ptr + |PairBytes(p)| && ps' == ps + [p]
    requires LiesAt(m, base + ptr, PairBytes(p)) && Stored(m', es + PairEntries(es, p)) && Same(m, m', 8 * i + 8, |m|)
    ensures Holds(m', base, i + 1, end, es + PairEntries(es, p), ps')
  {
    GrownHolds(m, m, m', base, i, ptr, es, ps, p);
  }

  lemma ConvertedOne(was: seq<byte>, n: nat, os: seq<HOldEntry>, m: seq<byte>, m': seq<byte>, i: nat, es: seq<HEntry>, p: Pair)
    requires OldValue(was, n, os) && i < n && Converting(was, n, os, m, i, es) && p == OldPair(os, was[8 * n..], i)
    requires Stored(m', es + PairEntries(es, p)) && Same(m, m', 8 * i + 8, |m|)
    ensures Converting(was, n, os, m', i + 1, es + PairEntries(es, p))
  {
    var buf := was[8 * n..];
    OldSizes(os, buf, i);
    OldBytes(os, buf, i);
    LiesBehind(was, m, 8 * n, 8 * i, OldEnd(os, i), PairBytes(p));
    OldPairsNext(os, buf, i);
    SameLater(was, m, m', 8 * i, 8 * i + 8);
    GrownInPlace(m, m', 8 * n, i, OldEnd(os, i), OldEnd(os, i + 1), es, OldPairs(os, buf)[..i], OldPairs(os, buf)[..i+1], p);
  }

  /** The conversion loop of `hstoreUpgrade`. */
  method Convert(count: nat, data: array<byte>, ghost os: seq<HOldEntry>) returns (hs: HStore)
    requires OldValue(data[..], count, os) && count < 0x1000_0000
    modifies data
    ensures Structured(hs) && Decode(hs) == OldPairs(os, old(data[..])[8 * count..])
    ensures WellFormed(hs) <==> SortedKeys(OldPairs(os, old(data[..])[8 * count..]))
  {
    ghost var was := data[..];
    ghost var es: seq<HEntry> := [];
    var i: nat := 0;
    while i < count
      invariant 0 <= i <= count && Converting(was, count, os, data[..], i, es)
    {
      es := ConvertOne(data, i, was, count, os, es);
      i := i + 1;
    }
    ghost var ps := OldPairs(os, was[8 * count..]);
    assert ps[..count] == ps;
    hs := FlagAndFix(count, data, OldEnd(os, count), es, ps);
  }

  /** The end of the conversion: the first flag, the count and the size. */
  method FlagAndFix(count: nat, data: array<byte>, ghost len: nat, ghost es: seq<HEntry>, ghost ps: seq<Pair>) returns (hs: HStore)
    requires 0 < count < 0x1000_0000 && Holds(data[..], 8 * count, count, len, es, ps)
    modifies data
    ensures Structured(hs) && Decode(hs) == ps
  {
    ghost var m := data[..];
    FlagFirst(data);
    StoredFlag(m, data[..], es);
    SameLies(m, data[..], 8 * count, len);
    FinishedIsStructured(m, data[..], 8 * count, count, len, es, ps);
    LastEnd(data[..], count, len);
    hs := View(data[..], count, EntryAt(data[..], 2 * count - 1).end);
  }

  lemma SameLies(m: seq<byte>, m': seq<byte>, at: nat, len: nat)
    requires Same(m, m', 4, |m|) && 4 <= at && at + len <= |m|
    ensures LiesAt(m', at, m[at..at + len])
  {}

  /** The last entry tells the size of the strings. */
  lemma LastEnd(m: seq<byte>, n: nat, len: nat)
    requires 0 < n < 0x1000_0000 && 8 * n + len <= |m| && Structured(View(m, n, len))
    ensures EntryAt(m, 2 * n - 1).end == len
  {
    CountOf(n, ReadEntries(m, 2 * n), m[8 * n..8 * n + len]);
    assert ReadEntries(m, 2 * n)[2 * n - 1] == EntryAt(m, 2 * n - 1);
  }

  // ----- The new format without its flag -----

  /** `HSE_LEN` of the key of pair `i`. */
  function KeyLen(es: seq<HEntry>, i: nat): int
    requires 2 * i < |es|
  {
    if es[2 * i].first then es[2 * i].end else es[2 * i].end - Start(es, 2 * i)
  }

  ghost predicate NotEarlier(es: seq<HEntry>, k: nat)
    requires 0 < k < |es|
  {
    !es[k].first && es[k-1].end <= es[k].end
  }

  ghost predicate NextKeyGood(es: seq<HEntry>, i: nat)
    requires 0 < i && 2 * i < |es|
  {
    KeyLen(es, i - 1) <= KeyLen(es, i) && !es[2 * i].isnull
  }

  /** What the validity test for the new format demands of `n` pairs of entries. */
  ghost predicate NewSound(es: seq<HEntry>, n: nat, room: nat)
    requires 0 < n && |es| == 2 * n
  {
    && es[0].first && es[2 * n - 1].end <= room
    && (forall k: nat :: 0 < k < 2 * n ==> NotEarlier(es, k)) && forall i: nat :: 0 < i < n ==> NextKeyGood(es, i)
  }

  /** The entries that the count speaks of are there; the source reads them without asking. */
  predicate Present(size: word, m: seq<byte>) {
    size == 0 || (8 * (size % 0x1000_0000) <= |m| && 4 <= |m|)
  }

  ghost predicate NewValid(size: word, m: seq<byte>)
    requires Present(size, m)
  {
    var n := size % 0x1000_0000;
    size >= NEWVERSION || n == 0 || NewSound(ReadEntries(m, 2 * n), n, |m| - 8 * n)
  }

  /** The last of `n` pairs of entries ends with the value. */
  ghost predicate NewExact(n: nat, m: seq<byte>)
    requires 0 < n && 8 * n <= |m|
  {
    ReadEntries(m, 2 * n)[2 * n - 1].end == |m| - 8 * n
  }

  /** `hstoreValidNewFormat`: 0 for not valid, 1 with slop behind the strings, 2 exactly valid. */
  method HstoreValidNewFormat(size: word, m: seq<byte>) returns (r: int)
    requires Present(size, m)
    ensures r >= 0 && (r > 0 <==> NewValid(size, m))
    ensures r == 2 <==> NewValid(size, m) && (size >= NEWVERSION || size % 0x1000_0000 == 0 || NewExact(size % 0x1000_0000, m))
  {
    var count := size % 0x1000_0000;
    if size >= NEWVERSION {
      return 2;
    }
    if count == 0 {
      return 2;
    }
    r := CheckNewEntries(ReadEntries(m, 2 * count), count, |m| - 8 * count);
  }

  method CheckNewEntries(entries: seq<HEntry>, count: nat, room: nat) returns (r: int)
    requires 0 < count && |entries| == 2 * count
    ensures r >= 0 && (r > 0 <==> NewSound(entries, count, room))
    ensures r == 2 <==> NewSound(entries, count, room) && entries[2 * count - 1].end == room
  {
    var buflen := entries[2 * count - 1].end;
    if !entries[0].first {
      return 0;
    }
    if buflen > room {
      return 0;
    }
    var i: nat := 1;
    while i < 2 * count
      invariant 1 <= i <= 2 * count && forall k: nat :: 0 < k < i ==> NotEarlier(entries, k)
    {
      if entries[i].first || entries[i].end < entries[i-1].end {
        assert !NotEarlier(entries, i);
        return 0;
      }
      i := i + 1;
    }
    i := 1;
    while i < count
      invariant 1 <= i <= count && forall k: nat :: 0 < k < i ==> NextKeyGood(entries, k)
    {
      if KeyLen(entries, i) < KeyLen(entries, i - 1) || entries[2 * i].isnull {
        assert !NextKeyGood(entries, i);
        return 0;
      }
      i := i + 1;
    }
    return if buflen != room then 1 else 2;
  }

  // ----- hstoreUpgrade -----

  datatype Upgraded = Upgraded(hs: HStore) | InvalidValue | Overrun

  /** A value as it stands. */
  function AsItIs(size: word, m: seq<byte>): HStore
    requires Present(size, m)
  {
    var n := size % 0x1000_0000;
    HStore(size, ReadEntries(m, 2 * n), m[8 * n..])
  }

  /** `HS_SETCOUNT` and `HS_FIXSIZE`; a last entry that points behind the value makes the source overrun it. */
  function AsNew(size: word, m: seq<byte>): Upgraded
    requires Present(size, m)
  {
    var n := size % 0x1000_0000;
    var len := Start(ReadEntries(m, 2 * n), 2 * n);
    if 8 * n + len <= |m| then Upgraded(View(m, n, len)) else Overrun
  }

  /** Values that are taken for new at first sight. */
  predicate PlainlyNew(size: word, m: seq<byte>)
    requires Present(size, m)
  {
    size == 0 || (HSHRDSIZE + |m| < 32768 && EntryAt(m, 0).first)
  }

  datatype Format = Current | New | Old | Unknown

  /** The decisions of `hstoreUpgrade`, built as contrib/hstore: what may be of either format is taken for old. */
  function Decide(flagged: bool, plainlyNew: bool, validNew: bool, validOld: bool): Format {
    if flagged then Current
    else if plainlyNew then New
    else if validOld then Old
    else if validNew then New
    else Unknown
  }

  /** Which format a value is taken to be in. */
  ghost function FormatOf(size: word, m: seq<byte>): Format
    requires Present(size, m)
  {
    Decide(size >= NEWVERSION, PlainlyNew(size, m), NewValid(size, m), OldValid(size, m))
  }

  method Classify(size: word, m: seq<byte>) returns (f: Format)
    requires Present(size, m)
    ensures f == FormatOf(size, m)
  {
    var validNew := HstoreValidNewFormat(size, m);
    var validOld := HstoreValidOldFormat(size, m);
    f := Decide(size >= NEWVERSION, PlainlyNew(size, m), validNew != 0, validOld != 0);
  }

  /** What becomes of a value. */
  ghost predicate UpgradesTo(size: word, m: seq<byte>, r: Upgraded)
    requires Present(size, m)
  {
    match FormatOf(size, m)
    case Current => r == Upgraded(AsItIs(size, m))
    case New => r == AsNew(size, m)
    case Old => r.Upgraded? && Structured(r.hs) && Decode(r.hs) == OldContents(size, m)
    case Unknown => r == InvalidValue
  }

  /** `hstoreUpgrade`: an old value becomes a new one with the same pairs. */
  method HstoreUpgrade(size: word, data: array<byte>) returns (r: Upgraded)
    requires Present(size, data[..]) && HSHRDSIZE + data.Length <= MaxAllocSize
    modifies data
    ensures UpgradesTo(size, old(data[..]), r)
  {
    var f := Classify(size, data[..]);
    match f {
      case Current => r := Upgraded(AsItIs(size, data[..]));
      case New => r := AsNew(size, data[..]);
      case Old =>
        var hs := ConvertOld(size, data);
        r := Upgraded(hs);
      case Unknown => r := InvalidValue;
    }
  }

  method ConvertOld(size: word, data: array<byte>) returns (hs: HStore)
    requires OldValid(size, data[..]) && size > 0 && HSHRDSIZE + data.Length <= MaxAllocSize
    modifies data
    ensures Structured(hs) && Decode(hs) == old(OldContents(size, data[..]))
  {
    ghost var m := data[..];
    ghost var os := OldEntries(m, size);
    OldRead(m, size);
    hs := Convert(size, data, os);
  }

  lemma OldRead(m: seq<byte>, n: nat)
    requires 8 * n <= |m|
    ensures OldStored(m, OldEntries(m, n))
  {
    var os := OldEntries(m, n);
    forall i: nat | i < n ensures OldEntryIs(m, i, os[i]) {}
  }

  /** Which old values are converted: all but small ones whose first value, being null, still has the top bit
      of its length set. */
  lemma OldIsConverted(size: word, m: seq<byte>)
    requires OldValid(size, m) && size > 0 && Present(size, m)
    ensures FormatOf(size, m) == Old <==> !(HSHRDSIZE + |m| < 32768 && OldEntry(m, 0).vallen >= 32768)
    ensures !OldEntry(m, 0).valisnull ==> FormatOf(size, m) == Old
  {
    var os := OldEntries(m, size);
    assert os[0] == OldEntry(m, 0);
    OldEndGrows(os, 1, size);
    assert OldEnd(os, 1) == OldLen(os[0]);
  }

  /** A value of the new format without the flag, and perhaps with slop. */
  ghost predicate Prerelease(size: word, m: seq<byte>, hs: HStore) {
    && WellFormed(hs) && size == Count(hs) && 8 * size <= |m| && ReadEntries(m, 2 * size) == hs.entries
    && LiesAt(m, 8 * size, hs.strings)
  }

  lemma NewKeys(hs: HStore, i: nat)
    requires WellFormed(hs) && 0 < i < Count(hs)
    ensures NextKeyGood(hs.entries, i)
  {
    LaidBounds(hs.entries, hs.strings, Count(hs), i - 1);
    LaidBounds(hs.entries, hs.strings, Count(hs), i);
    assert PairInOrder(hs.entries, i);
    var a, b := Decode(hs)[i-1], Decode(hs)[i];
    assert KeyCmp(a.key, b.key) < 0;
    assert |a.key| == KeyLen(hs.entries, i - 1) && |b.key| == KeyLen(hs.entries, i);
  }

  lemma WellFormedIsNewSound(hs: HStore, room: nat)
    requires WellFormed(hs) && Count(hs) > 0 && |hs.strings| <= room
    ensures NewSound(hs.entries, Count(hs), room)
  {
    var es, n := hs.entries, Count(hs);
    forall k: nat | 0 < k < 2 * n ensures NotEarlier(es, k) {
      assert PairInOrder(es, k / 2);
    }
    forall i: nat | 0 < i < n ensures NextKeyGood(es, i) { NewKeys(hs, i); }
  }

  /** Such a value becomes the value it stands for, unless it can be taken for an old one. */
  lemma PrereleaseIsUpgraded(size: word, m: seq<byte>, hs: HStore)
    requires Prerelease(size, m, hs) && Present(size, m)
    ensures AsNew(size, m) == Upgraded(hs)
    ensures FormatOf(size, m) == if HSHRDSIZE + |m| >= 32768 && OldValid(size, m) && size > 0 then Old else New
  {
    PrereleaseIsNew(size, m, hs);
    PrereleaseIsValid(size, m, hs);
  }

  lemma PrereleaseIsNew(size: word, m: seq<byte>, hs: HStore)
    requires Prerelease(size, m, hs) && Present(size, m)
    ensures AsNew(size, m) == Upgraded(hs)
  {
    CountIsSize(size);
    PrereleaseView(size, m, hs);
  }

  lemma PrereleaseView(n: nat, m: seq<byte>, hs: HStore)
    requires Structured(hs) && n == Count(hs) && 8 * n <= |m| && ReadEntries(m, 2 * n) == hs.entries && LiesAt(m, 8 * n, hs.strings)
    ensures View(m, n, |hs.strings|) == hs && Start(ReadEntries(m, 2 * n), 2 * n) == |hs.strings|
  {
    LiesAtSlice(m, 8 * n, hs.strings);
  }

  lemma ReadFirst(m: seq<byte>, n: nat, es: seq<HEntry>)
    requires 0 < n && 4 * n <= |m| && ReadEntries(m, n) == es
    ensures EntryAt(m, 0) == es[0]
  {
    assert ReadEntries(m, n)[0] == es[0];
  }

  lemma PrereleaseIsValid(size: word, m: seq<byte>, hs: HStore)
    requires Prerelease(size, m, hs) && Present(size, m)
    ensures PlainlyNew(size, m) <==> size == 0 || HSHRDSIZE + |m| < 32768
    ensures NewValid(size, m)
  {
    if size > 0 {
      ReadFirst(m, 2 * size, hs.entries);
      WellFormedIsNewSound(hs, |m| - 8 * size);
    }
    CountIsSize(size);
  }

  lemma CountIsSize(size: word)
    requires size < 0x1000_0000
    ensures size % 0x1000_0000 == size
  {}

  // ----- When the upgrade keeps an old value -----

  /** The value is upgraded to one with the old contents. */
  ghost predicate Keeps(size: word, m: seq<byte>, r: Upgraded)
    requires OldValid(size, m)
  {
    r.Upgraded? && Structured(r.hs) && Decode(r.hs) == OldContents(size, m)
  }

  /** An old first entry whose value is null reads as a new one whose value is not. */
  lemma NullReadsAsValue(size: word, m: seq<byte>)
    requires OldValid(size, m) && size > 0 && OldEntry(m, 0).valisnull
    ensures !EntryAt(m, 1).isnull
  {
    var os := OldEntries(m, size);
    assert os[0] == OldEntry(m, 0) && InPlace(os, 0);
    assert OldEnd(os, 0) == 0;
  }

  lemma FirstValues(size: word, m: seq<byte>, hs: HStore)
    requires OldValid(size, m) && 0 < size < 0x1000_0000 && Structured(hs) && Count(hs) == size && hs.entries == ReadEntries(m, 2 * size)
    ensures Decode(hs)[0].value.Null? <==> EntryAt(m, 1).isnull
    ensures OldContents(size, m)[0].value.Null? <==> OldEntry(m, 0).valisnull
  {
    assert ReadEntries(m, 2 * size)[1] == EntryAt(m, 1);
    assert OldEntries(m, size)[0] == OldEntry(m, 0);
  }

  /** A valid old value that is not taken for old never keeps its contents. */
  lemma MisreadIsNotKept(size: word, m: seq<byte>)
    requires OldValid(size, m) && size > 0 && Present(size, m) && FormatOf(size, m) != Old
    ensures !Keeps(size, m, AsNew(size, m)) && FormatOf(size, m) == New
  {
    OldIsConverted(size, m);
    NullReadsAsValue(size, m);
    CountIsSize(size);
    var r := AsNew(size, m);
    if r.Upgraded? && Structured(r.hs) {
      CountOf(size, r.hs.entries, r.hs.strings);
      FirstValues(size, m, r.hs);
    }
  }

  /** A valid old value keeps its contents if and only if it is not a small one whose first value, being null,
      has the top bit of its unused length set. */
  lemma UpgradeKeepsIff(size: word, m: seq<byte>, r: Upgraded)
    requires OldValid(size, m) && size > 0 && Present(size, m) && UpgradesTo(size, m, r)
    ensures Keeps(size, m, r) <==> !(HSHRDSIZE + |m| < 32768 && OldEntry(m, 0).vallen >= 32768)
  {
    OldIsConverted(size, m);
    if FormatOf(size, m) != Old { MisreadIsNotKept(size, m); }
  }

  /** An old entry of a null pair with the empty key and a leftover length of 0x8000. */
  function Leftover(): HOldEntry {
    HOldEntry(0, 0x8000, true, 0)
  }

  /** Its bytes, read as two new entries. */
  lemma LeftoverRead(a: byte, b: byte, c: byte, d: byte, e: byte, f: byte, g: byte, h: byte)
    requires OldFromBytes(a, b, c, d, e, f, g, h) == Leftover()
    ensures FromBytes(a, b, c, d).first && FromBytes(e, f, g, h).end == 1
  {
    TopHalf(c, d);
    NullAtZero(e, f, g, h);
    OneEnd(e, f, g, h);
  }

  lemma TopHalf(c: byte, d: byte)
    requires c + 0x100 * d == 0x8000
    ensures d >= 0x80
  {}

  lemma NullAtZero(e: byte, f: byte, g: byte, h: byte)
    requires e % 2 == 1 && e / 2 + 0x80 * f + 0x8000 * g + 0x80_0000 * h == 0
    ensures e == 1 && f == 0 && g == 0 && h == 0
  {}

  lemma OneEnd(e: byte, f: byte, g: byte, h: byte)
    requires e == 1 && f == 0 && g == 0 && h == 0
    ensures FromBytes(e, f, g, h).end == 1
  {}

  lemma LeftoverEntries(m: seq<byte>)
    requires |m| == 8 && OldEntry(m, 0) == Leftover()
    ensures EntryAt(m, 0).first && EntryAt(m, 1).end == 1
  {
    LeftoverRead(m[0], m[1], m[2], m[3], m[4], m[5], m[6], m[7]);
  }

  /** One old entry that accounts for no bytes. */
  lemma SingleOld(os: seq<HOldEntry>, buf: seq<byte>)
    requires |os| == 1 && buf == [] && os[0] == Leftover()
    ensures OldSound(os, 0) && OldPairs(os, buf) == [Pair([], Null)]
  {
    assert OldEnd(os, 0) == 0;
    assert OldEnd(os, 1) == OldLen(os[0]) == 0;
    assert InPlace(os, 0);
    assert OldPair(os, buf, 0) == Pair([], Null);
  }

  lemma LeftoverIsOld(size: word, m: seq<byte>)
    requires size == 1 && |m| == 8 && OldEntry(m, 0) == Leftover()
    ensures OldValid(size, m) && OldContents(size, m) == [Pair([], Null)]
  {
    var os, buf := OldEntries(m, size), m[8 * size..];
    assert os[0] == OldEntry(m, 0);
    SingleOld(os, buf);
  }

  /** The last entry of a single pair points behind the value. */
  lemma SingleOverrun(size: word, m: seq<byte>)
    requires size == 1 && |m| == 8 && EntryAt(m, 1).end == 1
    ensures AsNew(size, m) == Overrun
  {
    CountIsSize(size);
    assert ReadEntries(m, 2 * size)[1] == EntryAt(m, 1);
  }

  lemma PlainIsNew(size: word, m: seq<byte>)
    requires size < NEWVERSION && Present(size, m) && PlainlyNew(size, m)
    ensures FormatOf(size, m) == New
  {}

  lemma SinglePresent(size: word, m: seq<byte>)
    requires size == 1 && |m| == 8
    ensures Present(size, m)
  {
    CountIsSize(size);
  }

  lemma MisreadEntries(size: word, m: seq<byte>)
    requires size == 1 && |m| == 8 && EntryAt(m, 0).first && EntryAt(m, 1).end == 1 && Present(size, m)
    ensures FormatOf(size, m) == New && AsNew(size, m) == Overrun
  {
    SingleOverrun(size, m);
    PlainIsNew(size, m);
  }

  lemma LeftoverOverruns(size: word, m: seq<byte>)
    requires size == 1 && |m| == 8 && Present(size, m) && OldEntry(m, 0) == Leftover()
    ensures FormatOf(size, m) == New && AsNew(size, m) == Overrun
  {
    LeftoverEntries(m);
    MisreadEntries(size, m);
  }

  lemma OverrunOnly(size: word, m: seq<byte>, r: Upgraded)
    requires Present(size, m) && FormatOf(size, m) == New && AsNew(size, m) == Overrun && UpgradesTo(size, m, r)
    ensures r == Overrun
  {}

  lemma NewIsOverrun(size: word, m: seq<byte>)
    requires Present(size, m) && FormatOf(size, m) == New && AsNew(size, m) == Overrun
    ensures forall r: Upgraded :: UpgradesTo(size, m, r) ==> r == Overrun
  {
    forall r: Upgraded | UpgradesTo(size, m, r) ensures r == Overrun { OverrunOnly(size, m, r); }
  }

  lemma LeftoverUpgrades(size: word, m: seq<byte>)
    requires size == 1 && |m| == 8 && Present(size, m) && OldEntry(m, 0) == Leftover()
    ensures forall r: Upgraded :: UpgradesTo(size, m, r) ==> r == Overrun
  {
    LeftoverOverruns(size, m);
    NewIsOverrun(size, m);
  }

  /** A valid old value that holds one null pair, and that the upgrade takes for a new one with a string of one
      byte that is not there. */
  ghost predicate Misread(size: word, m: seq<byte>) {
    && OldValid(size, m) && OldContents(size, m) == [Pair([], Null)]
    && Present(size, m) && forall r: Upgraded :: UpgradesTo(size, m, r) ==> r == Overrun
  }

  lemma BothSides(size: word, m: seq<byte>)
    requires OldValid(size, m) && OldContents(size, m) == [Pair([], Null)]
    requires Present(size, m) && forall r: Upgraded :: UpgradesTo(size, m, r) ==> r == Overrun
    ensures Misread(size, m)
  {}

  /** Any eight bytes of the leftover entry are such a value. */
  lemma MisreadValue(size: word, m: seq<byte>)
    requires size == 1 && |m| == 8 && OldEntry(m, 0) == Leftover()
    ensures Misread(size, m)
  {
    LeftoverIsOld(size, m);
    SinglePresent(size, m);
    LeftoverUpgrades(size, m);
    BothSides(size, m);
  }

  lemma MisreadBytes(m: seq<byte>)
    requires |m| == 8 && m[0] == m[1] == m[2] == 0 && m[3] == 0x80 && m[4] == 1 && m[5] == m[6] == m[7] == 0
    ensures OldEntry(m, 0) == Leftover()
  {
    LeftoverBytes(m[0], m[1], m[2], m[3], m[4], m[5], m[6], m[7]);
  }

  lemma LeftoverBytes(a: byte, b: byte, c: byte, d: byte, e: byte, f: byte, g: byte, h: byte)
    requires a == b == c == 0 && d == 0x80 && e == 1 && f == g == h == 0
    ensures OldFromBytes(a, b, c, d, e, f, g, h) == Leftover()
  {
    assert e % 2 == 1 && e / 2 == 0;
  }

  /** The bytes are these. */
  lemma MisreadInput(size: word, m: seq<byte>)
    requires size == 1 && m == [0, 0, 0, 0x80, 1, 0, 0, 0]
    ensures Misread(size, m)
  {
    MisreadBytes(m);
    MisreadValue(size, m);
  }
}
