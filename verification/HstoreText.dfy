/** `hstore_in` and `hstore_out`, and that reading what was printed rebuilds the value. */
module HstoreText {
  import opened Bytes
  import opened HstoreFormat
  import opened HstoreBuild
  import opened HstoreMap
  import opened HstorePairs
  import opened HstoreScan
  import opened HstoreOps

  const SPACE: byte := 32
  const NULLTEXT: seq<byte> := [78, 85, 76, 76]

  // ----- Printing -----

  ghost function Escape(w: seq<byte>): seq<byte> {
    if w == [] then []
    else (if w[0] == QUOTE || w[0] == BACKSLASH then [BACKSLASH, w[0]] else [w[0]]) + Escape(w[1..])
  }

  ghost function InQuotes(w: seq<byte>): seq<byte> {
    [QUOTE] + Escape(w) + [QUOTE]
  }

  ghost function PrintValue(v: Value): seq<byte> {
    if v.Null? then NULLTEXT else InQuotes(v.bytes)
  }

  /** The pairs from `i` on, with a comma and a space between two. */
  ghost function PrintFrom(ps: seq<Pair>, i: nat): seq<byte>
    decreases |ps| - i
  {
    if i >= |ps| then []
    else InQuotes(ps[i].key) + [EQUALS, GREATER] + PrintValue(ps[i].value)
         + (if i + 1 < |ps| then [COMMA, SPACE] else []) + PrintFrom(ps, i + 1)
  }

  ghost function Printed(ps: seq<Pair>): seq<byte> {
    PrintFrom(ps, 0)
  }

  // ----- hstore_out -----

  /** What the first loop reserves for a pair: every byte escaped, quotes, arrow and separator. */
  function Reserve(p: Pair): nat {
    6 + 2 * |p.key| + 2 + if p.value.Null? then 2 else 2 * |p.value.bytes|
  }

  ghost function Reserved(ps: seq<Pair>, n: nat): nat
    requires n <= |ps|
  {
    if n == 0 then 0 else Reserved(ps, n - 1) + Reserve(ps[n-1])
  }

  lemma {:induction false} ReservedGrows(ps: seq<Pair>, i: nat, n: nat)
    requires i <= n <= |ps|
    ensures Reserved(ps, i) <= Reserved(ps, n)
    decreases n - i
  {
    if i < n { ReservedGrows(ps, i + 1, n); }
  }

  ghost function Nulls(ps: seq<Pair>, n: nat): nat
    requires n <= |ps|
  {
    if n == 0 then 0 else Nulls(ps, n - 1) + if ps[n-1].value.Null? then 1 else 0
  }

  lemma {:induction false} ReservedUpTo(hs: HStore, n: nat)
    requires Structured(hs) && n <= Count(hs)
    ensures Reserved(Decode(hs), n) == 8 * n + 2 * Start(hs.entries, 2 * n) + 2 * Nulls(Decode(hs), n)
  {
    if n > 0 {
      ReservedUpTo(hs, n - 1);
      LaidBounds(hs.entries, hs.strings, Count(hs), n - 1);
      assert PairInOrder(hs.entries, n - 1);
    }
  }

  /** The room reserved for the text of a value, by its fields: eight bytes for a pair, two for a byte of the
      strings, two more for a null. */
  lemma ReservedByFields(hs: HStore)
    requires Structured(hs)
    ensures Reserved(Decode(hs), Count(hs)) == 8 * Count(hs) + 2 * |hs.strings| + 2 * Nulls(Decode(hs), Count(hs))
  {
    ReservedUpTo(hs, Count(hs));
  }

  /** The buffer holds `text` before `ptr`. */
  ghost predicate Wrote(out: array<byte>, ptr: nat, text: seq<byte>)
    reads out
  {
    ptr <= out.Length && out[..ptr] == text
  }

  method Put(out: array<byte>, ptr: nat, s: seq<byte>, ghost text: seq<byte>) returns (p: nat)
    requires Wrote(out, ptr, text) && ptr + |s| <= out.Length
    modifies out
    ensures p == ptr + |s| && Wrote(out, p, text + s)
  {
    ghost var m := out[..];
    CopyIn(out, ptr, s);
    LiesAtSlice(out[..], ptr, s);
    SameSlice(m, out[..], 0, ptr);
    p := ptr + |s|;
    assert out[..p] == out[..][0..ptr] + out[..][ptr..ptr + |s|];
  }

  lemma EscapeNext(w: seq<byte>, i: nat)
    requires i < |w|
    ensures Escape(w[i..]) == (if w[i] == QUOTE || w[i] == BACKSLASH then [BACKSLASH, w[i]] else [w[i]]) + Escape(w[i+1..])
  {
    assert w[i..][1..] == w[i+1..];
  }

  lemma Regroup(a: seq<byte>, b: seq<byte>, c: seq<byte>)
    ensures a + (b + c) == (a + b) + c
  {}

  /** `cpw`: copies a string, escaping quotes and backslashes; it needs at most two bytes for each. */
  method Cpw(out: array<byte>, ptr: nat, src: seq<byte>, ghost text: seq<byte>) returns (p: nat)
    requires Wrote(out, ptr, text) && ptr + 2 * |src| <= out.Length
    modifies out
    ensures p <= ptr + 2 * |src| && Wrote(out, p, text + Escape(src))
  {
    p := ptr;
    var i := 0;
    ghost var done := text;
    assert src[0..] == src;
    while i < |src|
      invariant 0 <= i <= |src| && p <= ptr + 2 * i && Wrote(out, p, done) && done + Escape(src[i..]) == text + Escape(src)
    {
      EscapeNext(src, i);
      var s := if src[i] == QUOTE || src[i] == BACKSLASH then [BACKSLASH, src[i]] else [src[i]];
      Regroup(done, s, Escape(src[i+1..]));
      p := Put(out, p, s, done);
      done := done + s;
      i := i + 1;
    }
    assert src[i..] == [] && done + [] == done;
  }

  method PutQuoted(out: array<byte>, ptr: nat, src: seq<byte>, ghost text: seq<byte>) returns (p: nat)
    requires Wrote(out, ptr, text) && ptr + 2 * |src| + 2 <= out.Length
    modifies out
    ensures p <= ptr + 2 * |src| + 2 && Wrote(out, p, text + InQuotes(src))
  {
    p := Put(out, ptr, [QUOTE], text);
    p := Cpw(out, p, src, text + [QUOTE]);
    p := Put(out, p, [QUOTE], text + [QUOTE] + Escape(src));
    assert text + [QUOTE] + Escape(src) + [QUOTE] == text + InQuotes(src);
  }

  ghost function PrintPair(p: Pair): seq<byte> {
    InQuotes(p.key) + [EQUALS, GREATER] + PrintValue(p.value)
  }

  method PutPair(out: array<byte>, ptr: nat, p: Pair, ghost text: seq<byte>) returns (q: nat)
    requires Wrote(out, ptr, text) && ptr + Reserve(p) <= out.Length + 2
    modifies out
    ensures q + 2 <= ptr + Reserve(p) && Wrote(out, q, text + PrintPair(p))
  {
    q := PutQuoted(out, ptr, p.key, text);
    q := Put(out, q, [EQUALS, GREATER], text + InQuotes(p.key));
    ghost var before := text + InQuotes(p.key) + [EQUALS, GREATER];
    if p.value.Null? {
      q := Put(out, q, NULLTEXT, before);
    } else {
      q := PutQuoted(out, q, p.value.bytes, before);
    }
    assert before + PrintValue(p.value) == text + PrintPair(p);
  }

  /** What has been written and what is still to be written make up the text, in the room reserved. */
  ghost predicate Printing(out: array<byte>, ptr: nat, text: seq<byte>, ps: seq<Pair>, i: nat)
    reads out
  {
    && i <= |ps| && Wrote(out, ptr, text) && text + PrintFrom(ps, i) == Printed(ps) && out.Length == Reserved(ps, |ps|)
    && ptr + (if 0 < i == |ps| then 2 else 0) <= Reserved(ps, i)
  }

  method PrintOne(out: array<byte>, ptr: nat, ghost text: seq<byte>, ps: seq<Pair>, i: nat) returns (q: nat, ghost text': seq<byte>)
    requires Printing(out, ptr, text, ps, i) && i < |ps|
    modifies out
    ensures Printing(out, q, text', ps, i + 1)
  {
    ReservedGrows(ps, i + 1, |ps|);
    q := PutPair(out, ptr, ps[i], text);
    text' := text + PrintPair(ps[i]);
    ghost var sep: seq<byte> := if i + 1 < |ps| then [COMMA, SPACE] else [];
    PrintStep(ps, i, text, sep);
    if i + 1 != |ps| {
      q := Put(out, q, [COMMA, SPACE], text');
    }
    text' := text' + sep;
  }

  lemma PrintStep(ps: seq<Pair>, i: nat, text: seq<byte>, sep: seq<byte>)
    requires i < |ps| && sep == if i + 1 < |ps| then [COMMA, SPACE] else []
    ensures text + PrintFrom(ps, i) == text + PrintPair(ps[i]) + sep + PrintFrom(ps, i + 1)
    ensures sep == [] ==> text + PrintPair(ps[i]) + sep == text + PrintPair(ps[i])
  {
    assert PrintFrom(ps, i) == PrintPair(ps[i]) + sep + PrintFrom(ps, i + 1);
    Regroup(text, PrintPair(ps[i]) + sep, PrintFrom(ps, i + 1));
    Regroup(text, PrintPair(ps[i]), sep);
  }

  /** The first loop of `hstore_out`. */
  method SumReserve(hs: HStore) returns (buflen: nat)
    requires Structured(hs)
    ensures buflen == Reserved(Decode(hs), Count(hs))
  {
    buflen := 0;
    var i := 0;
    while i < Count(hs)
      invariant 0 <= i <= Count(hs) && buflen == Reserved(Decode(hs), i)
    {
      buflen := buflen + Reserve(Decode(hs)[i]);
      i := i + 1;
    }
  }

  /** `hstore_out`: the text, with its final zero byte, fits the buffer that was reserved. */
  method HstoreOut(hs: HStore) returns (r: Outcome<seq<byte>>)
    requires Structured(hs)
    ensures r.TooLarge? <==> Reserved(Decode(hs), Count(hs)) > 0x3fff_ffff
    ensures r.Done? ==> r.value == Printed(Decode(hs))
  {
    if Count(hs) == 0 {
      return Done([]);
    }
    var ps := Decode(hs);
    var buflen := SumReserve(hs);
    if buflen > MaxAllocSize {
      return TooLarge;
    }
    var text := PrintAll(ps, buflen);
    return Done(text);
  }

  /** The second loop of `hstore_out`. */
  method PrintAll(ps: seq<Pair>, buflen: nat) returns (r: seq<byte>)
    requires buflen == Reserved(ps, |ps|) && ps != []
    ensures r == Printed(ps)
  {
    var out := new byte[buflen](_ => 0);
    var ptr: nat, i := 0, 0;
    ghost var text: seq<byte> := [];
    assert text + PrintFrom(ps, 0) == Printed(ps);
    while i < |ps|
      invariant 0 <= i <= |ps| && Printing(out, ptr, text, ps, i)
    {
      ptr, text := PrintOne(out, ptr, text, ps, i);
      i := i + 1;
    }
    assert text + [] == text;
    out[ptr] := 0;
    return out[..ptr];
  }

  // ----- hstore_in -----

  datatype Input = Value(hs: HStore) | Malformed(error: Error) | NoRoom

  /** A value for the pairs that were read: for each key one of its pairs. */
  ghost predicate BuiltFrom(hs: HStore, all: seq<InPair>) {
    && WellFormed(hs)
    && (forall i :: 0 <= i < Count(hs) ==> Decode(hs)[i] in Contents(all))
    && forall i :: 0 <= i < |all| ==> all[i].key in Meaning(hs)
  }

  /** `hstore_in`. */
  method HstoreIn(text: seq<byte>) returns (r: Input)
    ensures r.Malformed? <==> ReadPairs(text, 0).ParseError?
    ensures r.Malformed? ==> ReadPairs(text, 0).error == r.error
    ensures r.Value? ==> BuiltFrom(r.hs, ReadPairs(text, 0).ps) && InKeyOrder(Decode(r.hs))
    ensures r.NoRoom? ==> exists kept :: Unique(kept, ReadPairs(text, 0).ps) && DataSize(|kept|, PairsLen(kept)) > MaxAllocSize
  {
    var state := new HSParser(text);
    var parsed := state.ParseHstore();
    if parsed.ParseError? {
      return Malformed(parsed.error);
    }
    r := BuildFrom(state.pairs);
    if r.Value? {
      WellFormedIff(r.hs);
    }
  }

  method BuildFrom(ps: seq<InPair>) returns (r: Input)
    ensures !r.Malformed? && (r.Value? ==> BuiltFrom(r.hs, ps))
    ensures r.NoRoom? ==> exists kept :: Unique(kept, ps) && DataSize(|kept|, PairsLen(kept)) > MaxAllocSize
  {
    var a := new InPair[|ps|](i requires 0 <= i < |ps| => ps[i]);
    assert a[..|ps|] == ps;
    var n, buflen := HstoreUniquePairs(a, |ps|);
    ghost var kept := a[..n];
    var out := HstorePairs.HstorePairs(a[..n], buflen);
    if out.TooLarge? {
      assert Unique(kept, ps);
      return NoRoom;
    }
    UniqueBuilt(kept, ps, out.value);
    return Value(out.value);
  }

  lemma UniqueBuilt(kept: seq<InPair>, ps: seq<InPair>, hs: HStore)
    requires Unique(kept, ps) && Structured(hs) && Decode(hs) == Contents(kept)
    ensures BuiltFrom(hs, ps)
  {
    UniqueKeys(kept, ps, []);
    forall i | 0 <= i < Count(hs) ensures Decode(hs)[i] in Contents(ps) {
      assert kept[i] in ps;
      var j :| 0 <= j < |ps| && ps[j] == kept[i];
      assert Contents(ps)[j] == Content(kept[i]);
    }
    forall i | 0 <= i < |ps| ensures ps[i].key in Meaning(hs) {
      UniqueKeys(kept, ps, ps[i].key);
      assert HasKey(ps, ps[i].key);
    }
  }

  // ----- Round trip -----

  /** No string holds a zero byte; the strings of SQL text never do. */
  ghost predicate Clean(w: seq<byte>) {
    forall i :: 0 <= i < |w| ==> w[i] != 0
  }

  ghost predicate CleanPair(p: Pair) {
    Clean(p.key) && (p.value.Text? ==> Clean(p.value.bytes))
  }

  ghost predicate CleanPairs(ps: seq<Pair>) {
    forall i :: 0 <= i < |ps| ==> CleanPair(ps[i])
  }

  /** What stands in the text from position `i` on. */
  ghost predicate Ahead(t: seq<byte>, i: nat, s: seq<byte>) {
    i <= |t| && t[i..] == s
  }

  lemma Consume(t: seq<byte>, i: nat, a: seq<byte>, s: seq<byte>)
    requires Ahead(t, i, a + s)
    ensures Ahead(t, i + |a|, s) && forall k :: 0 <= k < |a| ==> At(t, i + k) == a[k]
  {
    assert t[i + |a|..] == t[i..][|a|..] == s;
    forall k | 0 <= k < |a| ensures At(t, i + k) == a[k] { assert t[i + k] == t[i..][k]; }
  }

  /** An escaped string is read back to its closing quote. */
  lemma {:induction false} QuotedReads(t: seq<byte>, i: nat, w: seq<byte>, s: seq<byte>) returns (j: nat)
    requires Clean(w) && Ahead(t, i, Escape(w) + ([QUOTE] + s))
    ensures Quoted(t, i) == Word(w, true, j) && Ahead(t, j, s)
    decreases |w|
  {
    if w == [] {
      assert Escape(w) + ([QUOTE] + s) == [QUOTE] + s;
      Consume(t, i, [QUOTE], s);
      assert At(t, i + 0) == QUOTE;
      j := i + 1;
    } else {
      var a := if w[0] == QUOTE || w[0] == BACKSLASH then [BACKSLASH, w[0]] else [w[0]];
      var rest := Escape(w[1..]) + ([QUOTE] + s);
      Regroup(a, Escape(w[1..]), [QUOTE] + s);
      Consume(t, i, a, rest);
      assert At(t, i + 0) == a[0];
      if |a| == 2 { assert At(t, i + 1) == a[1]; }
      j := QuotedReads(t, i + |a|, w[1..], s);
      assert [w[0]] + w[1..] == w;
    }
  }

  lemma WordReads(t: seq<byte>, i: nat, w: seq<byte>, value: bool, s: seq<byte>) returns (j: nat)
    requires Clean(w) && Ahead(t, i, InQuotes(w) + s)
    ensures ScanWord(t, i, value) == Word(w, true, j) && Ahead(t, j, s)
  {
    assert InQuotes(w) + s == [QUOTE] + (Escape(w) + ([QUOTE] + s));
    Consume(t, i, [QUOTE], Escape(w) + ([QUOTE] + s));
    assert At(t, i + 0) == QUOTE;
    j := QuotedReads(t, i + 1, w, s);
  }

  /** `NULL` is read as a word without quotes, up to a comma or the end. */
  lemma NullReads(t: seq<byte>, i: nat, s: seq<byte>)
    requires Ahead(t, i, NULLTEXT + s) && (s == [] || s[0] == COMMA)
    ensures ScanWord(t, i, true) == Word(NULLTEXT, false, i + 4) && Ahead(t, i + 4, s)
  {
    Consume(t, i, NULLTEXT, s);
    assert At(t, i + 0) == 78 && At(t, i + 1) == 85 && At(t, i + 2) == 76 && At(t, i + 3) == 76;
    assert At(t, i + 4) == (if s == [] then 0 else COMMA) by {
      if s != [] { assert t[i + 4] == t[i + 4..][0]; }
    }
    assert Bare(t, i + 4, true) == Word([], false, i + 4);
    assert Bare(t, i + 3, true) == Word([76], false, i + 4);
    assert Bare(t, i + 2, true) == Word([76, 76], false, i + 4);
    assert Bare(t, i + 1, true) == Word([85, 76, 76], false, i + 4);
  }

  lemma ValueReads(t: seq<byte>, i: nat, v: Value, s: seq<byte>) returns (j: nat)
    requires Ahead(t, i, PrintValue(v) + s) && (s == [] || s[0] == COMMA) && (v.Text? ==> Clean(v.bytes))
    ensures ScanWord(t, i, true) == Word(if v.Null? then NULLTEXT else v.bytes, v.Text?, j) && Ahead(t, j, s)
  {
    if v.Null? {
      NullReads(t, i, s);
      j := i + 4;
    } else {
      j := WordReads(t, i, v.bytes, true, s);
    }
  }

  /** What the parser makes of a printed pair. */
  ghost function Reread(p: Pair): InPair {
    InPair(p.key, if p.value.Null? then NULLTEXT else p.value.bytes, p.value.Null?, true)
  }

  ghost function RereadFrom(ps: seq<Pair>, i: nat): seq<InPair>
    requires i <= |ps|
  {
    seq(|ps| - i, k requires 0 <= k < |ps| - i => Reread(ps[i + k]))
  }

  lemma KeyStep(t: seq<byte>, i: nat, key: seq<byte>, n: nat)
    requires ScanWord(t, i, false) == Word(key, true, n) && |key| <= MAXLEN
    ensures ReadPairs(t, i) == ReadEquals(t, n, key)
  {}

  lemma ArrowStep(t: seq<byte>, i: nat, key: seq<byte>)
    requires At(t, i) == EQUALS && At(t, i + 1) == GREATER
    ensures ReadEquals(t, i, key) == ReadValue(t, i + 2, key)
  {
    assert ReadEquals(t, i, key) == ReadGreater(t, i + 1, key);
  }

  lemma ValueStep(t: seq<byte>, i: nat, p: Pair, n: nat)
    requires ScanWord(t, i, true) == Word(if p.value.Null? then NULLTEXT else p.value.bytes, p.value.Text?, n)
    requires ValueLen(p.value) <= MAXLEN
    ensures ReadValue(t, i, p.key) == Before([Reread(p)], ReadComma(t, n))
  {}

  /** After the comma the space is skipped. */
  lemma CommaStep(t: seq<byte>, i: nat)
    requires At(t, i) == COMMA && At(t, i + 1) == SPACE
    ensures ReadComma(t, i) == ReadPairs(t, i + 2)
  {
    assert ScanWord(t, i + 1, false) == ScanWord(t, i + 2, false);
  }

  lemma SplitPair(p: Pair, s: seq<byte>)
    ensures PrintPair(p) + s == InQuotes(p.key) + ([EQUALS, GREATER] + (PrintValue(p.value) + s))
  {
    var q, a, v := InQuotes(p.key), [EQUALS, GREATER], PrintValue(p.value);
    Regroup(q + a, v, s);
    Regroup(q, a, v + s);
  }

  lemma PairReads(t: seq<byte>, i: nat, p: Pair, s: seq<byte>) returns (j: nat)
    requires Ahead(t, i, PrintPair(p) + s) && (s == [] || s[0] == COMMA)
    requires CleanPair(p) && |p.key| <= MAXLEN && ValueLen(p.value) <= MAXLEN
    ensures ReadPairs(t, i) == Before([Reread(p)], ReadComma(t, j)) && Ahead(t, j, s)
  {
    SplitPair(p, s);
    var v := PrintValue(p.value) + s;
    var n := WordReads(t, i, p.key, false, [EQUALS, GREATER] + v);
    KeyStep(t, i, p.key, n);
    Consume(t, n, [EQUALS, GREATER], v);
    assert At(t, n + 0) == EQUALS && At(t, n + 1) == GREATER;
    ArrowStep(t, n, p.key);
    j := ValueReads(t, n + 2, p.value, s);
    ValueStep(t, n + 2, p, j);
  }

  ghost predicate Short(ps: seq<Pair>) {
    forall i :: 0 <= i < |ps| ==> |ps[i].key| <= MAXLEN && ValueLen(ps[i].value) <= MAXLEN
  }

  lemma PrintFront(ps: seq<Pair>, k: nat)
    requires k < |ps|
    ensures var sep: seq<byte> := if k + 1 < |ps| then [COMMA, SPACE] else [];
      PrintFrom(ps, k) == PrintPair(ps[k]) + (sep + PrintFrom(ps, k + 1))
  {
    var sep: seq<byte> := if k + 1 < |ps| then [COMMA, SPACE] else [];
    Regroup(PrintPair(ps[k]), sep, PrintFrom(ps, k + 1));
  }

  lemma RereadFront(ps: seq<Pair>, k: nat)
    requires k < |ps|
    ensures RereadFrom(ps, k) == [Reread(ps[k])] + RereadFrom(ps, k + 1)
  {}

  lemma NextPairReads(t: seq<byte>, i: nat, p: Pair, s: seq<byte>) returns (j: nat)
    requires Ahead(t, i, PrintPair(p) + ([COMMA, SPACE] + s))
    requires CleanPair(p) && |p.key| <= MAXLEN && ValueLen(p.value) <= MAXLEN
    ensures ReadPairs(t, i) == Before([Reread(p)], ReadPairs(t, j)) && Ahead(t, j, s)
  {
    var n := PairReads(t, i, p, [COMMA, SPACE] + s);
    Consume(t, n, [COMMA, SPACE], s);
    assert At(t, n + 0) == COMMA && At(t, n + 1) == SPACE;
    CommaStep(t, n);
    j := n + 2;
  }

  lemma LastPairReads(t: seq<byte>, i: nat, p: Pair)
    requires Ahead(t, i, PrintPair(p) + [])
    requires CleanPair(p) && |p.key| <= MAXLEN && ValueLen(p.value) <= MAXLEN
    ensures ReadPairs(t, i) == Before([Reread(p)], Pairs([]))
  {
    var n := PairReads(t, i, p, []);
    assert ReadComma(t, n) == Pairs([]);
  }

  /** The printed pairs are read back. */
  lemma {:induction false} PairsRead(t: seq<byte>, i: nat, ps: seq<Pair>, k: nat)
    requires k < |ps| && CleanPairs(ps) && Short(ps) && Ahead(t, i, PrintFrom(ps, k))
    ensures ReadPairs(t, i) == Pairs(RereadFrom(ps, k))
    decreases |ps| - k
  {
    PrintFront(ps, k);
    RereadFront(ps, k);
    if k + 1 < |ps| {
      var j := NextPairReads(t, i, ps[k], PrintFrom(ps, k + 1));
      PairsRead(t, j, ps, k + 1);
    } else {
      assert [] + PrintFrom(ps, k + 1) == [];
      LastPairReads(t, i, ps[k]);
    }
  }

  lemma PrintedReads(ps: seq<Pair>)
    requires CleanPairs(ps) && Short(ps)
    ensures ReadPairs(Printed(ps), 0) == Pairs(RereadFrom(ps, 0)) && Contents(RereadFrom(ps, 0)) == ps
  {
    assert Printed(ps)[0..] == Printed(ps);
    if ps != [] { PairsRead(Printed(ps), 0, ps, 0); }
    forall i | 0 <= i < |ps| ensures Content(RereadFrom(ps, 0)[i]) == ps[i] {}
  }

  lemma SelectedValue(qs: seq<Pair>, ps: seq<Pair>, i: nat)
    requires SortedKeys(qs) && SortedKeys(ps) && i < |qs| && qs[i] in ps
    ensures qs[i].key in MapOf(ps) && qs[i].key in MapOf(qs) && MapOf(ps)[qs[i].key] == MapOf(qs)[qs[i].key]
  {
    MapAt(qs, i);
    var j :| 0 <= j < |ps| && ps[j] == qs[i];
    MapAt(ps, j);
  }

  /** A sorted selection from a sorted list that has all its keys is the list. */
  lemma SelectionIsAll(qs: seq<Pair>, ps: seq<Pair>)
    requires SortedKeys(qs) && SortedKeys(ps) && (forall i :: 0 <= i < |qs| ==> qs[i] in ps)
    requires forall i :: 0 <= i < |ps| ==> ps[i].key in MapOf(qs)
    ensures qs == ps
  {
    var m, d := MapOf(qs), MapOf(ps);
    forall k | k in m ensures k in d && d[k] == m[k] {
      MapKeys(qs, k);
      var i :| 0 <= i < |qs| && qs[i].key == k;
      SelectedValue(qs, ps, i);
    }
    forall k | k in d ensures k in m { MapKeys(ps, k); }
    SameDict(m, d);
    SortedUnique(qs, ps);
  }

  lemma SameDict(m: Dict, d: Dict)
    requires (forall k :: k in m ==> k in d && d[k] == m[k]) && forall k :: k in d ==> k in m
    ensures m == d
  {}

  /** Reading the text of a well-formed value yields its pairs, and whatever is built from them is the value
      itself, to the last flag; there is always room for it. */
  lemma RoundTrip(hs: HStore)
    requires WellFormed(hs) && CleanPairs(Decode(hs))
    ensures ReadPairs(Printed(Decode(hs)), 0).Pairs?
    ensures forall back: HStore :: BuiltFrom(back, ReadPairs(Printed(Decode(hs)), 0).ps) ==> back == hs
    ensures forall kept :: Unique(kept, ReadPairs(Printed(Decode(hs)), 0).ps) ==> DataSize(|kept|, PairsLen(kept)) <= MaxAllocSize
  {
    var ps := Decode(hs);
    StoredShort(hs);
    PrintedReads(ps);
    var all := RereadFrom(ps, 0);
    forall back: HStore | BuiltFrom(back, all) ensures back == hs {
      SelectionIsAll(Decode(back), ps);
      PackedUnique(back, hs);
    }
    forall kept | Unique(kept, all) ensures DataSize(|kept|, PairsLen(kept)) <= MaxAllocSize {
      KeptIsAll(kept, all, ps);
      StoredRoom(hs, kept, Count(hs));
      assert kept[..Count(hs)] == kept;
    }
  }

  lemma KeptIsAll(kept: seq<InPair>, all: seq<InPair>, ps: seq<Pair>)
    requires Unique(kept, all) && Contents(all) == ps && SortedKeys(ps)
    ensures Contents(kept) == ps
  {
    UniqueKeys(kept, all, []);
    forall i | 0 <= i < |kept| ensures Contents(kept)[i] in ps {
      assert kept[i] in all;
      var j :| 0 <= j < |all| && all[j] == kept[i];
      assert ps[j] == Contents(kept)[i];
    }
    forall i | 0 <= i < |ps| ensures ps[i].key in MapOf(Contents(kept)) {
      UniqueKeys(kept, all, ps[i].key);
      assert all[i].key == ps[i].key;
    }
    SelectionIsAll(Contents(kept), ps);
  }

  /** The strings of the first `n` pairs end where the entries say. */
  lemma {:induction false} StoredRoom(hs: HStore, kept: seq<InPair>, n: nat)
    requires Structured(hs) && Contents(kept) == Decode(hs) && n <= Count(hs)
    ensures PairsLen(kept[..n]) == Start(hs.entries, 2 * n)
  {
    if n > 0 {
      StoredRoom(hs, kept, n - 1);
      PairsLenNext(kept, n - 1);
      LaidBounds(hs.entries, hs.strings, Count(hs), n - 1);
      assert Content(kept[n-1]) == Decode(hs)[n-1];
      assert PairInOrder(hs.entries, n - 1);
    }
  }

  lemma StoredShort(hs: HStore)
    requires Structured(hs)
    ensures Short(Decode(hs))
  {
    forall i | 0 <= i < Count(hs) ensures |Decode(hs)[i].key| <= MAXLEN && ValueLen(Decode(hs)[i].value) <= MAXLEN {
      LaidBounds(hs.entries, hs.strings, Count(hs), i);
    }
  }

  /** A value with a text and a null, in the letters that are printed: "a"=>"1", "b"=>NULL. */
  lemma PrintedLetters(p: Pair, q: Pair)
    requires p == Pair([97], Text([49])) && q == Pair([98], Null)
    ensures Printed([p, q]) == [34, 97, 34, 61, 62, 34, 49, 34] + [44, 32] + [34, 98, 34, 61, 62, 78, 85, 76, 76]
  {
    EscapedLetters(97);
    EscapedLetters(98);
    EscapedLetters(49);
    PrintedTwo(p, q);
    assert PrintPair(p) == [34, 97, 34, 61, 62, 34, 49, 34];
    assert PrintPair(q) == [34, 98, 34, 61, 62, 78, 85, 76, 76];
  }

  lemma PrintedTwo(p: Pair, q: Pair)
    ensures Printed([p, q]) == PrintPair(p) + [COMMA, SPACE] + PrintPair(q)
  {
    PrintFront([p, q], 0);
    PrintFront([p, q], 1);
    assert PrintFrom([p, q], 2) == [];
  }

  /** Quotes and backslashes are printed behind a backslash. */
  lemma EscapedLetters(c: byte)
    ensures InQuotes([c]) == if c == 34 || c == 92 then [34, 92, c, 34] else [34, c, 34]
  {
    assert Escape([c][1..]) == [];
  }

  // ----- Zero bytes -----

  lemma {:induction false} QuotedFails(t: seq<byte>, i: nat, w: seq<byte>, s: seq<byte>)
    requires !Clean(w) && Ahead(t, i, Escape(w) + s)
    ensures Quoted(t, i) == Failed(UnexpectedEnd)
    decreases |w|
  {
    var a := if w[0] == QUOTE || w[0] == BACKSLASH then [BACKSLASH, w[0]] else [w[0]];
    Regroup(a, Escape(w[1..]), s);
    Consume(t, i, a, Escape(w[1..]) + s);
    assert At(t, i + 0) == a[0];
    if w[0] != 0 {
      if |a| == 2 { assert At(t, i + 1) == a[1]; }
      var k :| 0 <= k < |w| && w[k] == 0;
      assert w[1..][k-1] == 0;
      QuotedFails(t, i + |a|, w[1..], s);
    }
  }

  lemma WordFails(t: seq<byte>, i: nat, w: seq<byte>, value: bool, s: seq<byte>)
    requires !Clean(w) && Ahead(t, i, InQuotes(w) + s)
    ensures ScanWord(t, i, value) == Failed(UnexpectedEnd)
  {
    assert InQuotes(w) + s == [QUOTE] + (Escape(w) + ([QUOTE] + s));
    Consume(t, i, [QUOTE], Escape(w) + ([QUOTE] + s));
    assert At(t, i + 0) == QUOTE;
    QuotedFails(t, i + 1, w, [QUOTE] + s);
  }

  lemma PairFails(t: seq<byte>, i: nat, p: Pair, s: seq<byte>)
    requires Ahead(t, i, PrintPair(p) + s) && !CleanPair(p) && |p.key| <= MAXLEN
    ensures ReadPairs(t, i) == ParseError(UnexpectedEnd)
  {
    SplitPair(p, s);
    var v := PrintValue(p.value) + s;
    if !Clean(p.key) {
      WordFails(t, i, p.key, false, [EQUALS, GREATER] + v);
    } else {
      var n := WordReads(t, i, p.key, false, [EQUALS, GREATER] + v);
      KeyStep(t, i, p.key, n);
      Consume(t, n, [EQUALS, GREATER], v);
      assert At(t, n + 0) == EQUALS && At(t, n + 1) == GREATER;
      ArrowStep(t, n, p.key);
      WordFails(t, n + 2, p.value.bytes, true, s);
    }
  }

  lemma {:induction false} PairsFail(t: seq<byte>, i: nat, ps: seq<Pair>, k: nat, bad: nat)
    requires k <= bad < |ps| && !CleanPair(ps[bad]) && Short(ps) && Ahead(t, i, PrintFrom(ps, k))
    ensures ReadPairs(t, i) == ParseError(UnexpectedEnd)
    decreases |ps| - k
  {
    PrintFront(ps, k);
    var sep: seq<byte> := if k + 1 < |ps| then [COMMA, SPACE] else [];
    if k == bad || !CleanPair(ps[k]) {
      PairFails(t, i, ps[k], sep + PrintFrom(ps, k + 1));
    } else {
      var j := NextPairReads(t, i, ps[k], PrintFrom(ps, k + 1));
      PairsFail(t, j, ps, k + 1, bad);
    }
  }

  /** The text of a value is accepted exactly if no string of the value has a zero byte. */
  lemma AcceptedIffClean(hs: HStore)
    requires WellFormed(hs)
    ensures ReadPairs(Printed(Decode(hs)), 0).Pairs? <==> CleanPairs(Decode(hs))
  {
    var ps := Decode(hs);
    StoredShort(hs);
    if CleanPairs(ps) {
      PrintedReads(ps);
    } else {
      var bad :| 0 <= bad < |ps| && !CleanPair(ps[bad]);
      assert Printed(ps)[0..] == Printed(ps);
      PairsFail(Printed(ps), 0, ps, 0, bad);
    }
  }

  lemma {:induction false} QuotedClean(t: seq<byte>, i: nat)
    ensures Quoted(t, i).Word? ==> Clean(Quoted(t, i).word)
    decreases |t| - i
  {
    if i < |t| { QuotedClean(t, i + 1); }
    if i + 1 < |t| { QuotedClean(t, i + 2); }
  }

  lemma {:induction false} BareClean(t: seq<byte>, i: nat, value: bool)
    ensures Bare(t, i, value).Word? ==> Clean(Bare(t, i, value).word)
    decreases |t| - i
  {
    if i < |t| { BareClean(t, i + 1, value); }
    if i + 1 < |t| { BareClean(t, i + 2, value); }
  }

  lemma {:induction false} ScanClean(t: seq<byte>, i: nat, value: bool)
    ensures ScanWord(t, i, value).Word? ==> Clean(ScanWord(t, i, value).word)
    decreases |t| - i
  {
    QuotedClean(t, i + 1);
    BareClean(t, i + 1, value);
    BareClean(t, i + 2, value);
    if i < |t| { ScanClean(t, i + 1, value); }
  }

  ghost predicate CleanInput(ps: seq<InPair>) {
    forall i :: 0 <= i < |ps| ==> Clean(ps[i].key) && Clean(ps[i].val)
  }

  lemma {:induction false} ReadClean(st: PairState, t: seq<byte>, i: nat, key: seq<byte>)
    requires Clean(key)
    ensures FromPairState(st, t, i, key).Pairs? ==> CleanInput(FromPairState(st, t, i, key).ps)
    decreases |t| - i
  {
    ScanClean(t, i, st == WVal);
    match st
    case WKey =>
      var s := ScanWord(t, i, false);
      if s.Word? { ReadClean(WEq, t, s.next, s.word); }
    case WVal =>
      var s := ScanWord(t, i, true);
      if s.Word? { ReadClean(WDel, t, s.next, key); }
    case WEq =>
      if i < |t| { ReadClean(WEq, t, i + 1, key); ReadClean(WGt, t, i + 1, key); }
    case WGt =>
      if i < |t| { ReadClean(WVal, t, i + 1, key); }
    case WDel =>
      if i < |t| { ReadClean(WDel, t, i + 1, key); ReadClean(WKey, t, i + 1, key); }
  }

  /** No value that was read has a zero byte. */
  lemma InputIsClean(hs: HStore, t: seq<byte>)
    requires ReadPairs(t, 0).Pairs? && BuiltFrom(hs, ReadPairs(t, 0).ps)
    ensures CleanPairs(Decode(hs))
  {
    ReadClean(WKey, t, 0, []);
    var all := ReadPairs(t, 0).ps;
    forall i | 0 <= i < Count(hs) ensures CleanPair(Decode(hs)[i]) {
      assert Decode(hs)[i] in Contents(all);
      var j :| 0 <= j < |all| && Content(all[j]) == Decode(hs)[i];
    }
  }

  /** Out and in again: whenever there is room for the text, the same value comes back. */
  method OutAndIn(hs: HStore) returns (text: Outcome<seq<byte>>, back: Input)
    requires WellFormed(hs) && CleanPairs(Decode(hs))
    ensures text.TooLarge? <==> Reserved(Decode(hs), Count(hs)) > MaxAllocSize
    ensures text.Done? ==> back == Value(hs)
  {
    text := HstoreOut(hs);
    back := NoRoom;
    if text.Done? {
      RoundTrip(hs);
      back := HstoreIn(text.value);
    }
  }
}
