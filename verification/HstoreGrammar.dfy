/** The grammar of hstore text, told without a parser, and that `parse_hstore` accepts exactly its sentences.

    A list is pairs separated by commas, one more comma allowed at its end; a pair is a key, `=>` and a value; a
    word stands in quotes or bare, and a backslash takes the next byte as it is. Blanks may stand around words and
    before commas and arrows. */
module HstoreGrammar {
  import opened Bytes
  import opened HstoreFormat
  import opened HstoreMap
  import opened HstorePairs
  import opened HstoreScan
  import opened HstoreOps
  import opened HstoreText

  ghost predicate Blank(b: seq<byte>) {
    forall i :: 0 <= i < |b| ==> IsSpace(b[i])
  }

  /** Where a byte stands: in quotes, or bare in a key or a value. */
  datatype Place = Quotes | KeyPlace | ValuePlace

  /** The byte ends a word in this place unless a backslash protects it. */
  predicate Stops(p: Place, c: byte) {
    match p
    case Quotes => c == QUOTE
    case KeyPlace => c == EQUALS || IsSpace(c)
    case ValuePlace => c == COMMA || IsSpace(c)
  }

  ghost predicate PlainIn(p: Place, c: byte) {
    c != 0 && c != BACKSLASH && !Stops(p, c)
  }

  /** `raw` is a way to write `w`: each byte plain or behind a backslash. */
  ghost predicate Writes(raw: seq<byte>, w: seq<byte>, p: Place) {
    if w == [] then raw == []
    else
      || (raw != [] && raw[0] == w[0] && PlainIn(p, w[0]) && Writes(raw[1..], w[1..], p))
      || (|raw| >= 2 && raw[0] == BACKSLASH && raw[1] == w[0] != 0 && Writes(raw[2..], w[1..], p))
  }

  ghost predicate InQuotation(raw: seq<byte>, w: seq<byte>) {
    exists inner: seq<byte> :: Writes(inner, w, Quotes) && raw == [QUOTE] + inner + [QUOTE]
  }

  /** The first byte of a bare word: a value may even begin with a comma or an equals sign. */
  ghost predicate PlainFirst(c: byte, value: bool) {
    c != 0 && c != BACKSLASH && c != QUOTE && !IsSpace(c) && (value || c != EQUALS)
  }

  function PlaceOf(value: bool): Place {
    if value then ValuePlace else KeyPlace
  }

  ghost predicate BareWord(raw: seq<byte>, w: seq<byte>, value: bool) {
    w != [] &&
      (|| (raw != [] && raw[0] == w[0] && PlainFirst(w[0], value) && Writes(raw[1..], w[1..], PlaceOf(value)))
       || (|raw| >= 2 && raw[0] == BACKSLASH && raw[1] == w[0] != 0 && Writes(raw[2..], w[1..], PlaceOf(value))))
  }

  ghost predicate WordOf(raw: seq<byte>, w: seq<byte>, quoted: bool, value: bool) {
    |w| <= MAXLEN && if quoted then InQuotation(raw, w) else BareWord(raw, w, value)
  }

  /** Blanks, a word, blanks, and then `rest`. */
  ghost predicate WordThen(s: seq<byte>, w: seq<byte>, quoted: bool, value: bool, rest: seq<byte>) {
    exists b: seq<byte>, raw: seq<byte>, e: seq<byte> ::
      Blank(b) && WordOf(raw, w, quoted, value) && Blank(e) && s == b + raw + (e + rest)
  }

  const ARROW: seq<byte> := [EQUALS, GREATER]

  /** A word with its capital letters in lower case. */
  ghost function Lower(w: seq<byte>): seq<byte> {
    seq(|w|, i requires 0 <= i < |w| => if 65 <= w[i] <= 90 then (w[i] + 32) as byte else w[i])
  }

  /** The letters of "null". */
  const NULLWORD: seq<byte> := [110, 117, 108, 108]

  /** A value is null if it stands bare and spells null in any case. */
  ghost predicate StandsFor(p: InPair, quoted: bool) {
    (p.isnull <==> !quoted && Lower(p.val) == NULLWORD) && p.needfree
  }

  lemma NullSpelled(w: seq<byte>)
    ensures SpellsNull(w) <==> Lower(w) == NULLWORD
  {
    if |w| == 4 {
      assert Lower(w) == [Lower(w)[0], Lower(w)[1], Lower(w)[2], Lower(w)[3]];
    }
  }

  lemma MadeIffStands(p: InPair, quoted: bool)
    ensures p == MakePair(p.key, p.val, quoted) <==> StandsFor(p, quoted)
  {
    NullSpelled(p.val);
  }

  /** A key, the arrow and a value. */
  ghost predicate PairThen(s: seq<byte>, p: InPair, rest: seq<byte>) {
    exists kq: bool, vq: bool, after: seq<byte> ::
      WordThen(s, p.key, kq, false, ARROW + after) && WordThen(after, p.val, vq, true, rest) && StandsFor(p, vq)
  }

  /** A pair is followed by the end, or by a comma and more. */
  ghost predicate Lists(s: seq<byte>, ps: seq<InPair>)
    decreases |ps|, 0
  {
    if ps == [] then Blank(s)
    else exists rest: seq<byte> :: PairThen(s, ps[0], rest) && RestLists(rest, ps[1..])
  }

  ghost predicate RestLists(rest: seq<byte>, ps: seq<InPair>)
    decreases |ps|, 1
  {
    (rest == [] && ps == []) || (rest != [] && rest[0] == COMMA && Lists(rest[1..], ps))
  }

  // ----- Sentences are read -----

  lemma {:induction false} WritesRead(t: seq<byte>, i: nat, raw: seq<byte>, w: seq<byte>, s: seq<byte>) returns (j: nat)
    requires Writes(raw, w, Quotes) && Ahead(t, i, raw + ([QUOTE] + s))
    ensures Quoted(t, i) == Word(w, true, j) && Ahead(t, j, s)
    decreases |w|
  {
    if w == [] {
      assert raw + ([QUOTE] + s) == [QUOTE] + s;
      Consume(t, i, [QUOTE], s);
      assert At(t, i + 0) == QUOTE;
      j := i + 1;
    } else {
      var k := UnitRead(t, i, raw, w, Quotes, [QUOTE] + s);
      j := WritesRead(t, i + k, raw[k..], w[1..], s);
      assert [w[0]] + w[1..] == w;
    }
  }

  /** The first unit of a word: one byte, or two with the backslash. */
  lemma UnitRead(t: seq<byte>, i: nat, raw: seq<byte>, w: seq<byte>, p: Place, s: seq<byte>) returns (k: nat)
    requires w != [] && Writes(raw, w, p) && Ahead(t, i, raw + s)
    ensures 1 <= k <= 2 && k <= |raw| && Writes(raw[k..], w[1..], p) && Ahead(t, i + k, raw[k..] + s)
    ensures if k == 1 then At(t, i) == w[0] && PlainIn(p, w[0]) else At(t, i) == BACKSLASH && At(t, i + 1) == w[0] != 0 && i + 1 < |t|
  {
    k := if raw[0] == w[0] && PlainIn(p, w[0]) && Writes(raw[1..], w[1..], p) then 1 else 2;
    assert raw + s == raw[..k] + (raw[k..] + s);
    Consume(t, i, raw[..k], raw[k..] + s);
    assert At(t, i + 0) == raw[0];
    if k == 2 { assert At(t, i + 1) == raw[1]; }
  }

  /** What may follow a bare word. */
  ghost predicate Ends(s: seq<byte>, p: Place) {
    s == [] || Stops(p, s[0])
  }

  /** A bare word takes the blank that ends it. */
  ghost function DropBlank(s: seq<byte>): seq<byte> {
    if s != [] && IsSpace(s[0]) then s[1..] else s
  }

  lemma {:induction false} BareRead(t: seq<byte>, i: nat, raw: seq<byte>, w: seq<byte>, value: bool, s: seq<byte>) returns (j: nat)
    requires Clean(t) && Writes(raw, w, PlaceOf(value)) && Ahead(t, i, raw + s) && Ends(s, PlaceOf(value))
    ensures Bare(t, i, value) == Word(w, false, j) && Ahead(t, j, DropBlank(s))
    decreases |w|
  {
    if w == [] {
      assert raw + s == s;
      j := BareEnd(t, i, value, s);
    } else {
      var k := UnitRead(t, i, raw, w, PlaceOf(value), s);
      j := BareRead(t, i + k, raw[k..], w[1..], value, s);
      assert [w[0]] + w[1..] == w;
    }
  }

  lemma BareEnd(t: seq<byte>, i: nat, value: bool, s: seq<byte>) returns (j: nat)
    requires Clean(t) && Ahead(t, i, s) && Ends(s, PlaceOf(value))
    ensures Bare(t, i, value) == Word([], false, j) && Ahead(t, j, DropBlank(s))
  {
    j := i;
    if s != [] {
      assert s == [s[0]] + s[1..];
      Consume(t, i, [s[0]], s[1..]);
      assert At(t, i + 0) == s[0];
      if IsSpace(s[0]) { j := i + 1; }
    }
  }

  lemma {:induction false} SkipBlanks(t: seq<byte>, i: nat, b: seq<byte>, value: bool, s: seq<byte>)
    requires Blank(b) && Ahead(t, i, b + s)
    ensures ScanWord(t, i, value) == ScanWord(t, i + |b|, value) && Ahead(t, i + |b|, s)
    decreases |b|
  {
    if b == [] {
      assert b + s == s;
    } else {
      assert b + s == [b[0]] + (b[1..] + s);
      Consume(t, i, [b[0]], b[1..] + s);
      assert At(t, i + 0) == b[0];
      SkipBlanks(t, i + 1, b[1..], value, s);
    }
  }

  lemma BareWordRead(t: seq<byte>, i: nat, raw: seq<byte>, w: seq<byte>, value: bool, s: seq<byte>) returns (j: nat)
    requires Clean(t) && BareWord(raw, w, value) && Ahead(t, i, raw + s) && Ends(s, PlaceOf(value))
    ensures ScanWord(t, i, value) == Word(w, false, j) && Ahead(t, j, DropBlank(s))
  {
    var k := if raw[0] == w[0] && PlainFirst(w[0], value) && Writes(raw[1..], w[1..], PlaceOf(value)) then 1 else 2;
    assert raw + s == raw[..k] + (raw[k..] + s);
    Consume(t, i, raw[..k], raw[k..] + s);
    assert At(t, i + 0) == raw[0];
    if k == 2 { assert At(t, i + 1) == raw[1]; }
    j := BareRead(t, i + k, raw[k..], w[1..], value, s);
    assert [w[0]] + w[1..] == w;
  }

  lemma QuotationRead(t: seq<byte>, i: nat, raw: seq<byte>, w: seq<byte>, value: bool, s: seq<byte>) returns (j: nat)
    requires InQuotation(raw, w) && Ahead(t, i, raw + s)
    ensures ScanWord(t, i, value) == Word(w, true, j) && Ahead(t, j, s)
  {
    var inner: seq<byte> :| Writes(inner, w, Quotes) && raw == [QUOTE] + inner + [QUOTE];
    assert raw + s == [QUOTE] + (inner + ([QUOTE] + s));
    Consume(t, i, [QUOTE], inner + ([QUOTE] + s));
    assert At(t, i + 0) == QUOTE;
    j := WritesRead(t, i + 1, inner, w, s);
  }

  /** What follows a word and its blanks: an arrow or a comma, or the end. */
  ghost predicate Closes(rest: seq<byte>, value: bool) {
    rest == [] || rest[0] == if value then COMMA else EQUALS
  }

  lemma DropBlankRest(f: seq<byte>, rest: seq<byte>, value: bool)
    requires Blank(f) && Closes(rest, value)
    ensures Ends(f + rest, PlaceOf(value))
    ensures var e := if f == [] then [] else f[1..]; Blank(e) && DropBlank(f + rest) == e + rest
  {
    if f == [] {
      assert f + rest == rest && [] + rest == rest;
    } else {
      assert (f + rest)[0] == f[0] && (f + rest)[1..] == f[1..] + rest;
    }
  }

  lemma WordParts(s: seq<byte>, w: seq<byte>, quoted: bool, value: bool, rest: seq<byte>) returns (b: seq<byte>, raw: seq<byte>, f: seq<byte>)
    requires WordThen(s, w, quoted, value, rest)
    ensures Blank(b) && WordOf(raw, w, quoted, value) && Blank(f) && s == b + (raw + (f + rest))
  {
    b, raw, f :| Blank(b) && WordOf(raw, w, quoted, value) && Blank(f) && s == b + raw + (f + rest);
    Regroup(b, raw, f + rest);
  }

  /** A word is read up to some of the blanks behind it. */
  lemma WordRead(t: seq<byte>, i: nat, w: seq<byte>, quoted: bool, value: bool, rest: seq<byte>) returns (j: nat, e: seq<byte>)
    requires Clean(t) && i <= |t| && WordThen(t[i..], w, quoted, value, rest) && Closes(rest, value)
    ensures ScanWord(t, i, value) == Word(w, quoted, j) && |w| <= MAXLEN && Blank(e) && Ahead(t, j, e + rest)
  {
    var b, raw, f := WordParts(t[i..], w, quoted, value, rest);
    SkipBlanks(t, i, b, value, raw + (f + rest));
    j, e := RawRead(t, i + |b|, raw, w, quoted, value, f, rest);
  }

  lemma RawRead(t: seq<byte>, i: nat, raw: seq<byte>, w: seq<byte>, quoted: bool, value: bool, f: seq<byte>, rest: seq<byte>)
    returns (j: nat, e: seq<byte>)
    requires Clean(t) && WordOf(raw, w, quoted, value) && Blank(f) && Ahead(t, i, raw + (f + rest)) && Closes(rest, value)
    ensures ScanWord(t, i, value) == Word(w, quoted, j) && |w| <= MAXLEN && Blank(e) && Ahead(t, j, e + rest)
  {
    if quoted {
      j := QuotationRead(t, i, raw, w, value, f + rest);
      e := f;
    } else {
      DropBlankRest(f, rest, value);
      j := BareWordRead(t, i, raw, w, value, f + rest);
      e := if f == [] then [] else f[1..];
    }
  }

  /** A blank in front. */
  lemma BlankAhead(t: seq<byte>, i: nat, e: seq<byte>, s: seq<byte>)
    requires Blank(e) && e != [] && Ahead(t, i, e + s)
    ensures IsSpace(At(t, i)) && Blank(e[1..]) && Ahead(t, i + 1, e[1..] + s)
  {
    assert e + s == [e[0]] + (e[1..] + s);
    Consume(t, i, [e[0]], e[1..] + s);
    assert At(t, i + 0) == e[0];
  }

  lemma EqualsSkips(t: seq<byte>, i: nat, key: seq<byte>)
    requires IsSpace(At(t, i))
    ensures ReadEquals(t, i, key) == ReadEquals(t, i + 1, key)
  {}

  lemma CommaSkips(t: seq<byte>, i: nat)
    requires IsSpace(At(t, i))
    ensures ReadComma(t, i) == ReadComma(t, i + 1)
  {}

  lemma ArrowAtOnce(t: seq<byte>, i: nat, key: seq<byte>, after: seq<byte>)
    requires Ahead(t, i, ARROW + after)
    ensures ReadEquals(t, i, key) == ReadValue(t, i + 2, key) && Ahead(t, i + 2, after)
  {
    Consume(t, i, ARROW, after);
    assert At(t, i + 0) == EQUALS && At(t, i + 1) == GREATER;
    ArrowStep(t, i, key);
  }

  lemma {:induction false} ArrowRead(t: seq<byte>, i: nat, e: seq<byte>, key: seq<byte>, after: seq<byte>)
    requires Blank(e) && Ahead(t, i, e + (ARROW + after))
    ensures ReadEquals(t, i, key) == ReadValue(t, i + |e| + 2, key) && Ahead(t, i + |e| + 2, after)
    decreases |e|
  {
    if e == [] {
      assert e + (ARROW + after) == ARROW + after;
      ArrowAtOnce(t, i, key, after);
    } else {
      BlankAhead(t, i, e, ARROW + after);
      EqualsSkips(t, i, key);
      ArrowRead(t, i + 1, e[1..], key, after);
    }
  }

  lemma CommaAtOnce(t: seq<byte>, i: nat, rest: seq<byte>)
    requires Ahead(t, i, rest) && (rest == [] || rest[0] == COMMA)
    ensures rest == [] ==> ReadComma(t, i) == Pairs([])
    ensures rest != [] ==> ReadComma(t, i) == ReadPairs(t, i + 1) && Ahead(t, i + 1, rest[1..])
  {
    if rest != [] {
      assert rest == [rest[0]] + rest[1..];
      Consume(t, i, [rest[0]], rest[1..]);
      assert At(t, i + 0) == COMMA;
    }
  }

  lemma {:induction false} CommaRead(t: seq<byte>, i: nat, e: seq<byte>, rest: seq<byte>)
    requires Blank(e) && Ahead(t, i, e + rest) && (rest == [] || rest[0] == COMMA)
    ensures rest == [] ==> ReadComma(t, i) == Pairs([])
    ensures rest != [] ==> ReadComma(t, i) == ReadPairs(t, i + |e| + 1) && Ahead(t, i + |e| + 1, rest[1..])
    decreases |e|
  {
    if e == [] {
      assert e + rest == rest;
      CommaAtOnce(t, i, rest);
    } else {
      BlankAhead(t, i, e, rest);
      CommaSkips(t, i);
      CommaRead(t, i + 1, e[1..], rest);
    }
  }

  lemma PairParts(s: seq<byte>, p: InPair, rest: seq<byte>) returns (kq: bool, vq: bool, after: seq<byte>)
    requires PairThen(s, p, rest)
    ensures WordThen(s, p.key, kq, false, ARROW + after) && WordThen(after, p.val, vq, true, rest) && p == MakePair(p.key, p.val, vq)
  {
    kq, vq, after :| WordThen(s, p.key, kq, false, ARROW + after) && WordThen(after, p.val, vq, true, rest) && StandsFor(p, vq);
    MadeIffStands(p, vq);
  }

  lemma KeyRead(t: seq<byte>, i: nat, key: seq<byte>, kq: bool, after: seq<byte>) returns (j: nat)
    requires Clean(t) && i <= |t| && WordThen(t[i..], key, kq, false, ARROW + after)
    ensures ReadPairs(t, i) == ReadValue(t, j, key) && Ahead(t, j, after)
  {
    var n, f := WordRead(t, i, key, kq, false, ARROW + after);
    KeyPart(t, i, key, kq, n);
    ArrowRead(t, n, f, key, after);
    j := n + |f| + 2;
  }

  lemma PairRead(t: seq<byte>, i: nat, p: InPair, rest: seq<byte>) returns (j: nat, e: seq<byte>)
    requires Clean(t) && i <= |t| && PairThen(t[i..], p, rest) && (rest == [] || rest[0] == COMMA)
    ensures ReadPairs(t, i) == Before([p], ReadComma(t, j)) && Blank(e) && Ahead(t, j, e + rest)
  {
    var kq, vq, after := PairParts(t[i..], p, rest);
    var n := KeyRead(t, i, p.key, kq, after);
    j, e := WordRead(t, n, p.val, vq, true, rest);
    ValuePart(t, n, p, vq, j);
  }

  lemma KeyPart(t: seq<byte>, i: nat, key: seq<byte>, quoted: bool, n: nat)
    requires ScanWord(t, i, false) == Word(key, quoted, n) && |key| <= MAXLEN
    ensures ReadPairs(t, i) == ReadEquals(t, n, key)
  {}

  lemma ValuePart(t: seq<byte>, i: nat, p: InPair, quoted: bool, n: nat)
    requires ScanWord(t, i, true) == Word(p.val, quoted, n) && |p.val| <= MAXLEN && p == MakePair(p.key, p.val, quoted)
    ensures ReadValue(t, i, p.key) == Before([p], ReadComma(t, n))
  {}

  lemma BlanksRead(t: seq<byte>, i: nat)
    requires i <= |t| && Blank(t[i..])
    ensures ReadPairs(t, i) == Pairs([])
  {
    assert t[i..] == t[i..] + [];
    SkipBlanks(t, i, t[i..], false, []);
    assert ScanWord(t, |t|, false) == NoWord;
  }

  lemma ListParts(s: seq<byte>, ps: seq<InPair>) returns (rest: seq<byte>)
    requires ps != [] && Lists(s, ps)
    ensures PairThen(s, ps[0], rest) && (rest == [] ==> |ps| == 1)
    ensures rest != [] ==> rest[0] == COMMA && Lists(rest[1..], ps[1..])
  {
    rest :| PairThen(s, ps[0], rest) && RestLists(rest, ps[1..]);
  }

  lemma ListStep(t: seq<byte>, i: nat, p: InPair, rest: seq<byte>) returns (n: nat)
    requires Clean(t) && i <= |t| && PairThen(t[i..], p, rest) && (rest == [] || rest[0] == COMMA)
    ensures rest == [] ==> ReadPairs(t, i) == Pairs([p])
    ensures rest != [] ==> ReadPairs(t, i) == Before([p], ReadPairs(t, n)) && Ahead(t, n, rest[1..])
  {
    var j, e := PairRead(t, i, p, rest);
    CommaRead(t, j, e, rest);
    n := j + |e| + 1;
    assert [p] + [] == [p];
  }

  /** The first pair is read, and the rest of the list is ahead. */
  lemma FirstIsRead(t: seq<byte>, i: nat, ps: seq<InPair>) returns (more: bool, n: nat)
    requires Clean(t) && i <= |t| && ps != [] && Lists(t[i..], ps)
    ensures !more ==> ReadPairs(t, i) == Pairs(ps)
    ensures more ==> n <= |t| && Lists(t[n..], ps[1..]) && ReadPairs(t, i) == Before([ps[0]], ReadPairs(t, n))
  {
    var rest := ListParts(t[i..], ps);
    n := ListStep(t, i, ps[0], rest);
    more := rest != [];
    assert !more ==> [ps[0]] == ps;
  }

  lemma {:induction false} ListsAreRead(t: seq<byte>, i: nat, ps: seq<InPair>)
    requires Clean(t) && i <= |t| && Lists(t[i..], ps)
    ensures ReadPairs(t, i) == Pairs(ps)
    decreases |ps|
  {
    if ps == [] {
      BlanksRead(t, i);
    } else {
      var more, n := FirstIsRead(t, i, ps);
      if more {
        ListsAreRead(t, n, ps[1..]);
        assert [ps[0]] + ps[1..] == ps;
      }
    }
  }

  // ----- What is read is a sentence -----

  lemma WritesMore(c: byte, raw: seq<byte>, w: seq<byte>, p: Place)
    requires Writes(raw, w, p)
    ensures PlainIn(p, c) ==> Writes([c] + raw, [c] + w, p)
    ensures c != 0 ==> Writes([BACKSLASH, c] + raw, [c] + w, p)
  {
    assert ([c] + w)[1..] == w && ([c] + raw)[1..] == raw && ([BACKSLASH, c] + raw)[2..] == raw;
  }

  lemma {:induction false} QuotedWrites(t: seq<byte>, i: nat) returns (inner: seq<byte>)
    requires Clean(t) && i <= |t| && Quoted(t, i).Word?
    ensures var s := Quoted(t, i); Writes(inner, s.word, Quotes) && t[i..] == inner + [QUOTE] + t[s.next..]
    decreases |t| - i
  {
    var c := At(t, i);
    assert t[i..] == [c] + t[i+1..];
    if c == QUOTE {
      inner := [];
    } else if c == BACKSLASH {
      assert t[i+1..] == [t[i+1]] + t[i+2..];
      var more := QuotedWrites(t, i + 2);
      inner := [BACKSLASH, t[i+1]] + more;
      WritesMore(t[i+1], more, Quoted(t, i + 2).word, Quotes);
    } else {
      var more := QuotedWrites(t, i + 1);
      inner := [c] + more;
      WritesMore(c, more, Quoted(t, i + 1).word, Quotes);
    }
  }

  /** What a bare word and the blank that ends it take of the text. */
  ghost predicate Taken(t: seq<byte>, i: nat, raw: seq<byte>, e: seq<byte>, s: Scan, p: Place) {
    s.Word? && i <= |t| && s.next <= |t| && Writes(raw, s.word, p) && Blank(e) && t[i..] == raw + e + t[s.next..] && !s.quoted
  }

  lemma TakenPlain(t: seq<byte>, i: nat, raw: seq<byte>, e: seq<byte>, s: Scan, p: Place)
    requires i < |t| && Taken(t, i + 1, raw, e, s, p) && PlainIn(p, t[i])
    ensures Taken(t, i, [t[i]] + raw, e, Prepend([t[i]], s), p)
  {
    assert t[i..] == [t[i]] + t[i+1..];
    WritesMore(t[i], raw, s.word, p);
  }

  lemma TakenEscaped(t: seq<byte>, i: nat, raw: seq<byte>, e: seq<byte>, s: Scan, p: Place)
    requires i + 1 < |t| && Taken(t, i + 2, raw, e, s, p) && t[i] == BACKSLASH && t[i+1] != 0
    ensures Taken(t, i, [BACKSLASH, t[i+1]] + raw, e, Prepend([t[i+1]], s), p)
  {
    assert t[i..] == [t[i], t[i+1]] + t[i+2..];
    WritesMore(t[i+1], raw, s.word, p);
  }

  lemma {:induction false} BareWrites(t: seq<byte>, i: nat, value: bool) returns (raw: seq<byte>, e: seq<byte>)
    requires Clean(t) && i <= |t| && Bare(t, i, value).Word?
    ensures Taken(t, i, raw, e, Bare(t, i, value), PlaceOf(value))
    decreases |t| - i
  {
    var c := At(t, i);
    raw, e := [], [];
    if c == 0 || (c == EQUALS && !value) || (c == COMMA && value) {
      assert t[i..] == [] + [] + t[i..];
    } else if c == BACKSLASH {
      var more;
      more, e := BareWrites(t, i + 2, value);
      raw := [BACKSLASH, t[i+1]] + more;
      TakenEscaped(t, i, more, e, Bare(t, i + 2, value), PlaceOf(value));
    } else if IsSpace(c) {
      e := [c];
      assert t[i..] == [] + [c] + t[i+1..];
    } else {
      var more;
      more, e := BareWrites(t, i + 1, value);
      raw := [c] + more;
      TakenPlain(t, i, more, e, Bare(t, i + 1, value), PlaceOf(value));
    }
  }

  /** A word that was read, with the blanks around it. */
  ghost predicate TakenWord(t: seq<byte>, i: nat, b: seq<byte>, raw: seq<byte>, e: seq<byte>, s: Scan, value: bool) {
    && s.Word? && i <= |t| && s.next <= |t| && Blank(b) && Blank(e) && t[i..] == b + raw + e + t[s.next..]
    && if s.quoted then InQuotation(raw, s.word) else BareWord(raw, s.word, value)
  }

  lemma QuotationTaken(t: seq<byte>, i: nat, value: bool) returns (raw: seq<byte>)
    requires Clean(t) && i < |t| && t[i] == QUOTE && Quoted(t, i + 1).Word?
    ensures TakenWord(t, i, [], raw, [], Quoted(t, i + 1), value)
  {
    var s := Quoted(t, i + 1);
    var inner := QuotedWrites(t, i + 1);
    QuotedIsQuoted(t, i + 1);
    raw := [QUOTE] + inner + [QUOTE];
    assert t[i..] == [QUOTE] + t[i+1..];
    assert t[i..] == [] + raw + [] + t[s.next..];
  }

  lemma {:induction false} QuotedIsQuoted(t: seq<byte>, i: nat)
    ensures Quoted(t, i).Word? ==> Quoted(t, i).quoted
    decreases |t| - i
  {
    if i < |t| { QuotedIsQuoted(t, i + 1); }
    if i + 1 < |t| { QuotedIsQuoted(t, i + 2); }
  }

  lemma BareTakenPlain(t: seq<byte>, i: nat, raw: seq<byte>, e: seq<byte>, s: Scan, value: bool)
    requires i < |t| && Taken(t, i + 1, raw, e, s, PlaceOf(value)) && PlainFirst(t[i], value)
    ensures TakenWord(t, i, [], [t[i]] + raw, e, Prepend([t[i]], s), value)
  {
    assert t[i..] == [t[i]] + t[i+1..];
    assert t[i..] == [] + ([t[i]] + raw) + e + t[s.next..];
    assert ([t[i]] + raw)[1..] == raw && ([t[i]] + s.word)[1..] == s.word;
  }

  lemma BareTakenEscaped(t: seq<byte>, i: nat, raw: seq<byte>, e: seq<byte>, s: Scan, value: bool)
    requires i + 1 < |t| && Taken(t, i + 2, raw, e, s, PlaceOf(value)) && t[i] == BACKSLASH && t[i+1] != 0
    ensures TakenWord(t, i, [], [BACKSLASH, t[i+1]] + raw, e, Prepend([t[i+1]], s), value)
  {
    assert t[i..] == [t[i], t[i+1]] + t[i+2..];
    assert t[i..] == [] + ([BACKSLASH, t[i+1]] + raw) + e + t[s.next..];
    assert ([BACKSLASH, t[i+1]] + raw)[2..] == raw && ([t[i+1]] + s.word)[1..] == s.word;
  }

  lemma TakenBlank(t: seq<byte>, i: nat, b: seq<byte>, raw: seq<byte>, e: seq<byte>, s: Scan, value: bool)
    requires i < |t| && IsSpace(t[i]) && TakenWord(t, i + 1, b, raw, e, s, value)
    ensures TakenWord(t, i, [t[i]] + b, raw, e, s, value)
  {
    assert t[i..] == [t[i]] + t[i+1..];
    assert t[i..] == ([t[i]] + b) + raw + e + t[s.next..];
  }

  lemma {:induction false} WordTaken(t: seq<byte>, i: nat, value: bool) returns (b: seq<byte>, raw: seq<byte>, e: seq<byte>)
    requires Clean(t) && i <= |t| && ScanWord(t, i, value).Word?
    ensures TakenWord(t, i, b, raw, e, ScanWord(t, i, value), value)
    decreases |t| - i
  {
    var c := At(t, i);
    b, raw, e := [], [], [];
    if c == QUOTE {
      raw := QuotationTaken(t, i, value);
    } else if c == BACKSLASH {
      var more;
      more, e := BareWrites(t, i + 2, value);
      raw := [BACKSLASH, t[i+1]] + more;
      BareTakenEscaped(t, i, more, e, Bare(t, i + 2, value), value);
    } else if IsSpace(c) {
      var more;
      more, raw, e := WordTaken(t, i + 1, value);
      b := [c] + more;
      TakenBlank(t, i, more, raw, e, ScanWord(t, i + 1, value), value);
    } else {
      var more;
      more, e := BareWrites(t, i + 1, value);
      raw := [c] + more;
      BareTakenPlain(t, i, more, e, Bare(t, i + 1, value), value);
    }
  }

  lemma {:induction false} NoWordIsBlank(t: seq<byte>, i: nat, value: bool)
    requires Clean(t) && i <= |t| && ScanWord(t, i, value) == NoWord
    ensures Blank(t[i..])
    decreases |t| - i
  {
    if i < |t| {
      WordOrBlank(t, i, value);
      NoWordIsBlank(t, i + 1, value);
      assert t[i..] == [t[i]] + t[i+1..];
    }
  }

  lemma {:induction false} BareIsWord(t: seq<byte>, i: nat, value: bool)
    ensures Bare(t, i, value) != NoWord
    decreases |t| - i
  {
    if i < |t| { BareIsWord(t, i + 1, value); }
    if i + 1 < |t| { BareIsWord(t, i + 2, value); }
  }

  lemma {:induction false} QuotedIsWord(t: seq<byte>, i: nat)
    ensures Quoted(t, i) != NoWord
    decreases |t| - i
  {
    if i < |t| { QuotedIsWord(t, i + 1); }
    if i + 1 < |t| { QuotedIsWord(t, i + 2); }
  }

  lemma WordOrBlank(t: seq<byte>, i: nat, value: bool)
    requires Clean(t) && i < |t| && ScanWord(t, i, value) == NoWord
    ensures IsSpace(t[i]) && ScanWord(t, i + 1, value) == NoWord
  {
    QuotedIsWord(t, i + 1);
    BareIsWord(t, i + 1, value);
    BareIsWord(t, i + 2, value);
  }

  lemma MoreBlank(t: seq<byte>, i: nat, b: seq<byte>, s: seq<byte>)
    requires i < |t| && IsSpace(t[i]) && Blank(b) && t[i+1..] == b + s
    ensures Blank([t[i]] + b) && t[i..] == ([t[i]] + b) + s
  {
    assert t[i..] == [t[i]] + t[i+1..];
  }

  lemma {:induction false} EqualsTaken(t: seq<byte>, i: nat, key: seq<byte>) returns (b: seq<byte>, m: nat)
    requires Clean(t) && i <= |t| && ReadEquals(t, i, key).Pairs?
    ensures m <= |t| && Blank(b) && t[i..] == b + (ARROW + t[m..]) && ReadEquals(t, i, key) == ReadValue(t, m, key) && i < m
    decreases |t| - i
  {
    if At(t, i) == EQUALS {
      b, m := [], i + 2;
      assert ReadEquals(t, i, key) == ReadGreater(t, i + 1, key);
      assert At(t, i + 1) == GREATER;
      assert t[i..] == [t[i], t[i+1]] + t[i+2..];
    } else {
      EqualsSkips(t, i, key);
      var more;
      more, m := EqualsTaken(t, i + 1, key);
      b := [t[i]] + more;
      MoreBlank(t, i, more, ARROW + t[m..]);
    }
  }

  lemma {:induction false} CommaTaken(t: seq<byte>, i: nat) returns (b: seq<byte>, m: nat)
    requires Clean(t) && i <= |t| && ReadComma(t, i).Pairs?
    ensures i <= m <= |t| && Blank(b) && t[i..] == b + t[m..]
    ensures m == |t| ==> ReadComma(t, i) == Pairs([])
    ensures m < |t| ==> t[m] == COMMA && ReadComma(t, i) == ReadPairs(t, m + 1)
    decreases |t| - i
  {
    if i == |t| || t[i] == COMMA {
      b, m := [], i;
    } else {
      CommaSkips(t, i);
      var more;
      more, m := CommaTaken(t, i + 1);
      b := [t[i]] + more;
      MoreBlank(t, i, more, t[m..]);
    }
  }

  lemma BlankConcat(a: seq<byte>, b: seq<byte>)
    requires Blank(a) && Blank(b)
    ensures Blank(a + b)
  {}

  /** A word that was taken, and the blanks that were skipped after it. */
  lemma TakenThen(t: seq<byte>, i: nat, value: bool, b: seq<byte>, rest: seq<byte>)
    requires Clean(t) && i <= |t| && ScanWord(t, i, value).Word? && |ScanWord(t, i, value).word| <= MAXLEN
    requires Blank(b) && t[ScanWord(t, i, value).next..] == b + rest
    ensures var s := ScanWord(t, i, value); WordThen(t[i..], s.word, s.quoted, value, rest)
  {
    var s := ScanWord(t, i, value);
    var c, raw, e := WordTaken(t, i, value);
    BlankConcat(e, b);
    TakenText(c, raw, e, b, rest);
    assert WordOf(raw, s.word, s.quoted, value);
    assert t[i..] == c + raw + ((e + b) + rest);
  }

  lemma TakenText(c: seq<byte>, raw: seq<byte>, e: seq<byte>, b: seq<byte>, rest: seq<byte>)
    ensures c + raw + e + (b + rest) == c + raw + ((e + b) + rest)
  {}

  /** The parts of a list that was read. */
  lemma ReadParts(t: seq<byte>, i: nat) returns (k: Scan, m: nat, v: Scan, q: nat, b: seq<byte>)
    requires Clean(t) && i <= |t| && ReadPairs(t, i).Pairs? && ScanWord(t, i, false).Word?
    ensures k == ScanWord(t, i, false) && i < m <= |t| && WordThen(t[i..], k.word, k.quoted, false, ARROW + t[m..])
    ensures v == ScanWord(t, m, true) && v.Word? && m < q + 1 <= |t| + 1 && WordThen(t[m..], v.word, v.quoted, true, t[q..])
    ensures ReadPairs(t, i) == Before([MakePair(k.word, v.word, v.quoted)], ReadComma(t, v.next))
    ensures Blank(b) && t[v.next..] == b + t[q..] && ReadComma(t, v.next).Pairs?
    ensures q == |t| ==> ReadComma(t, v.next) == Pairs([])
    ensures q < |t| ==> t[q] == COMMA && ReadComma(t, v.next) == ReadPairs(t, q + 1)
  {
    k := ScanWord(t, i, false);
    var c;
    c, m := EqualsTaken(t, k.next, k.word);
    TakenThen(t, i, false, c, ARROW + t[m..]);
    v := ScanWord(t, m, true);
    b, q := CommaTaken(t, v.next);
    TakenThen(t, m, true, b, t[q..]);
  }

  lemma PairIsListed(s: seq<byte>, key: seq<byte>, kq: bool, after: seq<byte>, val: seq<byte>, vq: bool, rest: seq<byte>)
    requires WordThen(s, key, kq, false, ARROW + after) && WordThen(after, val, vq, true, rest)
    ensures PairThen(s, MakePair(key, val, vq), rest)
  {
    MadeIffStands(MakePair(key, val, vq), vq);
  }

  lemma ListIsListed(s: seq<byte>, p: InPair, rest: seq<byte>, qs: seq<InPair>)
    requires PairThen(s, p, rest) && RestLists(rest, qs)
    ensures Lists(s, [p] + qs)
  {
    assert ([p] + qs)[0] == p && ([p] + qs)[1..] == qs;
  }

  /** The first pair of a list that was read, and what is read behind it. */
  lemma FirstPair(t: seq<byte>, i: nat) returns (p: InPair, q: nat, r: Parsed)
    requires Clean(t) && i <= |t| && ReadPairs(t, i).Pairs? && ScanWord(t, i, false).Word?
    ensures i < q <= |t| && PairThen(t[i..], p, t[q..]) && r.Pairs? && ReadPairs(t, i) == Pairs([p] + r.ps)
    ensures q == |t| ==> r == Pairs([])
    ensures q < |t| ==> t[q] == COMMA && r == ReadPairs(t, q + 1)
  {
    var k, m, v, n, b := ReadParts(t, i);
    PairIsListed(t[i..], k.word, k.quoted, t[m..], v.word, v.quoted, t[n..]);
    p, q, r := MakePair(k.word, v.word, v.quoted), n, ReadComma(t, v.next);
  }

  lemma RestIsListed(t: seq<byte>, q: nat, qs: seq<InPair>)
    requires q <= |t| && (q == |t| ==> qs == []) && (q < |t| ==> t[q] == COMMA && Lists(t[q+1..], qs))
    ensures RestLists(t[q..], qs)
  {
    if q < |t| { assert t[q..][1..] == t[q+1..]; }
  }

  lemma {:induction false} ReadIsListed(t: seq<byte>, i: nat, ps: seq<InPair>)
    requires Clean(t) && i <= |t| && ReadPairs(t, i) == Pairs(ps)
    ensures Lists(t[i..], ps)
    decreases |t| - i
  {
    if ScanWord(t, i, false) == NoWord {
      NoWordIsBlank(t, i, false);
    } else {
      var p, q, r := FirstPair(t, i);
      if q < |t| { ReadIsListed(t, q + 1, r.ps); }
      RestIsListed(t, q, r.ps);
      ListIsListed(t[i..], p, t[q..], r.ps);
    }
  }

  /** `parse_hstore` accepts a text, with these pairs, if and only if the grammar derives it with these pairs. */
  lemma AcceptedIffListed(t: seq<byte>, ps: seq<InPair>)
    requires Clean(t)
    ensures ReadPairs(t, 0) == Pairs(ps) <==> Lists(t, ps)
  {
    assert t[0..] == t;
    if ReadPairs(t, 0) == Pairs(ps) { ReadIsListed(t, 0, ps); }
    if Lists(t, ps) { ListsAreRead(t, 0, ps); }
  }

  /** Whatever is not derived is refused. */
  lemma RefusedIffUnlisted(t: seq<byte>)
    requires Clean(t)
    ensures ReadPairs(t, 0).ParseError? <==> forall ps :: !Lists(t, ps)
  {
    forall ps ensures ReadPairs(t, 0) == Pairs(ps) <==> Lists(t, ps) { AcceptedIffListed(t, ps); }
    var r := ReadPairs(t, 0);
    if r.Pairs? { assert Lists(t, r.ps); }
  }

  /** A text has one list of pairs. */
  lemma ListUnique(t: seq<byte>, ps: seq<InPair>, qs: seq<InPair>)
    requires Clean(t) && Lists(t, ps) && Lists(t, qs)
    ensures ps == qs
  {
    AcceptedIffListed(t, ps);
    AcceptedIffListed(t, qs);
  }

  // ----- A single pair -----

  lemma SingleBuilt(hs: HStore, p: InPair)
    requires BuiltFrom(hs, [p])
    ensures Meaning(hs) == map[p.key := if p.isnull then Null else Text(p.val)]
  {
    var ps := Decode(hs);
    assert Contents([p]) == [Content(p)];
    assert [p][0].key in Meaning(hs);
    forall i | 0 <= i < |ps| ensures ps[i] == Content(p) {}
    KeyCmpOrder(p.key, p.key);
    assert |ps| <= 1 by { assert |ps| > 1 ==> KeyCmp(ps[0].key, ps[1].key) < 0; }
    MapKeys(ps, p.key);
    assert ps == [Content(p)];
    MapAt(ps, 0);
    forall k | k in MapOf(ps) ensures k == p.key { MapKeys(ps, k); }
  }

  lemma WordAlone(s: seq<byte>, raw: seq<byte>, w: seq<byte>, quoted: bool, value: bool, rest: seq<byte>)
    requires WordOf(raw, w, quoted, value) && s == raw + rest
    ensures WordThen(s, w, quoted, value, rest)
  {
    var none: seq<byte> := [];
    assert Blank(none) && s == none + raw + (none + rest);
  }

  /** What input makes of a text of one pair: a value that stands bare and spells null, in capitals or not, is
      null, and every other value is the word. */
  lemma PairIn(t: seq<byte>, rawkey: seq<byte>, key: seq<byte>, kq: bool, rawval: seq<byte>, val: seq<byte>, vq: bool, hs: HStore)
    requires Clean(t) && WordOf(rawkey, key, kq, false) && WordOf(rawval, val, vq, true) && t == rawkey + (ARROW + rawval)
    ensures ReadPairs(t, 0).Pairs?
    ensures BuiltFrom(hs, ReadPairs(t, 0).ps) ==>
      Meaning(hs) == map[key := if !vq && Lower(val) == NULLWORD then Null else Text(val)]
  {
    var p := InPair(key, val, !vq && Lower(val) == NULLWORD, true);
    WordAlone(t, rawkey, key, kq, false, ARROW + rawval);
    assert rawval + [] == rawval;
    WordAlone(rawval, rawval, val, vq, true, []);
    assert PairThen(t, p, []);
    ListIsListed(t, p, [], []);
    assert [p] + [] == [p];
    AcceptedIffListed(t, [p]);
    if BuiltFrom(hs, ReadPairs(t, 0).ps) { SingleBuilt(hs, p); }
  }

  lemma {:induction false} PlainWrites(w: seq<byte>, p: Place)
    requires forall i :: 0 <= i < |w| ==> PlainIn(p, w[i])
    ensures Writes(w, w, p)
    decreases |w|
  {
    if w != [] { PlainWrites(w[1..], p); }
  }

  /** The text aa=>null means a null. */
  lemma SmallNullIn(t: seq<byte>, hs: HStore)
    requires t == [97, 97, 61, 62, 110, 117, 108, 108]
    ensures ReadPairs(t, 0).Pairs? && (BuiltFrom(hs, ReadPairs(t, 0).ps) ==> Meaning(hs) == map[[97, 97] := Null])
  {
    var key: seq<byte> := [97, 97];
    PlainWrites(key[1..], KeyPlace);
    PlainWrites(NULLWORD[1..], ValuePlace);
    assert t == key + (ARROW + NULLWORD);
    PairIn(t, key, key, false, NULLWORD, NULLWORD, false, hs);
    assert Lower(NULLWORD) == NULLWORD;
  }
}
