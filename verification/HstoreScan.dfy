/** Reading hstore text: the state machines of `get_val` and `parse_hstore` against a recursive-descent reading. */
module HstoreScan {
  import opened Bytes
  import opened HstorePairs

  const QUOTE: byte := 34
  const COMMA: byte := 44
  const EQUALS: byte := 61
  const GREATER: byte := 62
  const BACKSLASH: byte := 92

  /** The byte at a position of a C string: 0 at and behind its end. */
  function At(t: seq<byte>, i: nat): byte {
    if i < |t| then t[i] else 0
  }

  /** `isspace` in the C locale. */
  predicate IsSpace(c: byte) {
    c == 32 || 9 <= c <= 13
  }

  /** The letters that the parser looks for, and the blanks: tab, line feed, vertical tab, form feed, carriage
      return and space. */
  lemma Letters(c: byte)
    ensures [QUOTE, COMMA, EQUALS, GREATER, BACKSLASH] == ['"' as int, ',' as int, '=' as int, '>' as int, '\\' as int]
    ensures IsSpace(c) <==> c in {9, 10, 11, 12, 13, 32}
  {}

  datatype Error = UnexpectedEnd | SyntaxError(pos: nat) | TooLong

  // ----- Words -----

  /** A word with the position behind it, the end of the text, or an error. */
  datatype Scan = Word(word: seq<byte>, quoted: bool, next: nat) | NoWord | Failed(error: Error)

  function Prepend(w: seq<byte>, s: Scan): Scan {
    if s.Word? then s.(word := w + s.word) else s
  }

  lemma PrependTwice(v: seq<byte>, w: seq<byte>, s: Scan)
    ensures Prepend(v, Prepend(w, s)) == Prepend(v + w, s)
  {
    if s.Word? { assert v + (w + s.word) == (v + w) + s.word; }
  }

  /** After a backslash the next byte is taken as it is. */
  function Escaped(t: seq<byte>, i: nat, rest: Scan): Scan {
    if At(t, i) == 0 then Failed(UnexpectedEnd) else Prepend([At(t, i)], rest)
  }

  /** Inside quotes. */
  function Quoted(t: seq<byte>, i: nat): (s: Scan)
    ensures s.Word? ==> i < s.next <= |t|
    decreases |t| - i
  {
    var c := At(t, i);
    if c == 0 then Failed(UnexpectedEnd)
    else if c == BACKSLASH then Escaped(t, i + 1, if i + 1 < |t| then Quoted(t, i + 2) else NoWord)
    else if c == QUOTE then Word([], true, i + 1)
    else Prepend([c], Quoted(t, i + 1))
  }

  /** Inside a word without quotes: a key ends at `=`, a value at a comma, both at a space or the end. */
  function Bare(t: seq<byte>, i: nat, value: bool): (s: Scan)
    ensures s.Word? && i <= |t| ==> i <= s.next <= |t|
    decreases |t| - i
  {
    var c := At(t, i);
    if c == 0 then Word([], false, i)
    else if c == BACKSLASH then Escaped(t, i + 1, if i + 1 < |t| then Bare(t, i + 2, value) else NoWord)
    else if (c == EQUALS && !value) || (c == COMMA && value) then Word([], false, i)
    else if IsSpace(c) then Word([], false, i + 1)
    else Prepend([c], Bare(t, i + 1, value))
  }

  /** A key or a value, after spaces. */
  function ScanWord(t: seq<byte>, i: nat, value: bool): (s: Scan)
    ensures s.Word? ==> i < s.next <= |t|
    decreases |t| - i
  {
    var c := At(t, i);
    if c == 0 then NoWord
    else if c == QUOTE then Quoted(t, i + 1)
    else if c == EQUALS && !value then Failed(SyntaxError(i))
    else if c == BACKSLASH then Escaped(t, i + 1, if i + 1 < |t| then Bare(t, i + 2, value) else NoWord)
    else if IsSpace(c) then ScanWord(t, i + 1, value)
    else Prepend([c], Bare(t, i + 1, value))
  }

  datatype WordState = WaitVal | InVal | InEscVal | WaitEscIn | WaitEscEscIn

  /** What is read from a state of `get_val` on. */
  function FromState(st: WordState, t: seq<byte>, i: nat, value: bool): Scan {
    match st
    case WaitVal => ScanWord(t, i, value)
    case InVal => Bare(t, i, value)
    case InEscVal => Quoted(t, i)
    case WaitEscIn => Escaped(t, i, if i < |t| then Bare(t, i + 1, value) else NoWord)
    case WaitEscEscIn => Escaped(t, i, if i < |t| then Quoted(t, i + 1) else NoWord)
  }

  // ----- Pairs -----

  const MAXLEN := 0x3fff_ffff

  datatype Parsed = Pairs(ps: seq<InPair>) | ParseError(error: Error)

  function Before(ps: seq<InPair>, r: Parsed): Parsed {
    if r.Pairs? then Pairs(ps + r.ps) else r
  }

  /** `pg_strcasecmp` with "null". */
  predicate SpellsNull(w: seq<byte>) {
    |w| == 4 && w[0] in {78, 110} && w[1] in {85, 117} && w[2] in {76, 108} && w[3] in {76, 108}
  }

  /** A value without quotes that spells null is the null value. */
  function MakePair(key: seq<byte>, val: seq<byte>, escaped: bool): InPair {
    InPair(key, val, |val| == 4 && !escaped && SpellsNull(val), true)
  }

  /** A list of pairs from position `i` on. */
  function ReadPairs(t: seq<byte>, i: nat): Parsed
    decreases |t| - i, 4
  {
    match ScanWord(t, i, false)
    case NoWord => Pairs([])
    case Failed(e) => ParseError(e)
    case Word(key, _, n) => if |key| > MAXLEN then ParseError(TooLong) else ReadEquals(t, n, key)
  }

  function ReadEquals(t: seq<byte>, i: nat, key: seq<byte>): Parsed
    decreases |t| - i, 3
  {
    var c := At(t, i);
    if c == EQUALS then ReadGreater(t, i + 1, key)
    else if c == 0 then ParseError(UnexpectedEnd)
    else if IsSpace(c) then ReadEquals(t, i + 1, key)
    else ParseError(SyntaxError(i))
  }

  function ReadGreater(t: seq<byte>, i: nat, key: seq<byte>): Parsed
    decreases |t| - i, 2
  {
    var c := At(t, i);
    if c == GREATER then ReadValue(t, i + 1, key)
    else if c == 0 then ParseError(UnexpectedEnd)
    else ParseError(SyntaxError(i))
  }

  function ReadValue(t: seq<byte>, i: nat, key: seq<byte>): Parsed
    decreases |t| - i, 1
  {
    match ScanWord(t, i, true)
    case NoWord => ParseError(UnexpectedEnd)
    case Failed(e) => ParseError(e)
    case Word(val, quoted, n) =>
      if |val| > MAXLEN then ParseError(TooLong) else Before([MakePair(key, val, quoted)], ReadComma(t, n))
  }

  function ReadComma(t: seq<byte>, i: nat): Parsed
    decreases |t| - i, 0
  {
    var c := At(t, i);
    if c == COMMA then ReadPairs(t, i + 1)
    else if c == 0 then Pairs([])
    else if IsSpace(c) then ReadComma(t, i + 1)
    else ParseError(SyntaxError(i))
  }

  datatype PairState = WKey | WVal | WEq | WGt | WDel

  /** What is read from a state of `parse_hstore` on. */
  function FromPairState(st: PairState, t: seq<byte>, i: nat, key: seq<byte>): Parsed {
    match st
    case WKey => ReadPairs(t, i)
    case WEq => ReadEquals(t, i, key)
    case WGt => ReadGreater(t, i, key)
    case WVal => ReadValue(t, i, key)
    case WDel => ReadComma(t, i)
  }

  lemma BeforeTwice(ps: seq<InPair>, qs: seq<InPair>, r: Parsed)
    ensures Before(ps, Before(qs, r)) == Before(ps + qs, r)
  {
    if r.Pairs? { assert ps + (qs + r.ps) == (ps + qs) + r.ps; }
  }

  // ----- The machines -----

  datatype GetVal = Got(escaped: bool) | NoVal | ValError(error: Error)

  class HSParser {
    const begin: seq<byte>
    /** The position that is being looked at. */
    var ptr: int
    var word: seq<byte>
    var pairs: seq<InPair>

    constructor (text: seq<byte>)
      ensures begin == text && ptr == 0 && pairs == []
    {
      begin := text;
      ptr, word, pairs := 0, [], [];
    }

    /** What has been read of a word and what is still to be read make up the word. */
    ghost predicate InWord(start: nat, value: bool, st: WordState, escaped: bool)
      reads this
    {
      && start <= ptr <= |begin| && Prepend(word, FromState(st, begin, ptr, value)) == ScanWord(begin, start, value)
      && (st == WaitVal ==> word == []) && escaped == (st == InEscVal || st == WaitEscEscIn)
    }

    /** What `get_val` did is what the scan says; it leaves `ptr` one short of where reading goes on. */
    ghost predicate Did(g: GetVal, s: Scan)
      reads this
    {
      match s
      case Word(w, q, n) => g == Got(q) && word == w && ptr + 1 == n
      case NoWord => g == NoVal
      case Failed(e) => g == ValError(e)
    }

    /** `get_val`. */
    method RunGetVal(ignoreeq: bool) returns (g: GetVal)
      requires 0 <= ptr <= |begin|
      modifies this`ptr, this`word
      ensures Did(g, ScanWord(begin, old(ptr), ignoreeq))
    {
      var st := WaitVal;
      var escaped := false;
      ghost var start := ptr;
      word := [];
      while true
        invariant InWord(start, ignoreeq, st, escaped)
        decreases |begin| - ptr
      {
        var c := At(begin, ptr);
        PrependTwice(word, [c], FromState(if st == InEscVal || st == WaitEscEscIn then InEscVal else InVal, begin, ptr + 1, ignoreeq));
        if st == WaitVal {
          if c == QUOTE {
            escaped := true;
            st := InEscVal;
          } else if c == 0 {
            return NoVal;
          } else if c == EQUALS && !ignoreeq {
            return ValError(SyntaxError(ptr));
          } else if c == BACKSLASH {
            st := WaitEscIn;
          } else if !IsSpace(c) {
            word := word + [c];
            st := InVal;
          }
        } else if st == InVal {
          if c == BACKSLASH {
            st := WaitEscIn;
          } else if c == EQUALS && !ignoreeq {
            ptr := ptr - 1;
            return Got(escaped);
          } else if c == COMMA && ignoreeq {
            ptr := ptr - 1;
            return Got(escaped);
          } else if IsSpace(c) {
            return Got(escaped);
          } else if c == 0 {
            ptr := ptr - 1;
            return Got(escaped);
          } else {
            word := word + [c];
          }
        } else if st == InEscVal {
          if c == BACKSLASH {
            st := WaitEscEscIn;
          } else if c == QUOTE {
            return Got(escaped);
          } else if c == 0 {
            return ValError(UnexpectedEnd);
          } else {
            word := word + [c];
          }
        } else if st == WaitEscIn {
          if c == 0 {
            return ValError(UnexpectedEnd);
          }
          word := word + [c];
          st := InVal;
        } else {
          if c == 0 {
            return ValError(UnexpectedEnd);
          }
          word := word + [c];
          st := InEscVal;
        }
        ptr := ptr + 1;
      }
    }

    /** The pairs read and those still to be read make up the list. */
    ghost predicate InPairs(st: PairState, key: seq<byte>)
      reads this
    {
      0 <= ptr <= |begin| && Before(pairs, FromPairState(st, begin, ptr, key)) == ReadPairs(begin, 0)
    }

    /** `parse_hstore`: reads the whole text. */
    method ParseHstore() returns (e: Parsed)
      modifies this
      ensures e == ReadPairs(begin, 0) && (e.Pairs? ==> pairs == e.ps)
    {
      var st := WKey;
      var key: seq<byte> := [];
      pairs, ptr, word := [], 0, [];
      assert InPairs(st, key) by { if ReadPairs(begin, 0).Pairs? { assert [] + ReadPairs(begin, 0).ps == ReadPairs(begin, 0).ps; } }
      while true
        invariant InPairs(st, key)
        decreases |begin| - ptr
      {
        if st == WKey {
          var g := RunGetVal(false);
          if g.NoVal? {
            return Pairs(pairs);
          } else if g.ValError? {
            return ParseError(g.error);
          } else if |word| > MAXLEN {
            return ParseError(TooLong);
          }
          key := word;
          st := WEq;
        } else if st == WEq {
          if At(begin, ptr) == EQUALS {
            st := WGt;
          } else if At(begin, ptr) == 0 {
            return ParseError(UnexpectedEnd);
          } else if !IsSpace(At(begin, ptr)) {
            return ParseError(SyntaxError(ptr));
          }
        } else if st == WGt {
          if At(begin, ptr) == GREATER {
            st := WVal;
          } else if At(begin, ptr) == 0 {
            return ParseError(UnexpectedEnd);
          } else {
            return ParseError(SyntaxError(ptr));
          }
        } else if st == WVal {
          var g := RunGetVal(true);
          if g.NoVal? {
            return ParseError(UnexpectedEnd);
          } else if g.ValError? {
            return ParseError(g.error);
          } else if |word| > MAXLEN {
            return ParseError(TooLong);
          }
          BeforeTwice(pairs, [MakePair(key, word, g.escaped)], ReadComma(begin, ptr + 1));
          pairs := pairs + [MakePair(key, word, g.escaped)];
          st := WDel;
        } else {
          if At(begin, ptr) == COMMA {
            st := WKey;
          } else if At(begin, ptr) == 0 {
            return Pairs(pairs);
          } else if !IsSpace(At(begin, ptr)) {
            return ParseError(SyntaxError(ptr));
          }
        }
        ptr := ptr + 1;
      }
    }
  }
}
