/** Where hstore input fails: a syntax error stands at the first byte with which the text can no longer be continued
    to an accepted one, and an unexpected end means that it can still be continued. */
module HstoreErrors {
  import opened Bytes
  import opened HstorePairs
  import opened HstoreScan
  import opened HstoreText

  /** Both texts begin with the same `n` bytes. */
  ghost predicate Agree(t: seq<byte>, u: seq<byte>, n: nat) {
    n <= |t| && n <= |u| && forall k :: 0 <= k < n ==> t[k] == u[k]
  }

  // ----- What is read depends on the bytes that were looked at -----

  lemma {:induction false} QuotedLocal(t: seq<byte>, u: seq<byte>, i: nat)
    requires Quoted(t, i).Word? && Agree(t, u, Quoted(t, i).next)
    ensures Quoted(u, i) == Quoted(t, i)
    decreases |t| - i
  {
    assert At(u, i) == At(t, i);
    if At(t, i) == BACKSLASH {
      assert i + 1 < |u| && At(u, i + 1) == At(t, i + 1);
      QuotedLocal(t, u, i + 2);
    } else if At(t, i) != QUOTE {
      QuotedLocal(t, u, i + 1);
    }
  }

  /** A word without quotes looks one byte further, unless it took the blank that ends it. */
  lemma {:induction false} BareLocal(t: seq<byte>, u: seq<byte>, i: nat, value: bool)
    requires i <= |t| && Bare(t, i, value).Word? && Bare(t, i, value).next < |t| && Agree(t, u, Bare(t, i, value).next + 1)
    ensures Bare(u, i, value) == Bare(t, i, value)
    decreases |t| - i
  {
    assert At(u, i) == At(t, i);
    var c := At(t, i);
    if c == BACKSLASH {
      assert i + 1 < |u| && At(u, i + 1) == At(t, i + 1);
      BareLocal(t, u, i + 2, value);
    } else if c != 0 && !((c == EQUALS && !value) || (c == COMMA && value)) && !IsSpace(c) {
      BareLocal(t, u, i + 1, value);
    }
  }

  lemma {:induction false} WordLocal(t: seq<byte>, u: seq<byte>, i: nat, value: bool)
    requires i <= |t| && ScanWord(t, i, value).Word? && ScanWord(t, i, value).next < |t|
    requires Agree(t, u, ScanWord(t, i, value).next + 1)
    ensures ScanWord(u, i, value) == ScanWord(t, i, value)
    decreases |t| - i
  {
    assert At(u, i) == At(t, i);
    var c := At(t, i);
    if c == QUOTE {
      QuotedLocal(t, u, i + 1);
    } else if c == BACKSLASH {
      assert i + 1 < |u| && At(u, i + 1) == At(t, i + 1);
      BareLocal(t, u, i + 2, value);
    } else if IsSpace(c) {
      WordLocal(t, u, i + 1, value);
    } else {
      BareLocal(t, u, i + 1, value);
    }
  }

  /** Inside a word only the end of the text is an error. */
  lemma {:induction false} InWordFails(t: seq<byte>, i: nat, value: bool)
    ensures Quoted(t, i).Failed? ==> Quoted(t, i).error == UnexpectedEnd
    ensures Bare(t, i, value).Failed? ==> Bare(t, i, value).error == UnexpectedEnd
    decreases |t| - i
  {
    if i < |t| { InWordFails(t, i + 1, value); }
    if i + 1 < |t| { InWordFails(t, i + 2, value); }
  }

  /** At the beginning of a key an equals sign is an error. */
  lemma {:induction false} WordFailsLocal(t: seq<byte>, u: seq<byte>, i: nat, value: bool, p: nat)
    requires i <= |t| && ScanWord(t, i, value) == Failed(SyntaxError(p)) && Agree(t, u, p + 1)
    ensures i <= p < |t| && ScanWord(u, i, value) == Failed(SyntaxError(p))
    decreases |t| - i
  {
    InWordFails(t, i + 1, value);
    InWordFails(t, i + 2, value);
    if IsSpace(At(t, i)) {
      WordFailsLocal(t, u, i + 1, value, p);
      assert At(u, i) == At(t, i);
    }
  }

  lemma {:induction false} WordErrorPlace(t: seq<byte>, i: nat, value: bool, p: nat)
    requires i <= |t| && ScanWord(t, i, value) == Failed(SyntaxError(p))
    ensures i <= p < |t|
    decreases |t| - i
  {
    InWordFails(t, i + 1, value);
    InWordFails(t, i + 2, value);
    if IsSpace(At(t, i)) { WordErrorPlace(t, i + 1, value, p); }
  }

  lemma {:induction false} ErrorPlace(st: PairState, t: seq<byte>, i: nat, key: seq<byte>, p: nat)
    requires i <= |t| && FromPairState(st, t, i, key) == ParseError(SyntaxError(p))
    ensures i <= p < |t|
    decreases |t| - i
  {
    match st
    case WKey =>
      var s := ScanWord(t, i, false);
      if s.Word? { ErrorPlace(WEq, t, s.next, s.word, p); } else { WordErrorPlace(t, i, false, p); }
    case WVal =>
      var s := ScanWord(t, i, true);
      if s.Word? { ErrorPlace(WDel, t, s.next, key, p); } else { WordErrorPlace(t, i, true, p); }
    case WEq =>
      if At(t, i) == EQUALS { ErrorPlace(WGt, t, i + 1, key, p); } else if IsSpace(At(t, i)) { ErrorPlace(WEq, t, i + 1, key, p); }
    case WGt =>
      if At(t, i) == GREATER { ErrorPlace(WVal, t, i + 1, key, p); }
    case WDel =>
      if At(t, i) == COMMA { ErrorPlace(WKey, t, i + 1, key, p); } else if IsSpace(At(t, i)) { ErrorPlace(WDel, t, i + 1, key, p); }
  }

  /** A syntax error is the same in every text with the same bytes up to it. */
  lemma {:induction false} ErrorLocal(st: PairState, t: seq<byte>, u: seq<byte>, i: nat, key: seq<byte>, p: nat)
    requires i <= |t| && FromPairState(st, t, i, key) == ParseError(SyntaxError(p)) && Agree(t, u, p + 1)
    ensures FromPairState(st, u, i, key) == ParseError(SyntaxError(p))
    decreases |t| - i
  {
    ErrorPlace(st, t, i, key, p);
    assert At(u, i) == At(t, i);
    match st
    case WKey => WordThenError(t, u, i, false, key, p);
    case WVal => WordThenError(t, u, i, true, key, p);
    case WEq =>
      if At(t, i) == EQUALS { ErrorLocal(WGt, t, u, i + 1, key, p); } else if IsSpace(At(t, i)) { ErrorLocal(WEq, t, u, i + 1, key, p); }
    case WGt =>
      if At(t, i) == GREATER { ErrorLocal(WVal, t, u, i + 1, key, p); }
    case WDel =>
      if At(t, i) == COMMA { ErrorLocal(WKey, t, u, i + 1, key, p); } else if IsSpace(At(t, i)) { ErrorLocal(WDel, t, u, i + 1, key, p); }
  }

  lemma {:induction false} WordThenError(t: seq<byte>, u: seq<byte>, i: nat, value: bool, key: seq<byte>, p: nat)
    requires i < |t| && FromPairState(if value then WVal else WKey, t, i, key) == ParseError(SyntaxError(p)) && Agree(t, u, p + 1)
    ensures FromPairState(if value then WVal else WKey, u, i, key) == ParseError(SyntaxError(p))
    decreases |t| - i, 0
  {
    var s := ScanWord(t, i, value);
    if s.Word? {
      if value {
        ErrorPlace(WDel, t, s.next, key, p);
        ErrorLocal(WDel, t, u, s.next, key, p);
      } else {
        ErrorPlace(WEq, t, s.next, s.word, p);
        ErrorLocal(WEq, t, u, s.next, s.word, p);
      }
      WordLocal(t, u, i, value);
    } else {
      WordFailsLocal(t, u, i, value, p);
    }
  }

  // ----- An unfinished text can be finished -----

  const LETTER: byte := 120

  /** A text and the same text with more behind it. */
  lemma Continued(t: seq<byte>, rest: seq<byte>)
    ensures Agree(t, t + rest, |t|) && Ahead(t + rest, |t|, rest)
    ensures forall k :: 0 <= k < |t| ==> At(t + rest, k) == At(t, k)
  {}

  /** A letter for a value. */
  lemma ValueFinishes(u: seq<byte>, n: nat, key: seq<byte>)
    requires Ahead(u, n, [LETTER])
    ensures ReadValue(u, n, key).Pairs?
  {
    assert u[n..][0] == LETTER && |u| == n + 1;
    assert Bare(u, n + 1, true) == Word([], false, n + 1);
    assert ScanWord(u, n, true) == Word([LETTER] + [], false, n + 1);
    assert ReadComma(u, n + 1) == Pairs([]);
  }

  lemma GreaterFinishes(u: seq<byte>, n: nat, key: seq<byte>)
    requires Ahead(u, n, [GREATER, LETTER])
    ensures ReadGreater(u, n, key).Pairs?
  {
    assert u[n..][0] == GREATER && u[n..][1..] == u[n+1..];
    ValueFinishes(u, n + 1, key);
  }

  lemma ArrowFinishes(u: seq<byte>, n: nat, key: seq<byte>)
    requires Ahead(u, n, [EQUALS, GREATER, LETTER])
    ensures ReadEquals(u, n, key).Pairs?
  {
    assert u[n..][0] == EQUALS && u[n..][1..] == u[n+1..];
    GreaterFinishes(u, n + 1, key);
  }

  /** What may follow a word at the end of the text. */
  ghost predicate Follows(rest: seq<byte>, value: bool) {
    rest == [] || (!value && rest[0] == EQUALS)
  }

  lemma {:induction false} QuotedFinishes(t: seq<byte>, i: nat) returns (e: seq<byte>)
    requires Clean(t) && i <= |t| && Quoted(t, i).Failed?
    ensures |e| <= 2 && Clean(e)
    ensures forall rest: seq<byte> :: var s := Quoted(t + e + rest, i); s.Word? && s.next == |t + e|
    decreases |t| - i
  {
    if i == |t| {
      e := [QUOTE];
      forall rest: seq<byte> ensures var s := Quoted(t + e + rest, i); s.Word? && s.next == |t + e| {
        assert At(t + e + rest, i) == QUOTE;
      }
    } else if t[i] == BACKSLASH && i + 1 == |t| {
      e := [LETTER, QUOTE];
      forall rest: seq<byte> ensures var s := Quoted(t + e + rest, i); s.Word? && s.next == |t + e| {
        var u := t + e + rest;
        assert At(u, i) == BACKSLASH && At(u, i + 1) == LETTER && At(u, i + 2) == QUOTE;
        assert Quoted(u, i + 2) == Word([], true, i + 3);
      }
    } else {
      var k := if t[i] == BACKSLASH then 2 else 1;
      e := QuotedFinishes(t, i + k);
      forall rest: seq<byte> ensures var s := Quoted(t + e + rest, i); s.Word? && s.next == |t + e| {
        var u := t + e + rest;
        assert At(u, i) == t[i] && At(u, i + k - 1) == t[i + k - 1];
        assert Quoted(u, i + k).Word? && Quoted(u, i + k).next == |t + e|;
      }
    }
  }

  lemma {:induction false} BareFinishes(t: seq<byte>, i: nat, value: bool) returns (e: seq<byte>)
    requires Clean(t) && i <= |t| && Bare(t, i, value).Failed?
    ensures |e| <= 1 && Clean(e)
    ensures forall rest: seq<byte> :: Follows(rest, value) ==> var s := Bare(t + e + rest, i, value); s.Word? && s.next == |t + e|
    decreases |t| - i
  {
    if t[i] == BACKSLASH && i + 1 == |t| {
      e := [LETTER];
      forall rest: seq<byte> | Follows(rest, value)
        ensures var s := Bare(t + e + rest, i, value); s.Word? && s.next == |t + e|
      {
        var u := t + e + rest;
        assert At(u, i) == BACKSLASH && At(u, i + 1) == LETTER && At(u, i + 2) == At(rest, 0);
        assert Bare(u, i + 2, value) == Word([], false, i + 2);
      }
    } else {
      var k := if t[i] == BACKSLASH then 2 else 1;
      e := BareFinishes(t, i + k, value);
      forall rest: seq<byte> | Follows(rest, value)
        ensures var s := Bare(t + e + rest, i, value); s.Word? && s.next == |t + e|
      {
        var u := t + e + rest;
        assert At(u, i) == t[i] && At(u, i + k - 1) == t[i + k - 1];
        assert Bare(u, i + k, value).Word? && Bare(u, i + k, value).next == |t + e|;
      }
    }
  }

  /** A word that the text breaks off can be finished. */
  lemma {:induction false} WordFinishes(t: seq<byte>, i: nat, value: bool, rest: seq<byte>) returns (e: seq<byte>)
    requires Clean(t) && i <= |t| && ScanWord(t, i, value) == Failed(UnexpectedEnd) && Follows(rest, value)
    ensures |e| <= 2 && Clean(e) && var s := ScanWord(t + e + rest, i, value); s.Word? && s.next == |t + e|
    decreases |t| - i
  {
    if t[i] == QUOTE {
      e := QuotedFinishes(t, i + 1);
    } else if t[i] == BACKSLASH && i + 1 == |t| {
      e := [LETTER];
      var u := t + e + rest;
      assert At(u, i) == BACKSLASH && At(u, i + 1) == LETTER && At(u, i + 2) == At(rest, 0);
      assert Bare(u, i + 2, value) == Word([], false, i + 2);
    } else if t[i] == BACKSLASH {
      e := BareFinishes(t, i + 2, value);
      assert At(t + e + rest, i) == t[i] && At(t + e + rest, i + 1) == t[i + 1];
    } else if IsSpace(t[i]) {
      e := WordFinishes(t, i + 1, value, rest);
    } else {
      e := BareFinishes(t, i + 1, value);
    }
    assert At(t + e + rest, i) == t[i];
  }

  lemma {:induction false} BareStays(t: seq<byte>, i: nat, value: bool, rest: seq<byte>)
    requires Clean(t) && i <= |t| && Bare(t, i, value).Word? && Bare(t, i, value).next == |t| && Follows(rest, value)
    ensures Bare(t + rest, i, value) == Bare(t, i, value)
    decreases |t| - i
  {
    var u := t + rest;
    if i < |t| {
      assert At(u, i) == t[i];
      if t[i] == BACKSLASH {
        assert At(u, i + 1) == t[i + 1];
        BareStays(t, i + 2, value, rest);
      } else if !IsSpace(t[i]) {
        BareStays(t, i + 1, value, rest);
      }
    } else {
      assert At(u, i) == At(rest, 0);
    }
  }

  /** A word at the end of the text stays the same. */
  lemma {:induction false} WordStays(t: seq<byte>, i: nat, value: bool, rest: seq<byte>)
    requires Clean(t) && i <= |t| && ScanWord(t, i, value).Word? && ScanWord(t, i, value).next == |t| && Follows(rest, value)
    ensures ScanWord(t + rest, i, value) == ScanWord(t, i, value)
    decreases |t| - i
  {
    var u := t + rest;
    Continued(t, rest);
    assert At(u, i) == t[i];
    if t[i] == QUOTE {
      QuotedLocal(t, u, i + 1);
    } else if t[i] == BACKSLASH {
      assert At(u, i + 1) == t[i + 1];
      BareStays(t, i + 2, value, rest);
    } else if IsSpace(t[i]) {
      WordStays(t, i + 1, value, rest);
    } else {
      BareStays(t, i + 1, value, rest);
    }
  }

  lemma {:induction false} InWordLength(t: seq<byte>, i: nat, value: bool)
    ensures Quoted(t, i).Word? ==> |Quoted(t, i).word| < |t| - i
    ensures i <= |t| && Bare(t, i, value).Word? ==> |Bare(t, i, value).word| <= |t| - i
    decreases |t| - i
  {
    if i < |t| { InWordLength(t, i + 1, value); }
    if i + 1 < |t| { InWordLength(t, i + 2, value); }
  }

  lemma {:induction false} WordLength(t: seq<byte>, i: nat, value: bool)
    requires i <= |t|
    ensures ScanWord(t, i, value).Word? ==> |ScanWord(t, i, value).word| <= |t|
    decreases |t| - i
  {
    if i < |t| {
      InWordLength(t, i + 1, value);
      if i + 1 < |t| { InWordLength(t, i + 2, value); }
      WordLength(t, i + 1, value);
    }
  }

  lemma {:induction false} BlankFinishes(t: seq<byte>, i: nat)
    requires Clean(t) && i <= |t| && ScanWord(t, i, true) == NoWord
    ensures ScanWord(t + [LETTER], i, true) == Word([LETTER], false, |t| + 1)
    decreases |t| - i
  {
    var u := t + [LETTER];
    if i < |t| {
      WordOrBlank(t, i);
      BlankFinishes(t, i + 1);
      assert At(u, i) == t[i];
    } else {
      assert At(u, i) == LETTER;
      assert Bare(u, i + 1, true) == Word([], false, i + 1);
    }
  }

  lemma {:induction false} InWordFound(t: seq<byte>, i: nat, value: bool)
    ensures Quoted(t, i) != NoWord && Bare(t, i, value) != NoWord
    decreases |t| - i
  {
    if i < |t| { InWordFound(t, i + 1, value); }
    if i + 1 < |t| { InWordFound(t, i + 2, value); }
  }

  lemma WordOrBlank(t: seq<byte>, i: nat)
    requires Clean(t) && i < |t| && ScanWord(t, i, true) == NoWord
    ensures IsSpace(t[i]) && ScanWord(t, i + 1, true) == NoWord
  {
    InWordFound(t, i + 1, true);
    InWordFound(t, i + 2, true);
  }

  ghost predicate Unfinished(st: PairState, t: seq<byte>, i: nat, key: seq<byte>) {
    Clean(t) && i <= |t| && |t| + 8 <= MAXLEN && FromPairState(st, t, i, key) == ParseError(UnexpectedEnd)
  }

  lemma {:induction false} KeyFinishes(t: seq<byte>, i: nat, key: seq<byte>) returns (ext: seq<byte>)
    requires Unfinished(WKey, t, i, key)
    ensures Clean(ext) && ReadPairs(t + ext, i).Pairs?
    decreases |t| - i, 0
  {
    var s, arrow := ScanWord(t, i, false), [EQUALS, GREATER, LETTER];
    if s.Failed? {
      var e := WordFinishes(t, i, false, arrow);
      ext := e + arrow;
      var u := t + e + arrow;
      assert t + ext == u;
      WordLength(u, i, false);
      Continued(t + e, arrow);
      ArrowFinishes(u, |t + e|, ScanWord(u, i, false).word);
    } else if s.next == |t| {
      ext := arrow;
      WordStays(t, i, false, arrow);
      Continued(t, arrow);
      ArrowFinishes(t + ext, |t|, s.word);
    } else {
      ext := Finishes(WEq, t, s.next, s.word);
      Continued(t, ext);
      WordLocal(t, t + ext, i, false);
    }
  }

  lemma {:induction false} ValFinishes(t: seq<byte>, i: nat, key: seq<byte>) returns (ext: seq<byte>)
    requires Unfinished(WVal, t, i, key)
    ensures Clean(ext) && ReadValue(t + ext, i, key).Pairs?
    decreases |t| - i, 0
  {
    var s := ScanWord(t, i, true);
    if s.Failed? {
      var e := WordFinishes(t, i, true, []);
      ext := e;
      var u := t + ext;
      assert t + e + [] == u;
      WordLength(u, i, true);
      assert ReadComma(u, |u|) == Pairs([]);
    } else if s.NoWord? {
      ext := [LETTER];
      BlankFinishes(t, i);
      assert ReadComma(t + ext, |t| + 1) == Pairs([]);
    } else {
      assert ReadComma(t, |t|) == Pairs([]);
      ext := Finishes(WDel, t, s.next, key);
      Continued(t, ext);
      WordLocal(t, t + ext, i, true);
    }
  }

  /** Whatever ends unexpectedly can be continued to an accepted text. */
  lemma {:induction false} Finishes(st: PairState, t: seq<byte>, i: nat, key: seq<byte>) returns (ext: seq<byte>)
    requires Unfinished(st, t, i, key)
    ensures Clean(ext) && FromPairState(st, t + ext, i, key).Pairs?
    decreases |t| - i, 1
  {
    match st
    case WKey => ext := KeyFinishes(t, i, key);
    case WVal => ext := ValFinishes(t, i, key);
    case WEq =>
      if i == |t| {
        ext := [EQUALS, GREATER, LETTER];
        Continued(t, ext);
        ArrowFinishes(t + ext, i, key);
      } else {
        ext := Finishes(if t[i] == EQUALS then WGt else WEq, t, i + 1, key);
        Continued(t, ext);
      }
    case WGt =>
      if i == |t| {
        ext := [GREATER, LETTER];
        Continued(t, ext);
        GreaterFinishes(t + ext, i, key);
      } else {
        ext := Finishes(WVal, t, i + 1, key);
        Continued(t, ext);
      }
    case WDel =>
      ext := Finishes(if t[i] == COMMA then WKey else WDel, t, i + 1, key);
      Continued(t, ext);
  }

  // ----- The place of an error -----

  lemma {:induction false} NeverTooLong(st: PairState, t: seq<byte>, i: nat, key: seq<byte>)
    requires i <= |t| <= MAXLEN
    ensures FromPairState(st, t, i, key) != ParseError(TooLong)
    decreases |t| - i
  {
    InWordFails(t, i + 1, false);
    WordNeverTooLong(t, i, st == WVal);
    WordLength(t, i, st == WVal);
    match st
    case WKey =>
      var s := ScanWord(t, i, false);
      if s.Word? { NeverTooLong(WEq, t, s.next, s.word); }
    case WVal =>
      var s := ScanWord(t, i, true);
      if s.Word? { NeverTooLong(WDel, t, s.next, key); }
    case WEq =>
      if i < |t| { NeverTooLong(WEq, t, i + 1, key); NeverTooLong(WGt, t, i + 1, key); }
    case WGt =>
      if i < |t| { NeverTooLong(WVal, t, i + 1, key); }
    case WDel =>
      if i < |t| { NeverTooLong(WDel, t, i + 1, key); NeverTooLong(WKey, t, i + 1, key); }
  }

  lemma {:induction false} WordNeverTooLong(t: seq<byte>, i: nat, value: bool)
    ensures ScanWord(t, i, value) != Failed(TooLong)
    decreases |t| - i
  {
    InWordFails(t, i + 1, value);
    InWordFails(t, i + 2, value);
    if i < |t| { WordNeverTooLong(t, i + 1, value); }
  }

  ghost predicate Accepted(t: seq<byte>) {
    ReadPairs(t, 0).Pairs?
  }

  /** Some text that begins with these bytes is accepted. */
  ghost predicate Viable(t: seq<byte>) {
    exists ext: seq<byte> :: Accepted(t + ext)
  }

  lemma UnfinishedIsViable(t: seq<byte>)
    requires Clean(t) && |t| + 8 <= MAXLEN && (Accepted(t) || ReadPairs(t, 0) == ParseError(UnexpectedEnd))
    ensures Viable(t)
  {
    if Accepted(t) {
      assert t + [] == t;
      assert Accepted(t + []);
    } else {
      var ext := Finishes(WKey, t, 0, []);
      assert Accepted(t + ext);
    }
  }

  lemma ErrorIsDead(t: seq<byte>, p: nat)
    requires ReadPairs(t, 0) == ParseError(SyntaxError(p))
    ensures p < |t| && !Viable(t[..p+1])
  {
    ErrorPlace(WKey, t, 0, [], p);
    if Viable(t[..p+1]) {
      var ext: seq<byte> :| Accepted(t[..p+1] + ext);
      ErrorLocal(WKey, t, t[..p+1] + ext, 0, [], p);
    }
  }

  lemma BeforeErrorIsViable(t: seq<byte>, p: nat)
    requires Clean(t) && |t| + 8 <= MAXLEN && ReadPairs(t, 0) == ParseError(SyntaxError(p)) && p < |t|
    ensures Viable(t[..p])
  {
    var u := t[..p];
    NeverTooLong(WKey, u, 0, []);
    if ReadPairs(u, 0).ParseError? && ReadPairs(u, 0).error.SyntaxError? {
      var q := ReadPairs(u, 0).error.pos;
      ErrorPlace(WKey, u, 0, [], q);
      ErrorLocal(WKey, u, t, 0, [], q);
    }
    UnfinishedIsViable(u);
  }

  /** One place divides what can be continued from what cannot. */
  lemma OnePlace(t: seq<byte>, p: nat, q: nat)
    requires p < |t| && Viable(t[..p]) && !Viable(t[..p+1]) && q < |t| && Viable(t[..q]) && !Viable(t[..q+1])
    ensures p == q
  {
    if q < p { ShorterViable(t, q + 1, p); }
    if p < q { ShorterViable(t, p + 1, q); }
  }

  /** Input is refused for its end if and only if it is the beginning of an accepted text. */
  lemma EndIsViable(t: seq<byte>)
    requires Clean(t) && |t| + 8 <= MAXLEN && !Accepted(t)
    ensures ReadPairs(t, 0) == ParseError(UnexpectedEnd) <==> Viable(t)
  {
    NeverTooLong(WKey, t, 0, []);
    if ReadPairs(t, 0).error == UnexpectedEnd {
      UnfinishedIsViable(t);
    } else {
      var q := ReadPairs(t, 0).error.pos;
      ErrorIsDead(t, q);
      if Viable(t) { ShorterIsViable(t, q + 1); }
    }
  }

  /** Input is refused with a syntax error at the first byte with which no accepted text begins any more, and only
      there. */
  lemma ErrorIsFirst(t: seq<byte>, p: nat)
    requires Clean(t) && |t| + 8 <= MAXLEN && !Accepted(t)
    ensures ReadPairs(t, 0) == ParseError(SyntaxError(p)) <==> p < |t| && Viable(t[..p]) && !Viable(t[..p+1])
  {
    NeverTooLong(WKey, t, 0, []);
    if ReadPairs(t, 0).error == UnexpectedEnd {
      UnfinishedIsViable(t);
      if p < |t| { ShorterIsViable(t, p + 1); }
    } else {
      var q := ReadPairs(t, 0).error.pos;
      ErrorIsDead(t, q);
      BeforeErrorIsViable(t, q);
      if p < |t| && Viable(t[..p]) && !Viable(t[..p+1]) { OnePlace(t, p, q); }
    }
  }

  lemma ShorterIsViable(t: seq<byte>, n: nat)
    requires Viable(t) && n <= |t|
    ensures Viable(t[..n])
  {
    var ext: seq<byte> :| Accepted(t + ext);
    assert t[..n] + (t[n..] + ext) == t + ext;
    assert Accepted(t[..n] + (t[n..] + ext));
  }

  lemma ShorterViable(t: seq<byte>, m: nat, n: nat)
    requires m <= n <= |t| && Viable(t[..n])
    ensures Viable(t[..m])
  {
    ShorterIsViable(t[..n], m);
    assert t[..n][..m] == t[..m];
  }
}
