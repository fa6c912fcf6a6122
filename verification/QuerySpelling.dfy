/** Which texts spell a query: the tokens of `gettoken`, told without the tokenizer. */
module QuerySpelling {
  import opened Basics
  import opened QueryGrammar
  import opened QueryText
  import opened QueryNumber
  import opened QueryItems

  ghost predicate Blank(s: string) {
    forall i :: 0 <= i < |s| ==> s[i] == ' '
  }

  /** Up to 15 characters, digits behind an optional minus sign, of a value that fits 32 bits. */
  ghost predicate Numeral(w: string, v: int) {
    0 < |w| < 16 && (IsDigit(w[0]) || w[0] == '-') && AllDigits(w[1..]) && StandsFor(w, v) && IsInt32(v)
  }

  /** How a token is written. */
  ghost predicate Lexeme(w: string, t: Token) {
    match t
    case TVal(v) => Numeral(w, v)
    case TOpr(op) => w == [op]
    case TOpen => w == "("
    case TClose => w == ")"
    case _ => false
  }

  /** Blanks, a token, and then `rest`. */
  ghost predicate Begins(s: string, t: Token, rest: string) {
    exists b: string, w: string :: Blank(b) && Lexeme(w, t) && s == b + w + rest
  }

  /** Blanks up to the end of the string or its NUL. */
  ghost predicate AtEnd(s: string) {
    exists b: string, rest: string :: Blank(b) && Head(rest) == '\0' && s == b + rest
  }

  /** The text is the tokens, each behind any number of blanks, and blanks at the end. */
  ghost predicate Spelled(s: string, ts: seq<Token>)
    decreases |ts|
  {
    if ts == [] then AtEnd(s) else exists rest: string :: Begins(s, ts[0], rest) && Spelled(rest, ts[1..])
  }

  // ----- What is read is what is spelled -----

  lemma BlankMore(b: string, c: char)
    requires Blank(b) && c == ' '
    ensures Blank([c] + b)
  {}

  lemma BeginsMore(s: string, t: Token, rest: string)
    requires s != "" && s[0] == ' ' && Begins(s[1..], t, rest)
    ensures Begins(s, t, rest)
  {
    var b: string, w: string :| Blank(b) && Lexeme(w, t) && s[1..] == b + w + rest;
    BlankMore(b, s[0]);
    assert s == [s[0]] + b + w + rest;
  }

  lemma BeginsAtOnce(s: string, w: string, t: Token, rest: string)
    requires Lexeme(w, t) && s == w + rest
    ensures Begins(s, t, rest)
  {
    assert Blank("") && s == "" + w + rest;
  }

  /** The digits that the tokenizer goes on to read. */
  lemma {:induction false} NumberSplits(s: string, n: int, nnn: string) returns (d: string)
    requires Lex(s, WaitEndOperand, n, nnn).tok.TVal?
    ensures var r := Lex(s, WaitEndOperand, n, nnn);
      AllDigits(d) && s == d + r.rest && r.tok.v == StrToL(nnn + d) && IsInt32(r.tok.v) && |nnn + d| < NNN_SIZE
    decreases |s|
  {
    var c := Head(s);
    if IsDigit(c) {
      var e := NumberSplits(s[1..], n, nnn + [c]);
      d := [c] + e;
      assert nnn + [c] + e == nnn + d;
    } else {
      d := "";
      assert nnn + d == nnn;
    }
  }

  lemma NumberBegins(s: string, n: nat)
    requires s != "" && (IsDigit(s[0]) || s[0] == '-') && Lex(s[1..], WaitEndOperand, n, [s[0]]).tok.TVal?
    ensures var r := Lex(s[1..], WaitEndOperand, n, [s[0]]); Begins(s, r.tok, r.rest)
  {
    var r := Lex(s[1..], WaitEndOperand, n, [s[0]]);
    var d := NumberSplits(s[1..], n, [s[0]]);
    assert ([s[0]] + d)[1..] == d;
    assert s == [s[0]] + s[1..];
    StandsForIff([s[0]] + d, r.tok.v);
    BeginsAtOnce(s, [s[0]] + d, r.tok, r.rest);
  }

  /** A text that does not begin with a blank. */
  lemma ReadBeginsAtOnce(s: string, st: LexState, n: nat)
    requires st != WaitEndOperand && Head(s) != ' '
    ensures var r := Lex(s, st, n, ""); r.tok != TErr && r.tok != TEnd ==> Begins(s, r.tok, r.rest)
  {
    var r, c := Lex(s, st, n, ""), Head(s);
    if r.tok != TErr && r.tok != TEnd {
      if st == WaitOperand && (IsDigit(c) || c == '-') {
        LexOrder(s[1..], WaitEndOperand, n, [c]);
        NumberBegins(s, n);
      } else {
        assert s == [c] + s[1..];
        BeginsAtOnce(s, [c], r.tok, r.rest);
      }
    }
  }

  lemma {:induction false} ReadBegins(s: string, st: LexState, n: nat)
    requires st != WaitEndOperand
    ensures var r := Lex(s, st, n, ""); r.tok != TErr && r.tok != TEnd ==> Begins(s, r.tok, r.rest)
    decreases |s|
  {
    if Head(s) == ' ' {
      ReadBegins(s[1..], st, n);
      var r := Lex(s, st, n, "");
      assert r == Lex(s[1..], st, n, "");
      if r.tok != TErr && r.tok != TEnd { BeginsMore(s, r.tok, r.rest); }
    } else {
      ReadBeginsAtOnce(s, st, n);
    }
  }

  lemma {:induction false} ReadEnd(s: string, n: int)
    requires Lex(s, WaitOperator, n, "").tok == TEnd
    ensures AtEnd(s)
    decreases |s|
  {
    if Head(s) == ' ' {
      ReadEnd(s[1..], n);
      var b: string, rest: string :| Blank(b) && Head(rest) == '\0' && s[1..] == b + rest;
      BlankMore(b, s[0]);
      assert s == [s[0]] + b + rest;
    } else {
      assert Blank("") && s == "" + s;
    }
  }

  lemma {:induction false} ReadIsSpelled(s: string, st: LexState, n: nat, ts: seq<Token>)
    requires st != WaitEndOperand && Tokens(s, st, n) == ts + [TEnd]
    ensures Spelled(s, ts)
    decreases |ts|
  {
    var r := Lex(s, st, n, "");
    LexOrder(s, st, n, "");
    assert Tokens(s, st, n)[0] == r.tok;
    if ts == [] {
      assert (ts + [TEnd])[0] == TEnd;
      ReadEnd(s, n);
    } else {
      TokenLater(s, st, n, ts);
      ReadBegins(s, st, n);
      ReadIsSpelled(r.rest, r.st, r.count, ts[1..]);
      assert Begins(s, ts[0], r.rest) && Spelled(r.rest, ts[1..]);
    }
  }

  lemma TokenLater(s: string, st: LexState, n: nat, ts: seq<Token>)
    requires st != WaitEndOperand && Tokens(s, st, n) == ts + [TEnd] && ts != []
    ensures var r := Lex(s, st, n, "");
      r.tok == ts[0] && r.tok != TErr && r.tok != TEnd && Tokens(r.rest, r.st, r.count) == ts[1..] + [TEnd]
  {
    var all := Tokens(s, st, n);
    assert |all| == |ts| + 1 >= 2;
    assert all[0] == ts[0];
    assert all[1..] == ts[1..] + [TEnd];
  }

  // ----- What is spelled is read -----

  lemma {:induction false} SkipBlanks(b: string, s: string, st: LexState, n: int)
    requires Blank(b) && st != WaitEndOperand
    ensures Lex(b + s, st, n, "") == Lex(s, st, n, "")
    decreases |b|
  {
    if b == "" {
      assert b + s == s;
    } else {
      assert (b + s)[1..] == b[1..] + s && (b + s)[0] == ' ';
      SkipBlanks(b[1..], s, st, n);
    }
  }

  lemma {:induction false} ReadDigits(d: string, rest: string, n: int, nnn: string)
    requires AllDigits(d) && |nnn| + |d| < NNN_SIZE
    ensures Lex(d + rest, WaitEndOperand, n, nnn) == Lex(rest, WaitEndOperand, n, nnn + d)
    decreases |d|
  {
    if d == "" {
      assert d + rest == rest && nnn + d == nnn;
    } else {
      assert (d + rest)[1..] == d[1..] + rest;
      assert nnn + [d[0]] + d[1..] == nnn + d;
      ReadDigits(d[1..], rest, n, nnn + [d[0]]);
    }
  }

  /** A numeral is read to its end if no digit follows, nor the end inside parentheses. */
  lemma ReadNumeral(w: string, v: int, rest: string, n: nat)
    requires Numeral(w, v) && !IsDigit(Head(rest)) && !(n != 0 && Head(rest) == '\0')
    ensures Lex(w + rest, WaitOperand, n, "") == Lexed(TVal(v), rest, WaitOperator, n)
  {
    StandsForIff(w, v);
    assert (w + rest)[1..] == w[1..] + rest && [w[0]] + w[1..] == w;
    ReadDigits(w[1..], rest, n, [w[0]]);
  }

  /** What comes first in a spelled text, blanks aside. */
  lemma SpelledHead(s: string, ts: seq<Token>, n: nat)
    requires Spelled(s, ts) && Follows(ts + [TEnd], false, n)
    ensures !IsDigit(Head(s)) && !(n != 0 && Head(s) == '\0')
  {
    if ts == [] {
      var b: string, rest: string :| Blank(b) && Head(rest) == '\0' && s == b + rest;
      assert (ts + [TEnd])[0] == TEnd;
      if b != "" { assert s[0] == b[0]; } else { assert s == rest; }
    } else {
      assert (ts + [TEnd])[0] == ts[0];
      var rest: string :| Begins(s, ts[0], rest) && Spelled(rest, ts[1..]);
      var b: string, w: string :| Blank(b) && Lexeme(w, ts[0]) && s == b + w + rest;
      if b != "" { assert s[0] == b[0]; } else { assert s[0] == w[0]; }
    }
  }

  /** Where reading goes on after a token. */
  ghost function StateAfter(t: Token): LexState {
    if t.TVal? || t.TClose? then WaitOperator else WaitOperand
  }

  ghost function CountAfter(t: Token, n: nat): int {
    if t.TOpen? then n + 1 else if t.TClose? then n - 1 else n
  }

  /** One of the other tokens, where it may come. */
  ghost predicate MayCome(t: Token, operand: bool, n: nat) {
    match t
    case TVal(_) => operand
    case TOpr(op) => if operand then op == '!' else op == '&' || op == '|'
    case TOpen => operand
    case TClose => !operand && n > 0
    case _ => false
  }

  lemma ReadMark(w: string, t: Token, rest: string, st: LexState, n: nat)
    requires st != WaitEndOperand && Lexeme(w, t) && !t.TVal? && MayCome(t, st == WaitOperand, n)
    ensures Lex(w + rest, st, n, "") == Lexed(t, rest, StateAfter(t), CountAfter(t, n))
  {
    var s := w + rest;
    assert s[1..] == rest && Head(s) == w[0];
  }

  lemma ReadWord(w: string, t: Token, rest: string, st: LexState, n: nat)
    requires st != WaitEndOperand && Lexeme(w, t) && MayCome(t, st == WaitOperand, n)
    requires t.TVal? ==> !IsDigit(Head(rest)) && !(n != 0 && Head(rest) == '\0')
    ensures Lex(w + rest, st, n, "") == Lexed(t, rest, StateAfter(t), CountAfter(t, n))
  {
    if t.TVal? {
      ReadNumeral(w, t.v, rest, n);
    } else {
      ReadMark(w, t, rest, st, n);
    }
  }

  lemma FollowsNext(t: Token, ts: seq<Token>, operand: bool, n: nat)
    requires Follows([t] + ts, operand, n) && t != TErr && t != TEnd
    ensures MayCome(t, operand, n) && CountAfter(t, n) >= 0 && Follows(ts, StateAfter(t) == WaitOperand, CountAfter(t, n))
  {
    assert ([t] + ts)[1..] == ts;
  }

  lemma TokenParts(s: string, t: Token, rest: string) returns (b: string, w: string)
    requires Begins(s, t, rest)
    ensures Blank(b) && Lexeme(w, t) && s == b + (w + rest)
  {
    b, w :| Blank(b) && Lexeme(w, t) && s == b + w + rest;
    assert s == b + (w + rest);
  }

  lemma ReadToken(s: string, t: Token, rest: string, ts: seq<Token>, st: LexState, n: nat)
    requires st != WaitEndOperand && Begins(s, t, rest) && Spelled(rest, ts) && Follows([t] + (ts + [TEnd]), st == WaitOperand, n)
    ensures Lex(s, st, n, "") == Lexed(t, rest, StateAfter(t), CountAfter(t, n)) && CountAfter(t, n) >= 0
    ensures Follows(ts + [TEnd], StateAfter(t) == WaitOperand, CountAfter(t, n)) && t != TErr && t != TEnd
  {
    var b, w := TokenParts(s, t, rest);
    FollowsNext(t, ts + [TEnd], st == WaitOperand, n);
    if t.TVal? { SpelledHead(rest, ts, n); }
    SkipBlanks(b, w + rest, st, n);
    ReadWord(w, t, rest, st, n);
  }

  lemma ReadAtEnd(s: string)
    requires AtEnd(s)
    ensures Tokens(s, WaitOperator, 0) == [TEnd]
  {
    var b: string, rest: string :| Blank(b) && Head(rest) == '\0' && s == b + rest;
    SkipBlanks(b, rest, WaitOperator, 0);
  }

  lemma {:induction false} SpelledIsRead(s: string, st: LexState, n: nat, ts: seq<Token>)
    requires st != WaitEndOperand && Spelled(s, ts) && Follows(ts + [TEnd], st == WaitOperand, n)
    ensures Tokens(s, st, n) == ts + [TEnd]
    decreases |ts|
  {
    if ts == [] {
      assert (ts + [TEnd])[0] == TEnd;
      ReadAtEnd(s);
    } else {
      var t := ts[0];
      var rest: string :| Begins(s, t, rest) && Spelled(rest, ts[1..]);
      assert [t] + (ts[1..] + [TEnd]) == ts + [TEnd];
      ReadToken(s, t, rest, ts[1..], st, n);
      SpelledIsRead(rest, StateAfter(t), CountAfter(t, n), ts[1..]);
    }
  }

  // ----- Sentences -----

  lemma {:induction false} OrFollows(o: OrExpr, tail: seq<Token>, n: nat)
    requires Follows(tail, false, n)
    ensures Follows(OrTokens(o) + tail, true, n)
  {
    match o
    case OrOne(a) => AndFollows(a, tail, n);
    case OrMore(b, a) =>
      AndFollows(a, tail, n);
      OperatorFollows('|', AndTokens(a) + tail, n);
      OrFollows(b, [TOpr('|')] + (AndTokens(a) + tail), n);
      assert OrTokens(o) + tail == OrTokens(b) + ([TOpr('|')] + (AndTokens(a) + tail));
  }

  lemma {:induction false} AndFollows(a: AndExpr, tail: seq<Token>, n: nat)
    requires Follows(tail, false, n)
    ensures Follows(AndTokens(a) + tail, true, n)
  {
    match a
    case AndOne(m) => NegFollows(m, tail, n);
    case AndMore(b, m) =>
      NegFollows(m, tail, n);
      OperatorFollows('&', NegTokens(m) + tail, n);
      AndFollows(b, [TOpr('&')] + (NegTokens(m) + tail), n);
      assert AndTokens(a) + tail == AndTokens(b) + ([TOpr('&')] + (NegTokens(m) + tail));
  }

  lemma OperatorFollows(op: char, rest: seq<Token>, n: nat)
    requires (op == '&' || op == '|') && Follows(rest, true, n)
    ensures Follows([TOpr(op)] + rest, false, n)
  {
    assert ([TOpr(op)] + rest)[1..] == rest;
  }

  lemma {:induction false} NegFollows(m: NegExpr, tail: seq<Token>, n: nat)
    requires Follows(tail, false, n)
    ensures Follows(NegTokens(m) + tail, true, n)
  {
    match m
    case Bang(k) =>
      NegFollows(k, tail, n);
      assert (NegTokens(m) + tail)[1..] == NegTokens(k) + tail;
    case Plain(p) => PrimFollows(p, tail, n);
  }

  lemma {:induction false} PrimFollows(p: Prim, tail: seq<Token>, n: nat)
    requires Follows(tail, false, n)
    ensures Follows(PrimTokens(p) + tail, true, n)
  {
    match p
    case Num(v) => assert (PrimTokens(p) + tail)[1..] == tail;
    case Paren(o) =>
      assert ([TClose] + tail)[1..] == tail;
      assert Follows([TClose] + tail, false, n + 1);
      OrFollows(o, [TClose] + tail, n + 1);
      assert (PrimTokens(p) + tail)[1..] == OrTokens(o) + ([TClose] + tail);
  }

  /** The tokens of a text are those of a sentence if and only if the text spells the sentence. */
  lemma SpelledIff(text: string, c: OrExpr)
    ensures Tokens(text, WaitOperand, 0) == OrTokens(c) + [TEnd] <==> Spelled(text, OrTokens(c))
  {
    assert Follows([TEnd], false, 0);
    OrFollows(c, [TEnd], 0);
    if Tokens(text, WaitOperand, 0) == OrTokens(c) + [TEnd] {
      ReadIsSpelled(text, WaitOperand, 0, OrTokens(c));
    }
    if Spelled(text, OrTokens(c)) {
      SpelledIsRead(text, WaitOperand, 0, OrTokens(c));
    }
  }

  /** Input, told by the text itself: what is accepted spells the sentence whose tree is compiled, and a syntax
      error means that the text spells no sentence. */
  lemma InputBySpelling(text: string, q: Query)
    requires InputIs(Tokens(text, WaitOperand, 0), q)
    ensures q.Query? ==> exists c: OrExpr :: Spelled(text, OrTokens(c)) && OrFits(c) && Compiles(q.items, OrTree(c))
    ensures q.SyntaxErr? ==> forall c: OrExpr :: !Spelled(text, OrTokens(c))
    ensures q.TooComplexErr? ==> forall c: OrExpr :: Spelled(text, OrTokens(c)) ==> !OrFits(c)
    ensures q.TooManyItemsErr? ==> exists c: OrExpr :: Spelled(text, OrTokens(c)) && OrFits(c) && Size(OrTree(c)) > 134217726
  {
    var ts := Tokens(text, WaitOperand, 0);
    forall c: OrExpr ensures ts == OrTokens(c) + [TEnd] <==> Spelled(text, OrTokens(c)) { SpelledIff(text, c); }
    match q
    case Query(items) =>
      var t: Tree :| CompilesTo(ts, items, t);
      var c: OrExpr :| Sentence(ts, c) && OrTree(c) == t;
      assert Spelled(text, OrTokens(c));
    case TooManyItemsErr =>
      var c: OrExpr :| Sentence(ts, c) && Size(OrTree(c)) > QUERYTYPEMAXITEMS;
      assert Spelled(text, OrTokens(c));
    case SyntaxErr =>
    case TooComplexErr =>
      forall c: OrExpr | Spelled(text, OrTokens(c)) ensures !OrFits(c) { assert !Sentence(ts, c); }
  }

  lemma NumeralSpells(w: string, v: int)
    requires Numeral(w, v)
    ensures Spelled(w, [TVal(v)])
  {
    assert Blank("") && Head("") == '\0' && "" == "" + "";
    assert AtEnd("");
    assert [TVal(v)][1..] == [];
    BeginsAtOnce(w, w, TVal(v), "");
    assert Begins(w, [TVal(v)][0], "") && Spelled("", [TVal(v)][1..]);
  }

  lemma NumSentence(v: int)
    ensures var c := OrOne(AndOne(Plain(Num(v)))); OrTokens(c) == [TVal(v)] && OrTree(c) == Val(v) && OrFits(c)
  {
    assert PrimTokens(Num(v)) == [TVal(v)] && NegTokens(Plain(Num(v))) == PrimTokens(Num(v));
    assert AndTokens(AndOne(Plain(Num(v)))) == NegTokens(Plain(Num(v)));
    assert NegTree(Plain(Num(v))) == PrimTree(Num(v)) == Val(v);
    assert AndTree(AndOne(Plain(Num(v)))) == NegTree(Plain(Num(v)));
  }

  /** A text that is a numeral alone compiles to its value, octal or decimal. */
  lemma NumeralInput(w: string, v: int, q: Query)
    requires Numeral(w, v) && InputIs(Tokens(w, WaitOperand, 0), q)
    ensures q.Query? && |q.items| == 1 && q.items[0].node == NVal(v)
  {
    var c := OrOne(AndOne(Plain(Num(v))));
    NumSentence(v);
    NumeralSpells(w, v);
    SpelledIff(w, c);
    InputBySpelling(w, q);
    forall d: OrExpr | Spelled(w, OrTokens(d)) ensures OrTree(d) == Val(v) {
      SpelledIff(w, d);
      SameSentence(c, d);
    }
  }

  lemma SameSentence(c: OrExpr, d: OrExpr)
    requires OrTokens(c) + [TEnd] == OrTokens(d) + [TEnd]
    ensures OrTree(c) == OrTree(d)
  {
    assert OrTokens(c) == (OrTokens(c) + [TEnd])[..|OrTokens(c)|] == OrTokens(d);
    Unambiguous(c, d);
  }

  /** The text 010 is the query for 8. */
  lemma OctalInput(q: Query)
    requires InputIs(Tokens("010", WaitOperand, 0), q)
    ensures q.Query? && |q.items| == 1 && q.items[0].node == NVal(8)
  {
    assert OctalDigits(8) == OctalDigits(1) + "0" == "10";
    OctalReads(8, "");
    assert "010" == "0" + OctalDigits(8) + "";
    StandsForIff("010", 8);
    NumeralInput("010", 8, q);
  }
}
