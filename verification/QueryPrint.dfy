/** `infix` and `bqarr_out`: a compiled query as text, and what the text parses back to. */
module QueryPrint {
  import opened Basics
  import opened QueryGrammar
  import opened QueryText
  import opened QueryNumber
  import opened QueryItems
  import opened QuerySpelling

  /** `sprintf("%d")` */
  function Decimal(v: int): string {
    if v < 0 then "-" + Digits(-v) else Digits(v)
  }

  /** The text of a tree. Only `|` below something else and operators below `!` get parentheses. */
  ghost function Print(t: Tree, first: bool): string {
    match t
    case Val(v) => Decimal(v)
    case Not(a) => if a.Val? then "!" + Print(a, false) else "!" + "( " + Print(a, true) + " )"
    case And(a, b) => Print(a, false) + " & " + Print(b, false)
    case Or(a, b) =>
      if first then Print(a, false) + " | " + Print(b, false)
      else "( " + (Print(a, false) + " | " + Print(b, false)) + " )"
  }

  lemma NumberLetters()
    ensures Decimal(1) == "1" && Decimal(2) == "2" && Decimal(3) == "3" && Decimal(-5) == "-5" && Decimal(60) == "60"
  {
    assert Digits(60) == Digits(6) + "0" && Digits(6) == "6";
  }

  /** How conjunctions look: blanks around the operators, parentheses around a disjunction only. */
  lemma AndLetters()
    ensures Print(And(Val(1), And(Val(2), Or(Val(-5), Val(60)))), true) == "1 & 2 & ( -5 | 60 )"
  {
    NumberLetters();
    var o := Or(Val(-5), Val(60));
    assert Print(o, false) == "( -5 | 60 )";
    var a := And(Val(2), o);
    assert Print(a, false) == "2 & ( -5 | 60 )";
    assert Print(And(Val(1), a), true) == "1 & 2 & ( -5 | 60 )";
  }

  /** How negations look: parentheses around everything but a value. */
  lemma NotLetters()
    ensures Print(Or(Not(Val(1)), Not(And(Val(2), Val(3)))), true) == "!1 | !( 2 & 3 )"
  {
    NumberLetters();
    var n, a := Not(Val(1)), And(Val(2), Val(3));
    assert Print(n, false) == "!1";
    assert Print(a, true) == "2 & 3";
    assert Print(Not(a), false) == "!( 2 & 3 )";
    assert Print(Or(n, Not(a)), true) == "!1 | !( 2 & 3 )";
  }

  // ----- Numbers -----

  ghost function Pow10(k: nat): nat {
    if k == 0 then 1 else 10 * Pow10(k - 1)
  }

  lemma {:induction false} DigitsLength(n: nat, k: nat)
    requires 1 <= k && n < Pow10(k)
    ensures |Digits(n)| <= k
  {
    if n >= 10 {
      DigitsLength(n / 10, k - 1);
    }
  }

  lemma Pow10At10()
    ensures Pow10(10) == 10000000000
  {
    assert Pow10(5) == 100000;
    assert Pow10(10) == 100000 * Pow10(5);
  }

  lemma DecimalReads(v: int)
    requires IsInt32(v)
    ensures StrToL(Decimal(v)) == v && |Decimal(v)| <= 11
  {
    var n := if v < 0 then -v else v;
    DigitsValue(n);
    Pow10At10();
    DigitsLength(n, 10);
    var d := Digits(n);
    if v < 0 {
      assert Decimal(v)[1..] == d;
      assert d[0] != '0';
    } else {
      assert Decimal(v)[0] != '-';
      if d[0] == '0' {
        assert n == 0 && d == "0";
        assert OctalValue("0", 0) == OctalValue("", 0) == 0;
      }
    }
  }

  // ----- Lexing what is printed -----

  /** What may follow a printed operand: a blank, or the end outside all parentheses. */
  ghost predicate Delimited(rest: string, n: nat) {
    if rest == "" then n == 0 else rest[0] == ' '
  }

  lemma DecimalIsNumeral(v: int)
    requires IsInt32(v)
    ensures Numeral(Decimal(v), v)
  {
    DecimalReads(v);
    DigitsValue(if v < 0 then -v else v);
    StandsForIff(Decimal(v), v);
  }

  lemma LexNumber(v: int, rest: string, n: nat)
    requires IsInt32(v) && Delimited(rest, n)
    ensures Tokens(Decimal(v) + rest, WaitOperand, n) == [TVal(v)] + Tokens(rest, WaitOperator, n)
  {
    DecimalIsNumeral(v);
    ReadNumeral(Decimal(v), v, rest, n);
  }

  lemma LexBlank(s: string, st: LexState, n: int)
    requires st != WaitEndOperand
    ensures Tokens(" " + s, st, n) == Tokens(s, st, n)
  {
    assert (" " + s)[1..] == s;
  }

  lemma LexMark(c: char, s: string, st: LexState, n: nat)
    requires if st == WaitOperand then c == '!' || c == '(' else st == WaitOperator && (c == '&' || c == '|' || (c == ')' && n > 0))
    ensures Tokens([c] + s, st, n) ==
            match c
            case '(' => [TOpen] + Tokens(s, WaitOperand, n + 1)
            case ')' => [TClose] + Tokens(s, WaitOperator, n - 1)
            case _ => [TOpr(c)] + Tokens(s, WaitOperand, n)
  {
    assert ([c] + s)[1..] == s;
  }

  /** The token stream as a value, so that the proofs below do not unfold it. */
  type Scanner = (string, LexState, int) -> seq<Token>

  ghost predicate ScansAt(tk: Scanner, s: string, st: LexState, n: int) {
    st != WaitEndOperand ==> tk(s, st, n) == Tokens(s, st, n)
  }

  ghost predicate Scans(tk: Scanner) {
    forall s: string, st: LexState, n: int :: ScansAt(tk, s, st, n)
  }

  ghost function TheScanner(): (tk: Scanner)
    ensures Scans(tk)
  {
    (s: string, st: LexState, n: int) => if st == WaitEndOperand then [] else Tokens(s, st, n)
  }

  lemma ScanNumber(tk: Scanner, v: int, rest: string, n: nat)
    requires Scans(tk) && IsInt32(v) && Delimited(rest, n)
    ensures tk(Decimal(v) + rest, WaitOperand, n) == [TVal(v)] + tk(rest, WaitOperator, n)
  {
    LexNumber(v, rest, n);
    assert ScansAt(tk, Decimal(v) + rest, WaitOperand, n) && ScansAt(tk, rest, WaitOperator, n);
  }

  lemma ScanBang(tk: Scanner, s: string, n: nat)
    requires Scans(tk)
    ensures tk("!" + s, WaitOperand, n) == [TOpr('!')] + tk(s, WaitOperand, n)
  {
    LexMark('!', s, WaitOperand, n);
    assert ScansAt(tk, "!" + s, WaitOperand, n) && ScansAt(tk, s, WaitOperand, n);
  }

  lemma ScanOpen(tk: Scanner, s: string, n: nat)
    requires Scans(tk)
    ensures tk("( " + s, WaitOperand, n) == [TOpen] + tk(s, WaitOperand, n + 1)
  {
    assert "( " + s == ['('] + (" " + s);
    LexMark('(', " " + s, WaitOperand, n);
    LexBlank(s, WaitOperand, n + 1);
    assert ScansAt(tk, "( " + s, WaitOperand, n) && ScansAt(tk, s, WaitOperand, n + 1);
  }

  lemma ScanClose(tk: Scanner, s: string, n: nat)
    requires Scans(tk)
    ensures tk(" )" + s, WaitOperator, n + 1) == [TClose] + tk(s, WaitOperator, n)
  {
    assert " )" + s == " " + ([')'] + s);
    LexBlank([')'] + s, WaitOperator, n + 1);
    LexMark(')', s, WaitOperator, n + 1);
    assert ScansAt(tk, " )" + s, WaitOperator, n + 1) && ScansAt(tk, s, WaitOperator, n);
  }

  lemma ScanOperator(tk: Scanner, op: char, s: string, n: nat)
    requires Scans(tk) && (op == '&' || op == '|')
    ensures tk([' ', op, ' '] + s, WaitOperator, n) == [TOpr(op)] + tk(s, WaitOperand, n)
  {
    assert [' ', op, ' '] + s == " " + ([op] + (" " + s));
    LexBlank([op] + (" " + s), WaitOperator, n);
    LexMark(op, " " + s, WaitOperator, n);
    LexBlank(s, WaitOperand, n);
    assert ScansAt(tk, [' ', op, ' '] + s, WaitOperator, n) && ScansAt(tk, s, WaitOperand, n);
  }

  // ----- The sentence that is printed -----

  ghost function AndConcat(x: AndExpr, y: AndExpr): AndExpr {
    match y
    case AndOne(n) => AndMore(x, n)
    case AndMore(b, n) => AndMore(AndConcat(x, b), n)
  }

  lemma {:induction false} AndConcatTokens(x: AndExpr, y: AndExpr)
    ensures AndTokens(AndConcat(x, y)) == AndTokens(x) + [TOpr('&')] + AndTokens(y)
  {
    if y.AndMore? {
      AndConcatTokens(x, y.b);
      assert AndTokens(x) + [TOpr('&')] + AndTokens(y.b) + [TOpr('&')] + NegTokens(y.n)
          == AndTokens(x) + [TOpr('&')] + (AndTokens(y.b) + [TOpr('&')] + NegTokens(y.n));
    }
  }

  ghost function OrPrinted(t: Tree): OrExpr
    decreases t, 2
  {
    if t.Or? then OrMore(OrOne(AndPrinted(t.l)), AndPrinted(t.r)) else OrOne(AndPrinted(t))
  }

  ghost function AndPrinted(t: Tree): AndExpr
    decreases t, 1
  {
    if t.And? then AndConcat(AndPrinted(t.l), AndPrinted(t.r)) else AndOne(NegPrinted(t))
  }

  ghost function NegPrinted(t: Tree): NegExpr
    requires !t.And?
    decreases t, 0
  {
    match t
    case Val(v) => Plain(Num(v))
    case Not(a) => if a.Val? then Bang(Plain(Num(a.v))) else Bang(Plain(Paren(OrPrinted(a))))
    case Or(a, b) => Plain(Paren(OrMore(OrOne(AndPrinted(a)), AndPrinted(b))))
  }

  /** What the text of a tree is split into: the printed sentence, then whatever follows. */
  lemma {:induction false} PrintedTokens(tk: Scanner, t: Tree, first: bool, rest: string, n: nat)
    requires Scans(tk) && Int32Values(t) && Delimited(rest, n)
    ensures tk(Print(t, first) + rest, WaitOperand, n) ==
            (if first then OrTokens(OrPrinted(t)) else AndTokens(AndPrinted(t))) + tk(rest, WaitOperator, n)
    decreases Size(t), 0
  {
    match t
    case Val(v) =>
      ScanNumber(tk, v, rest, n);
      OneNegTokens(t);
      assert NegTokens(NegPrinted(t)) == PrimTokens(Num(v)) == [TVal(v)];
    case Not(a) =>
      PrintedNot(tk, a, rest, n);
      OneNegTokens(t);
    case And(a, b) =>
      PrintedBoth(tk, a, b, '&', rest, n);
      AndConcatTokens(AndPrinted(a), AndPrinted(b));
    case Or(a, b) =>
      if first {
        PrintedBoth(tk, a, b, '|', rest, n);
      } else {
        PrintedBoth(tk, a, b, '|', " )" + rest, n + 1);
        PrintedParen(tk, Print(a, false) + " | " + Print(b, false), OrPrinted(t), rest, n);
        OneNegTokens(t);
        assert NegTokens(NegPrinted(t)) == PrimTokens(Paren(OrPrinted(t)));
      }
  }

  lemma OneNegTokens(t: Tree)
    requires !t.And?
    ensures AndTokens(AndPrinted(t)) == NegTokens(NegPrinted(t))
    ensures !t.Or? ==> OrTokens(OrPrinted(t)) == NegTokens(NegPrinted(t))
  {
    assert AndPrinted(t) == AndOne(NegPrinted(t));
  }

  lemma PrintedParen(tk: Scanner, inner: string, o: OrExpr, rest: string, n: nat)
    requires Scans(tk)
    requires tk(inner + (" )" + rest), WaitOperand, n + 1) == OrTokens(o) + tk(" )" + rest, WaitOperator, n + 1)
    ensures tk("( " + inner + " )" + rest, WaitOperand, n) == PrimTokens(Paren(o)) + tk(rest, WaitOperator, n)
  {
    assert "( " + inner + " )" + rest == "( " + (inner + (" )" + rest));
    ScanOpen(tk, inner + (" )" + rest), n);
    ScanClose(tk, rest, n);
  }

  lemma BangBefore(tk: Scanner, body: string, p: Prim, rest: string, n: nat)
    requires Scans(tk) && tk(body + rest, WaitOperand, n) == PrimTokens(p) + tk(rest, WaitOperator, n)
    ensures tk("!" + body + rest, WaitOperand, n) == NegTokens(Bang(Plain(p))) + tk(rest, WaitOperator, n)
  {
    assert "!" + body + rest == "!" + (body + rest);
    ScanBang(tk, body + rest, n);
    assert NegTokens(Plain(p)) == PrimTokens(p);
  }

  lemma {:induction false} PrintedNot(tk: Scanner, a: Tree, rest: string, n: nat)
    requires Scans(tk) && Int32Values(a) && Delimited(rest, n)
    ensures tk(Print(Not(a), false) + rest, WaitOperand, n) == NegTokens(NegPrinted(Not(a))) + tk(rest, WaitOperator, n)
    decreases Size(a), 1
  {
    if a.Val? {
      ScanNumber(tk, a.v, rest, n);
      BangBefore(tk, Decimal(a.v), Num(a.v), rest, n);
    } else {
      PrintedTokens(tk, a, true, " )" + rest, n + 1);
      PrintedParen(tk, Print(a, true), OrPrinted(a), rest, n);
      BangBefore(tk, "( " + Print(a, true) + " )", Paren(OrPrinted(a)), rest, n);
      NotText("", Not(a));
    }
  }

  lemma {:induction false} PrintedBoth(tk: Scanner, a: Tree, b: Tree, op: char, rest: string, n: nat)
    requires Scans(tk) && Int32Values(a) && Int32Values(b) && Delimited(rest, n) && (op == '&' || op == '|')
    ensures tk(Print(a, false) + [' ', op, ' '] + Print(b, false) + rest, WaitOperand, n) ==
            AndTokens(AndPrinted(a)) + [TOpr(op)] + AndTokens(AndPrinted(b)) + tk(rest, WaitOperator, n)
    decreases Size(a) + Size(b), 0
  {
    var right := Print(b, false) + rest;
    var mid := [' ', op, ' '] + right;
    PrintedTokens(tk, a, false, mid, n);
    ScanOperator(tk, op, right, n);
    PrintedTokens(tk, b, false, rest, n);
    Regroup(Print(a, false), [' ', op, ' '], Print(b, false), rest);
    Regroup(AndTokens(AndPrinted(a)), [TOpr(op)], AndTokens(AndPrinted(b)), tk(rest, WaitOperator, n));
  }

  lemma Regroup<T>(a: seq<T>, b: seq<T>, c: seq<T>, d: seq<T>)
    ensures a + b + c + d == a + (b + (c + d))
  {}

  // ----- What the text parses back to -----

  /** Every negation in the chain fits above up to two other operators. */
  ghost predicate Shallow(a: AndExpr) {
    match a
    case AndOne(n) => ShallowNeg(n)
    case AndMore(b, n) => Shallow(b) && ShallowNeg(n)
  }

  ghost predicate ShallowNeg(n: NegExpr) {
    NegFits(n, 0) && NegFits(n, 1) && NegFits(n, 2)
  }

  lemma {:induction false} ShallowFits(a: AndExpr, base: nat)
    requires Shallow(a) && base <= 1
    ensures AndFits(a, base)
  {
    if a.AndMore? { ShallowFits(a.b, base); }
  }

  lemma {:induction false} ShallowConcat(x: AndExpr, y: AndExpr)
    requires Shallow(x) && Shallow(y)
    ensures Shallow(AndConcat(x, y))
  {
    if y.AndMore? { ShallowConcat(x, y.b); }
  }

  /** The printed sentence never needs more than three stack entries: one `|`, one `&` and one `!`. */
  lemma {:induction false} PrintedFits(t: Tree)
    ensures Shallow(AndPrinted(t)) && OrFits(OrPrinted(t))
  {
    match t
    case Val(_) =>
      assert ShallowNeg(NegPrinted(t));
      ShallowFits(AndPrinted(t), 0);
    case Not(a) =>
      PrintedFits(a);
      var n := NegPrinted(t);
      assert n.Bang? && NegFits(n.n, 1) && NegFits(n.n, 2) && NegFits(n.n, 3);
      assert ShallowNeg(n);
      ShallowFits(AndPrinted(t), 0);
    case And(a, b) =>
      PrintedFits(a);
      PrintedFits(b);
      ShallowConcat(AndPrinted(a), AndPrinted(b));
      ShallowFits(AndPrinted(t), 0);
    case Or(a, b) =>
      PrintedFits(a);
      PrintedFits(b);
      ShallowFits(AndPrinted(a), 0);
      ShallowFits(AndPrinted(b), 1);
      assert OrFits(OrPrinted(t));
      assert ShallowNeg(NegPrinted(t));
  }

  /** `x & y` with the `&` chain of `y` associated to the left. */
  ghost function AndJoin(x: Tree, y: Tree): Tree {
    if y.And? then And(AndJoin(x, y.l), y.r) else And(x, y)
  }

  /** The tree with every `&` chain associated to the left, and nothing else changed. */
  ghost function LeftAssoc(t: Tree): Tree {
    match t
    case Val(_) => t
    case Not(a) => Not(LeftAssoc(a))
    case And(a, b) => AndJoin(LeftAssoc(a), LeftAssoc(b))
    case Or(a, b) => Or(LeftAssoc(a), LeftAssoc(b))
  }

  lemma {:induction false} ConcatJoin(x: AndExpr, y: AndExpr)
    requires NoAndOperand(y)
    ensures AndTree(AndConcat(x, y)) == AndJoin(AndTree(x), AndTree(y))
  {
    if y.AndMore? { ConcatJoin(x, y.b); }
  }

  /** The operands of the chain are not themselves `&`. */
  ghost predicate NoAndOperand(a: AndExpr) {
    match a
    case AndOne(n) => !NegTree(n).And?
    case AndMore(b, n) => NoAndOperand(b) && !NegTree(n).And?
  }

  lemma {:induction false} ConcatNoAnd(x: AndExpr, y: AndExpr)
    requires NoAndOperand(x) && NoAndOperand(y)
    ensures NoAndOperand(AndConcat(x, y))
  {
    if y.AndMore? { ConcatNoAnd(x, y.b); }
  }

  lemma {:induction false} PrintedTree(t: Tree)
    ensures AndTree(AndPrinted(t)) == OrTree(OrPrinted(t)) == LeftAssoc(t) && NoAndOperand(AndPrinted(t))
  {
    match t
    case Val(v) => assert NegTree(Plain(Num(v))) == Val(v);
    case Not(a) =>
      PrintedTree(a);
      NegatedTree(a);
    case And(a, b) =>
      PrintedTree(a);
      PrintedTree(b);
      ConcatJoin(AndPrinted(a), AndPrinted(b));
      ConcatNoAnd(AndPrinted(a), AndPrinted(b));
    case Or(a, b) =>
      PrintedTree(a);
      PrintedTree(b);
      ParenTree(OrPrinted(t));
  }

  lemma ParenTree(o: OrExpr)
    ensures NegTree(Plain(Paren(o))) == OrTree(o)
  {
    assert PrimTree(Paren(o)) == OrTree(o);
  }

  lemma NegatedTree(a: Tree)
    requires OrTree(OrPrinted(a)) == LeftAssoc(a)
    ensures NegTree(NegPrinted(Not(a))) == Not(LeftAssoc(a))
  {
    if a.Val? {
      assert PrimTree(Num(a.v)) == Val(a.v);
      assert NegTree(Plain(Num(a.v))) == Val(a.v);
    } else {
      ParenTree(OrPrinted(a));
    }
  }

  lemma {:induction false} JoinMeans(x: Tree, y: Tree, p: int -> bool)
    ensures Eval(AndJoin(x, y), p) == (Eval(x, p) && Eval(y, p))
    ensures Print(AndJoin(x, y), false) == Print(x, false) + " & " + Print(y, false)
  {
    if y.And? {
      JoinMeans(x, y.l, p);
      assert Print(x, false) + " & " + Print(y.l, false) + " & " + Print(y.r, false)
          == Print(x, false) + " & " + (Print(y.l, false) + " & " + Print(y.r, false));
    }
  }

  /** Associating `&` to the left changes neither the value nor the text. */
  lemma {:induction false} LeftAssocSame(t: Tree, p: int -> bool)
    ensures Eval(LeftAssoc(t), p) == Eval(t, p)
    ensures LeftAssoc(t).Val? == t.Val? && LeftAssoc(t).Or? == t.Or?
    ensures Print(LeftAssoc(t), false) == Print(t, false) && Print(LeftAssoc(t), true) == Print(t, true)
  {
    match t
    case Val(_) =>
    case Not(a) => LeftAssocSame(a, p);
    case And(a, b) =>
      LeftAssocSame(a, p);
      LeftAssocSame(b, p);
      JoinMeans(LeftAssoc(a), LeftAssoc(b), p);
      assert Print(LeftAssoc(t), true) == Print(LeftAssoc(t), false);
    case Or(a, b) => LeftAssocSame(a, p); LeftAssocSame(b, p);
  }

  /** Printing and parsing: the text of any tree is accepted, whatever its depth, and compiles to the same
      tree with its `&` chains associated to the left; that tree has the same value on every array and
      prints as the same text. */
  lemma RoundTrip(t: Tree, p: int -> bool)
    requires Int32Values(t)
    ensures var c := OrPrinted(t);
            && Sentence(Tokens(Print(t, true), WaitOperand, 0), c)
            && OrTree(c) == LeftAssoc(t)
            && MakePol(Tokens(Print(t, true), WaitOperand, 0), []) == PolOk(Postfix(LeftAssoc(t)), [TEnd])
    ensures Eval(LeftAssoc(t), p) == Eval(t, p)
    ensures Print(LeftAssoc(t), true) == Print(t, true)
  {
    PrintedSentence(t);
    PrintedFits(t);
    PrintedTree(t);
    Complete(OrPrinted(t));
    LeftAssocSame(t, p);
  }

  lemma PrintedSentence(t: Tree)
    requires Int32Values(t)
    ensures Tokens(Print(t, true), WaitOperand, 0) == OrTokens(OrPrinted(t)) + [TEnd]
  {
    var tk, s := TheScanner(), Print(t, true);
    PrintedTokens(tk, t, true, "", 0);
    assert s + "" == s;
    assert ScansAt(tk, s, WaitOperand, 0) && ScansAt(tk, "", WaitOperator, 0);
    assert Tokens("", WaitOperator, 0) == [TEnd];
  }

  // ----- The printer -----

  /** `INFIX`: a cursor into the items and a growing buffer, whose last byte is kept for the NUL. */
  class Infix {
    var curpol: int
    var buf: string
    var buflen: nat

    ghost predicate Valid()
      reads this
    {
      |buf| < buflen
    }

    constructor (cur: int, len: nat)
      requires len > 0
      ensures curpol == cur && buf == "" && Valid()
    {
      curpol := cur;
      buf := "";
      buflen := len;
    }

    /** `RESIZEBUF` and the `sprintf` after it: the text always fits. */
    method Append(text: string, addsize: nat)
      requires Valid() && |text| <= addsize
      modifies this`buf, this`buflen
      ensures Valid() && buf == old(buf) + text
    {
      while |buf| + addsize + 1 >= buflen
        invariant Valid() && buf == old(buf)
        decreases |buf| + addsize + 1 - buflen
      {
        buflen := buflen * 2;
      }
      buf := buf + text;
    }

    /** `infix`: prints the expression that ends at the cursor and leaves the cursor before it. */
    method Out(items: seq<Item>, first: bool, ghost t: Tree)
      requires Valid() && Linked(items, t, curpol) && Int32Values(t)
      modifies this
      ensures Valid() && buf == old(buf) + Print(t, first) && curpol == old(curpol) - Size(t)
      decreases t, 1
    {
      LinkedNodes(items, t, curpol);
      var node := items[curpol].node;
      if node.NVal? {
        DecimalReads(node.v);
        Append(Decimal(node.v), 11);
        curpol := curpol - 1;
      } else if node.op == '!' {
        OutNot(items, t);
      } else {
        OutBoth(items, node.op, first, t);
      }
    }

    method OutNot(items: seq<Item>, ghost t: Tree)
      requires Valid() && t.Not? && Linked(items, t, curpol) && Int32Values(t)
      modifies this
      ensures Valid() && buf == old(buf) + Print(t, false) && curpol == old(curpol) - Size(t)
      decreases t, 0
    {
      LinkedNodes(items, t, curpol);
      Append("!", 1);
      curpol := curpol - 1;
      LinkedNodes(items, t.t, curpol);
      var isopr := items[curpol].node.NOpr?;
      if isopr {
        Append("( ", 2);
      }
      Out(items, isopr, t.t);
      if isopr {
        Append(" )", 2);
        NotText(old(buf), t);
      } else {
        assert old(buf) + "!" + Print(t.t, false) == old(buf) + ("!" + Print(t.t, false));
      }
    }

    /** The case of a binary operator: the right operand comes first in the items and last in the text. */
    method OutBoth(items: seq<Item>, op: char, first: bool, ghost t: Tree)
      requires Valid() && Binary(t) && op == OpOf(t) && Linked(items, t, curpol) && Int32Values(t)
      modifies this
      ensures Valid() && buf == old(buf) + Print(t, first) && curpol == old(curpol) - Size(t)
      decreases t, 0
    {
      LinkedNodes(items, t, curpol);
      curpol := curpol - 1;
      if op == '|' && !first {
        Append("( ", 2);
      }
      var right;
      right, curpol := Operand(items, curpol, t.r);
      Out(items, false, t.l);
      Append([' ', op, ' '] + right, 3 + |right|);
      if op == '|' && !first {
        Append(" )", 2);
      }
      BothText(old(buf), t, first);
    }

    /** The right operand, printed into a buffer of its own. */
    static method Operand(items: seq<Item>, cur: int, ghost t: Tree) returns (text: string, cur': int)
      requires Linked(items, t, cur) && Int32Values(t)
      ensures text == Print(t, false) && cur' == cur - Size(t)
      decreases t, 2
    {
      var nrm := new Infix(cur, 16);
      nrm.Out(items, false, t);
      assert "" + Print(t, false) == Print(t, false);
      text, cur' := nrm.buf, nrm.curpol;
    }
  }

  lemma NotText(x: string, t: Tree)
    requires t.Not? && !t.t.Val?
    ensures x + "!" + "( " + Print(t.t, true) + " )" == x + Print(t, false)
    ensures "!" + ("( " + Print(t.t, true) + " )") == Print(t, false)
  {
    assert Print(t, false) == "!" + "( " + Print(t.t, true) + " )";
  }

  lemma BothText(x: string, t: Tree, first: bool)
    requires Binary(t)
    ensures var l, m, r := Print(t.l, false), [' ', OpOf(t), ' '], Print(t.r, false);
            x + Print(t, first) == if t.Or? && !first then x + "( " + l + (m + r) + " )" else x + l + (m + r)
  {
    var l, m, r := Print(t.l, false), [' ', OpOf(t), ' '], Print(t.r, false);
    assert " & " == [' ', '&', ' '] && " | " == [' ', '|', ' '];
    RegroupText(x, l, m, r);
    assert Print(t, first) == if t.Or? && !first then "( " + (l + m + r) + " )" else l + m + r;
  }

  lemma RegroupText(x: string, l: string, m: string, r: string)
    ensures x + (l + m + r) == x + l + (m + r)
    ensures x + ("( " + (l + m + r) + " )") == x + "( " + l + (m + r) + " )"
  {}

  /** `bqarr_out`. */
  method BqarrOut(items: seq<Item>, ghost t: Tree) returns (text: string)
    requires Compiles(items, t) && Int32Values(t)
    ensures text == Print(t, true)
  {
    var nrm := new Infix(|items| - 1, 32);
    nrm.Out(items, true, t);
    assert "" + Print(t, true) == Print(t, true);
    text := nrm.buf;
  }

  // ----- Output and input composed -----

  lemma {:induction false} JoinSize(x: Tree, y: Tree)
    ensures Size(AndJoin(x, y)) == Size(x) + Size(y) + 1
  {
    if y.And? { JoinSize(x, y.l); }
  }

  lemma {:induction false} LeftAssocSize(t: Tree)
    ensures Size(LeftAssoc(t)) == Size(t)
  {
    match t
    case Val(_) =>
    case Not(a) => LeftAssocSize(a);
    case And(a, b) => LeftAssocSize(a); LeftAssocSize(b); JoinSize(LeftAssoc(a), LeftAssoc(b));
    case Or(a, b) => LeftAssocSize(a); LeftAssocSize(b);
  }

  lemma SameSentence(ts: seq<Token>, c: OrExpr, d: OrExpr)
    requires ts == OrTokens(c) + [TEnd] == OrTokens(d) + [TEnd]
    ensures OrTree(c) == OrTree(d)
  {
    assert OrTokens(c) == ts[..|ts| - 1] == OrTokens(d);
    Unambiguous(c, d);
  }

  /** Whatever input makes of the text of a query, it is the query with its `&` chains associated to the left. */
  lemma PrintedInput(t: Tree, q: Query)
    requires Int32Values(t) && Size(t) <= QUERYTYPEMAXITEMS && InputIs(Tokens(Print(t, true), WaitOperand, 0), q)
    ensures q.Query? && Compiles(q.items, LeftAssoc(t)) && Int32Values(LeftAssoc(t))
  {
    var ts, c := Tokens(Print(t, true), WaitOperand, 0), OrPrinted(t);
    RoundTrip(t, v => false);
    LeftAssocSize(t);
    assert Sentence(ts, c);
    match q
    case Query(items) =>
      var u: Tree :| CompilesTo(ts, items, u);
      var d: OrExpr :| Sentence(ts, d) && OrTree(d) == u;
      SameSentence(ts, c, d);
    case TooManyItemsErr =>
      var d: OrExpr :| Sentence(ts, d) && Size(OrTree(d)) > QUERYTYPEMAXITEMS;
      SameSentence(ts, c, d);
    case SyntaxErr =>
    case TooComplexErr =>
  }

  /** Output and input again: the text of a compiled query is accepted and compiles to a query with the same
      value on every array and the same text. */
  method OutAndIn(items: seq<Item>, ghost t: Tree, ghost p: int -> bool) returns (text: string, q: Query)
    requires Compiles(items, t) && Int32Values(t) && |items| <= QUERYTYPEMAXITEMS
    ensures q.Query? && Compiles(q.items, LeftAssoc(t)) && Int32Values(LeftAssoc(t))
    ensures text == Print(t, true) == Print(LeftAssoc(t), true) && Eval(LeftAssoc(t), p) == Eval(t, p)
  {
    text := BqarrOut(items, t);
    q := BqarrIn(text);
    PrintedInput(t, q);
    LeftAssocSame(t, p);
  }

  /** Input, output and input again: printing what was read and reading it again settles after one round. */
  method InOutIn(text: string) returns (q: Query, printed: string, back: Query)
    ensures InputIs(Tokens(text, WaitOperand, 0), q)
    ensures q.Query? ==> back.Query?
    ensures q.Query? ==> exists t: Tree ::
              CompilesTo(Tokens(text, WaitOperand, 0), q.items, t) && printed == Print(t, true) && Compiles(back.items, LeftAssoc(t))
  {
    q := BqarrIn(text);
    printed, back := "", q;
    if q.Query? {
      ghost var t: Tree :| CompilesTo(Tokens(text, WaitOperand, 0), q.items, t);
      printed, back := OutAndIn(q.items, t, v => false);
    }
  }

  // ----- Links that do not fit -----

  /** A link that wraps leads forward. */
  lemma WrappedLink(n: nat)
    requires 0x8000 <= n < 0xffff
    ensures Int16(-1 - n) > 0
  {}

  /** Input accepts the text of a disjunction with a right operand of 32768 to 65534 items, and the link of its
      last item leads behind the items, where `execute` then reads. */
  lemma LongOperandOverruns(b: Tree, q: Query)
    requires Int32Values(b) && 0x8000 <= Size(b) < 0xffff
    requires InputIs(Tokens(Print(Or(Val(1), b), true), WaitOperand, 0), q)
    ensures q.Query? && |q.items| - 1 + q.items[|q.items| - 1].left >= |q.items|
  {
    var t := Or(Val(1), b);
    PrintedInput(t, q);
    LeftAssocSize(b);
    var u := LeftAssoc(t);
    assert LeftAssoc(Val(1)) == Val(1);
    assert u == Or(Val(1), LeftAssoc(b));
    assert LinkedBoth(q.items, u, |q.items| - 1);
    WrappedLink(Size(b));
  }

  /** A conjunction of equal halves, `k` levels deep. */
  ghost function Balanced(k: nat): Tree {
    if k == 0 then Val(1) else And(Balanced(k - 1), Balanced(k - 1))
  }

  ghost function Pow2(k: nat): nat {
    if k == 0 then 1 else 2 * Pow2(k - 1)
  }

  lemma {:induction false} BalancedSize(k: nat)
    ensures Size(Balanced(k)) + 1 == Pow2(k + 1) && Int32Values(Balanced(k))
  {
    if k > 0 { BalancedSize(k - 1); }
  }

  /** There is such an operand: 32768 items, 15 levels deep. */
  lemma LongOperandExists()
    ensures Size(Not(Balanced(14))) == 0x8000 && Int32Values(Not(Balanced(14)))
  {
    BalancedSize(14);
    assert Pow2(5) == 32;
    assert Pow2(10) == 32 * Pow2(5);
    assert Pow2(15) == 32 * Pow2(10);
  }
}
