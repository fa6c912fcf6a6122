/** Compiled queries: `findoprnd`, `execute`, `bqarr_in` and the GIN support built on them. */
module QueryItems {
  import opened Basics
  import opened QueryGrammar
  import opened QueryText

  /** `ITEM`: a postfix item and the distance to its left operand. */
  datatype Item = Item(node: Node, left: int)

  ghost function Size(t: Tree): (n: nat)
    ensures n > 0
  {
    match t
    case Val(_) => 1
    case Not(a) => Size(a) + 1
    case And(a, b) => Size(a) + Size(b) + 1
    case Or(a, b) => Size(a) + Size(b) + 1
  }

  /** `(int16) x` */
  function Int16(x: int): int {
    (x + 0x8000) % 0x1_0000 - 0x8000
  }

  /** Every distance to a left operand fits its 16 bits. */
  ghost predicate ShortLinks(t: Tree) {
    match t
    case Val(_) => true
    case Not(a) => ShortLinks(a)
    case And(a, b) => ShortLinks(a) && ShortLinks(b) && Size(b) < 0x8000
    case Or(a, b) => ShortLinks(a) && ShortLinks(b) && Size(b) < 0x8000
  }

  lemma {:induction false} SmallQueriesLink(t: Tree)
    requires Size(t) <= 0x8000
    ensures ShortLinks(t)
  {
    match t
    case Val(_) =>
    case Not(a) => SmallQueriesLink(a);
    case And(a, b) => SmallQueriesLink(a); SmallQueriesLink(b);
    case Or(a, b) => SmallQueriesLink(a); SmallQueriesLink(b);
  }

  ghost predicate Binary(t: Tree) {
    t.And? || t.Or?
  }

  ghost function OpOf(t: Tree): char {
    match t
    case And(_, _) => '&'
    case Or(_, _) => '|'
    case _ => '!'
  }

  /** The nodes up to and including `end` finish with the postfix form of `t`. */
  ghost predicate Spells(nodes: seq<Node>, t: Tree, end: int)
    decreases t, 1
  {
    && Size(t) <= end + 1 <= |nodes|
    && match t
       case Val(v) => nodes[end] == NVal(v)
       case Not(a) => nodes[end] == NOpr('!') && Spells(nodes, a, end - 1)
       case _ => SpellsBoth(nodes, t, end)
  }

  ghost predicate SpellsBoth(nodes: seq<Node>, t: Tree, end: int)
    requires Binary(t) && 0 <= end < |nodes|
    decreases t, 0
  {
    nodes[end] == NOpr(OpOf(t)) && Spells(nodes, t.r, end - 1) && Spells(nodes, t.l, end - 1 - Size(t.r))
  }

  /** The items up to and including `end` finish with `t`, each operator knowing its left operand. */
  ghost predicate Linked(items: seq<Item>, t: Tree, end: int)
    decreases t, 1
  {
    && Size(t) <= end + 1 <= |items|
    && match t
       case Val(v) => items[end] == Item(NVal(v), 0)
       case Not(a) => items[end] == Item(NOpr('!'), -1) && Linked(items, a, end - 1)
       case _ => LinkedBoth(items, t, end)
  }

  ghost predicate LinkedBoth(items: seq<Item>, t: Tree, end: int)
    requires Binary(t) && 0 <= end < |items|
    decreases t, 0
  {
    && items[end] == Item(NOpr(OpOf(t)), Int16(-1 - Size(t.r)))
    && Linked(items, t.r, end - 1) && Linked(items, t.l, end - 1 - Size(t.r))
  }

  /** Every binary operator's link leads to its left operand. */
  ghost predicate LinksLead(items: seq<Item>, t: Tree, end: int)
    requires Linked(items, t, end)
    decreases t, 1
  {
    match t
    case Val(_) => true
    case Not(a) => LinksLead(items, a, end - 1)
    case _ => LinksLeadBoth(items, t, end)
  }

  ghost predicate LinksLeadBoth(items: seq<Item>, t: Tree, end: int)
    requires Binary(t) && 0 <= end < |items| && LinkedBoth(items, t, end)
    decreases t, 0
  {
    items[end].left == -1 - Size(t.r) && LinksLead(items, t.r, end - 1) && LinksLead(items, t.l, end - 1 - Size(t.r))
  }

  /** The links of a compiled query lead to the left operands if and only if no right operand has more than
      32767 items. */
  lemma {:induction false} LinksLeadIff(items: seq<Item>, t: Tree, end: int)
    requires Linked(items, t, end)
    ensures LinksLead(items, t, end) <==> ShortLinks(t)
    decreases t
  {
    match t
    case Val(_) =>
    case Not(a) => LinksLeadIff(items, a, end - 1);
    case _ =>
      LinkFits(Size(t.r));
      LinksLeadIff(items, t.r, end - 1);
      LinksLeadIff(items, t.l, end - 1 - Size(t.r));
  }

  /** A link survives 16 bits if and only if the operand is short enough. */
  lemma LinkFits(n: nat)
    requires n > 0
    ensures Int16(-1 - n) == -1 - n <==> n < 0x8000
  {}

  lemma {:induction false} PostfixSize(t: Tree)
    ensures |Postfix(t)| == Size(t)
  {
    match t
    case Val(_) =>
    case Not(a) => PostfixSize(a);
    case And(a, b) => PostfixSize(a); PostfixSize(b);
    case Or(a, b) => PostfixSize(a); PostfixSize(b);
  }

  lemma {:induction false} PostfixSpells(before: seq<Node>, t: Tree, after: seq<Node>)
    ensures Spells(before + Postfix(t) + after, t, |before| + Size(t) - 1)
    decreases t, 1
  {
    PostfixSize(t);
    match t
    case Val(_) =>
    case Not(a) =>
      PostfixSpells(before, a, [NOpr('!')] + after);
      assert before + Postfix(t) + after == before + Postfix(a) + ([NOpr('!')] + after);
    case _ => BinarySpells(before, t, after);
  }

  lemma {:induction false} BinarySpells(before: seq<Node>, t: Tree, after: seq<Node>)
    requires Binary(t) && |Postfix(t)| == Size(t)
    ensures SpellsBoth(before + Postfix(t) + after, t, |before| + Size(t) - 1)
    decreases t, 0
  {
    PostfixSize(t.l);
    PostfixSize(t.r);
    var op := [NOpr(OpOf(t))];
    var nodes := before + Postfix(t) + after;
    PostfixSpells(before, t.l, Postfix(t.r) + op + after);
    assert nodes == before + Postfix(t.l) + (Postfix(t.r) + op + after);
    PostfixSpells(before + Postfix(t.l), t.r, op + after);
    assert nodes == before + Postfix(t.l) + Postfix(t.r) + (op + after);
  }

  lemma {:induction false} LinkedFrame(items: seq<Item>, items': seq<Item>, t: Tree, end: int)
    requires Linked(items, t, end) && |items'| == |items|
    requires forall i :: end - Size(t) < i <= end ==> items'[i] == items[i]
    ensures Linked(items', t, end)
  {
    match t
    case Val(_) =>
    case Not(a) => LinkedFrame(items, items', a, end - 1);
    case _ =>
      LinkedFrame(items, items', t.r, end - 1);
      LinkedFrame(items, items', t.l, end - 1 - Size(t.r));
  }

  ghost predicate SameNodes(items: seq<Item>, nodes: seq<Node>) {
    |items| == |nodes| && forall i :: 0 <= i < |items| ==> items[i].node == nodes[i]
  }

  /** `n` positions downwards from `p`. */
  ghost function Down(p: int, n: nat): seq<int> {
    seq(n, i => p - i)
  }

  lemma DownConcat(p: int, n: nat, m: nat)
    ensures Down(p, n) + Down(p - n, m) == Down(p, n + m)
  {}

  /** `findoprnd`: links the expression that ends at `pos0` and returns the position before it. It visits
      the items of the expression one by one, from last to first. */
  method FindOprnd(ptr: array<Item>, pos0: int, ghost nodes: seq<Node>, ghost t: Tree) returns (pos: int, ghost visits: seq<int>)
    requires SameNodes(ptr[..], nodes) && Spells(nodes, t, pos0)
    modifies ptr
    ensures SameNodes(ptr[..], nodes) && pos == pos0 - Size(t) && Linked(ptr[..], t, pos0)
    ensures forall i :: 0 <= i < ptr.Length && !(pos < i <= pos0) ==> ptr[i] == old(ptr[i])
    ensures visits == Down(pos0, Size(t))
    decreases t, 1
  {
    pos := pos0;
    visits := Down(pos0, 1);
    assert ptr[..][pos].node == nodes[pos];
    if ptr[pos].node.NVal? {
      ptr[pos] := ptr[pos].(left := 0);
      pos := pos - 1;
    } else if ptr[pos].node.op == '!' {
      ptr[pos] := ptr[pos].(left := -1);
      pos := pos - 1;
      ghost var vs;
      pos, vs := FindOprnd(ptr, pos, nodes, t.t);
      DownConcat(pos0, 1, Size(t.t));
      visits := visits + vs;
    } else {
      pos, visits := FindBoth(ptr, pos0, nodes, t);
    }
  }

  /** The case of a binary operator: the right operand stands next to it, the left operand before that. */
  method FindBoth(ptr: array<Item>, tmp: int, ghost nodes: seq<Node>, ghost t: Tree) returns (pos: int, ghost visits: seq<int>)
    requires SameNodes(ptr[..], nodes) && Binary(t) && Spells(nodes, t, tmp)
    modifies ptr
    ensures SameNodes(ptr[..], nodes) && pos == tmp - Size(t) && LinkedBoth(ptr[..], t, tmp)
    ensures forall i :: 0 <= i < ptr.Length && !(pos < i <= tmp) ==> ptr[i] == old(ptr[i])
    ensures visits == Down(tmp, Size(t))
    decreases t, 0
  {
    pos := tmp - 1;
    ghost var vs, ws;
    pos, vs := FindOprnd(ptr, pos, nodes, t.r);
    ghost var before := ptr[..];
    assert ptr[..][tmp].node == nodes[tmp];
    ptr[tmp] := ptr[tmp].(left := Int16(pos - tmp));
    pos, ws := FindOprnd(ptr, pos, nodes, t.l);
    assert forall i :: tmp - 1 - Size(t.r) < i <= tmp - 1 ==> ptr[..][i] == before[i];
    LinkedFrame(before, ptr[..], t.r, tmp - 1);
    DownConcat(tmp, 1, Size(t.r));
    DownConcat(tmp, 1 + Size(t.r), Size(t.l));
    visits := Down(tmp, 1) + vs + ws;
  }

  // ----- Input -----

  const QUERYTYPEMAXITEMS := (0x3fff_ffff - 8) / 8

  datatype Query = Query(items: seq<Item>) | SyntaxErr | TooComplexErr | TooManyItemsErr

  /** The compiled form of a tree. */
  ghost predicate Compiles(items: seq<Item>, t: Tree) {
    |items| == Size(t) && Linked(items, t, |items| - 1)
  }

  /** The tokens spell the sentence `c`, which the operator stack can hold. */
  ghost predicate Sentence(ts: seq<Token>, c: OrExpr) {
    ts == OrTokens(c) + [TEnd] && OrFits(c)
  }

  /** Every value is a 32-bit integer. */
  ghost predicate Int32Values(t: Tree) {
    match t
    case Val(v) => IsInt32(v)
    case Not(a) => Int32Values(a)
    case And(a, b) => Int32Values(a) && Int32Values(b)
    case Or(a, b) => Int32Values(a) && Int32Values(b)
  }

  /** The items are those of the tree of a sentence. */
  ghost predicate CompilesTo(ts: seq<Token>, items: seq<Item>, t: Tree) {
    Compiles(items, t) && Int32Values(t) && exists c: OrExpr :: Sentence(ts, c) && OrTree(c) == t
  }

  /** What `bqarr_in` makes of the tokens of a text. */
  ghost predicate InputIs(ts: seq<Token>, q: Query) {
    match q
    case Query(items) => |items| <= 134217726 && exists t: Tree :: CompilesTo(ts, items, t)
    case SyntaxErr => forall c: OrExpr :: ts != OrTokens(c) + [TEnd]
    case TooComplexErr => forall c: OrExpr :: !Sentence(ts, c)
    case TooManyItemsErr => exists c: OrExpr :: Sentence(ts, c) && Size(OrTree(c)) > 134217726
  }

  /** `bqarr_in`. The query is a sentence of the grammar, compiled to the linked postfix form of its tree; or the
      text is no sentence, no sentence that the stack can hold, or one with too many items. */
  method BqarrIn(text: string) returns (q: Query)
    ensures InputIs(Tokens(text, WaitOperand, 0), q)
  {
    var state := new WorkState(text);
    var o := state.MakePolish();
    if o == SyntaxError {
      NoSentence(Tokens(text, WaitOperand, 0));
      return SyntaxErr;
    }
    if o == StatementTooComplex {
      NoSentence(Tokens(text, WaitOperand, 0));
      return TooComplexErr;
    }
    ghost var c := SentenceOf(text);
    q := BuildQuery(state.str, state.num, state.Pushed(), c);
    if q.Query? {
      SentenceInt32(text, c);
      assert CompilesTo(Tokens(text, WaitOperand, 0), q.items, OrTree(c));
    }
  }

  /** What `makepol` rejects is no sentence, or none that fits. */
  lemma NoSentence(ts: seq<Token>)
    ensures MakePol(ts, []) == PolErr ==> forall c: OrExpr :: ts != OrTokens(c) + [TEnd]
    ensures MakePol(ts, []) == TooComplex ==> forall c: OrExpr :: !Sentence(ts, c)
  {
    forall c: OrExpr ensures ts == OrTokens(c) + [TEnd] ==> MakePol(ts, []) == if OrFits(c) then PolOk(Postfix(OrTree(c)), [TEnd]) else TooComplex {
      Complete(c);
    }
  }

  method BuildQuery(str: seq<Node>, num: nat, ghost nodes: seq<Node>, ghost c: OrExpr) returns (q: Query)
    requires nodes == Reversed(str) == Postfix(OrTree(c)) && num == |str|
    ensures q.Query? || q.TooManyItemsErr?
    ensures q.Query? ==> |q.items| <= QUERYTYPEMAXITEMS && Compiles(q.items, OrTree(c))
    ensures q.TooManyItemsErr? ==> Size(OrTree(c)) > QUERYTYPEMAXITEMS
  {
    ReversedSize(str);
    WholeSpells(nodes, OrTree(c));
    if num > QUERYTYPEMAXITEMS {
      return TooManyItemsErr;
    }
    var items := LinkItems(str, nodes, OrTree(c));
    return Query(items);
  }

  // ----- Values of queries -----

  lemma {:induction false} TokenInt32(s: string, st: LexState, count: nat, k: nat)
    requires st != WaitEndOperand && k < |Tokens(s, st, count)| && Tokens(s, st, count)[k].TVal?
    ensures IsInt32(Tokens(s, st, count)[k].v)
    decreases |s|
  {
    var r := Lex(s, st, count, "");
    LexOrder(s, st, count, "");
    if k > 0 { TokenInt32(r.rest, r.st, r.count, k - 1); }
  }

  ghost predicate Int32Tokens(ts: seq<Token>) {
    forall k :: 0 <= k < |ts| && ts[k].TVal? ==> IsInt32(ts[k].v)
  }

  lemma Int32Part(a: seq<Token>, b: seq<Token>)
    requires Int32Tokens(a + b)
    ensures Int32Tokens(a) && Int32Tokens(b)
  {
    forall k | 0 <= k < |a| && a[k].TVal? ensures IsInt32(a[k].v) { assert (a + b)[k] == a[k]; }
    forall k | 0 <= k < |b| && b[k].TVal? ensures IsInt32(b[k].v) { assert (a + b)[|a| + k] == b[k]; }
  }

  lemma {:induction false} OrInt32(o: OrExpr)
    requires Int32Tokens(OrTokens(o))
    ensures Int32Values(OrTree(o))
  {
    match o
    case OrOne(a) => AndInt32(a);
    case OrMore(b, a) =>
      Int32Part(OrTokens(b) + [TOpr('|')], AndTokens(a));
      Int32Part(OrTokens(b), [TOpr('|')]);
      OrInt32(b);
      AndInt32(a);
  }

  lemma {:induction false} AndInt32(a: AndExpr)
    requires Int32Tokens(AndTokens(a))
    ensures Int32Values(AndTree(a))
  {
    match a
    case AndOne(n) => NegInt32(n);
    case AndMore(b, n) =>
      Int32Part(AndTokens(b) + [TOpr('&')], NegTokens(n));
      Int32Part(AndTokens(b), [TOpr('&')]);
      AndInt32(b);
      NegInt32(n);
  }

  lemma {:induction false} NegInt32(n: NegExpr)
    requires Int32Tokens(NegTokens(n))
    ensures Int32Values(NegTree(n))
  {
    match n
    case Bang(m) => Int32Part([TOpr('!')], NegTokens(m)); NegInt32(m);
    case Plain(p) => PrimInt32(p);
  }

  lemma {:induction false} PrimInt32(p: Prim)
    requires Int32Tokens(PrimTokens(p))
    ensures Int32Values(PrimTree(p))
  {
    match p
    case Num(v) => assert PrimTokens(p)[0] == TVal(v);
    case Paren(o) =>
      Int32Part([TOpen] + OrTokens(o), [TClose]);
      Int32Part([TOpen], OrTokens(o));
      OrInt32(o);
  }

  lemma SentenceInt32(text: string, c: OrExpr)
    requires Sentence(Tokens(text, WaitOperand, 0), c)
    ensures Int32Values(OrTree(c))
  {
    var ts := Tokens(text, WaitOperand, 0);
    forall k | 0 <= k < |ts| && ts[k].TVal? ensures IsInt32(ts[k].v) { TokenInt32(text, WaitOperand, 0, k); }
    Int32Part(OrTokens(c), [TEnd]);
    OrInt32(c);
  }

  lemma WholeSpells(nodes: seq<Node>, t: Tree)
    requires nodes == Postfix(t)
    ensures |nodes| == Size(t) && Spells(nodes, t, |nodes| - 1)
  {
    PostfixSize(t);
    PostfixSpells([], t, []);
    assert [] + Postfix(t) + [] == Postfix(t);
  }

  /** The postfix list becomes an array with its links. */
  method LinkItems(str: seq<Node>, ghost nodes: seq<Node>, ghost t: Tree) returns (items: seq<Item>)
    requires nodes == Reversed(str) && |nodes| == Size(t) && Spells(nodes, t, |nodes| - 1)
    ensures Compiles(items, t)
  {
    var ptr := CopyItems(str, nodes);
    var pos;
    ghost var visits;
    pos, visits := FindOprnd(ptr, ptr.Length - 1, nodes, t);
    items := ptr[..];
  }

  /** The sentence behind an accepted text. */
  lemma SentenceOf(text: string) returns (c: OrExpr)
    requires MakePol(Tokens(text, WaitOperand, 0), []).PolOk?
    ensures Sentence(Tokens(text, WaitOperand, 0), c)
    ensures MakePol(Tokens(text, WaitOperand, 0), []).out == Postfix(OrTree(c))
  {
    var ts := Tokens(text, WaitOperand, 0);
    TokensFollow(text, WaitOperand, 0);
    c := Sound(ts);
    EndIsLast(text, WaitOperand, 0, |OrTokens(c)|);
    var rest := MakePol(ts, []).rest;
    assert rest == [TEnd];
    Complete(c);
  }

  /** Nothing follows the end. */
  lemma {:induction false} EndIsLast(s: string, st: LexState, count: int, k: nat)
    requires st != WaitEndOperand && k < |Tokens(s, st, count)| && Tokens(s, st, count)[k] == TEnd
    ensures k == |Tokens(s, st, count)| - 1
    decreases |s|
  {
    var r := Lex(s, st, count, "");
    if r.tok != TEnd && r.tok != TErr {
      EndIsLast(r.rest, r.st, r.count, k - 1);
    }
  }

  lemma {:induction false} ReversedSize(s: seq<Node>)
    ensures |Reversed(s)| == |s|
    ensures forall i :: 0 <= i < |s| ==> Reversed(s)[i] == s[|s| - 1 - i]
  {
    if s != [] { ReversedSize(s[1..]); }
  }

  /** The list of nodes, last first, is copied into the item array from its end. */
  method CopyItems(str: seq<Node>, ghost nodes: seq<Node>) returns (ptr: array<Item>)
    requires nodes == Reversed(str)
    ensures fresh(ptr) && SameNodes(ptr[..], nodes)
  {
    ReversedSize(str);
    var num := |str|;
    ptr := new Item[num](_ => Item(NVal(0), 0));
    var i, tmp := num - 1, str;
    while i >= 0
      invariant -1 <= i < num && tmp == str[num - 1 - i..]
      invariant forall k :: i < k < num ==> ptr[k].node == nodes[k]
    {
      ptr[i] := Item(tmp[0], 0);
      tmp := tmp[1..];
      i := i - 1;
    }
  }

  // ----- Evaluation -----

  /** The Boolean value of a query when `p` says which values are present. */
  ghost predicate Eval(t: Tree, p: int -> bool) {
    match t
    case Val(v) => p(v)
    case Not(a) => !Eval(a, p)
    case And(a, b) => Eval(a, p) && Eval(b, p)
    case Or(a, b) => Eval(a, p) || Eval(b, p)
  }

  /** The same with every negation taken for true. */
  ghost predicate EvalLoose(t: Tree, p: int -> bool) {
    match t
    case Val(v) => p(v)
    case Not(a) => true
    case And(a, b) => EvalLoose(a, p) && EvalLoose(b, p)
    case Or(a, b) => EvalLoose(a, p) || EvalLoose(b, p)
  }

  /** The laws of the operators. */
  lemma EvalLaws(a: Tree, b: Tree, p: int -> bool)
    ensures Eval(Or(a, Not(a)), p) && !Eval(And(a, Not(a)), p)
    ensures Eval(Not(And(a, b)), p) == Eval(Or(Not(a), Not(b)), p)
    ensures Eval(Not(Or(a, b)), p) == Eval(And(Not(a), Not(b)), p)
    ensures Eval(And(a, Or(a, b)), p) == Eval(a, p) == Eval(Or(a, And(a, b)), p)
  {
    assert forall t: Tree :: Eval(Not(t), p) == !Eval(t, p);
  }

  /** What the node of an item tells about the tree it ends. */
  lemma LinkedNodes(items: seq<Item>, t: Tree, cur: int)
    requires Linked(items, t, cur)
    ensures 0 <= cur < |items|
    ensures items[cur].node == match t case Val(v) => NVal(v) case _ => NOpr(OpOf(t))
    ensures t.Not? ==> Linked(items, t.t, cur - 1)
    ensures Binary(t) ==> Linked(items, t.r, cur - 1) && Linked(items, t.l, cur - 1 - Size(t.r))
  {
    if Binary(t) { assert LinkedBoth(items, t, cur); }
  }

  /** What an item tells about the tree it ends. */
  lemma LinkedParts(items: seq<Item>, t: Tree, cur: int)
    requires Linked(items, t, cur) && ShortLinks(t)
    ensures 0 <= cur < |items|
    ensures items[cur].node == match t case Val(v) => NVal(v) case _ => NOpr(OpOf(t))
    ensures t.Not? ==> Linked(items, t.t, cur - 1)
    ensures Binary(t) ==> Linked(items, t.r, cur - 1) && Linked(items, t.l, cur + items[cur].left)
                          && items[cur].left == -1 - Size(t.r)
  {
    if Binary(t) { assert LinkedBoth(items, t, cur); }
  }

  /** `execute`: `chk` is the primitive test on the item at a position. */
  predicate Execute(items: seq<Item>, cur: int, calcnot: bool, chk: int -> bool, ghost t: Tree)
    requires Linked(items, t, cur) && ShortLinks(t)
    decreases t
  {
    LinkedParts(items, t, cur);
    var it := items[cur];
    if it.node.NVal? then chk(cur)
    else if it.node.op == '!' then
      if calcnot then !Execute(items, cur - 1, calcnot, chk, t.t) else true
    else if it.node.op == '&' then
      if Execute(items, cur + it.left, calcnot, chk, t.l) then Execute(items, cur - 1, calcnot, chk, t.r) else false
    else
      if Execute(items, cur + it.left, calcnot, chk, t.l) then true else Execute(items, cur - 1, calcnot, chk, t.r)
  }

  /** `chk` tests the value of an item with `p`. */
  ghost predicate Tests(items: seq<Item>, chk: int -> bool, p: int -> bool) {
    forall i :: 0 <= i < |items| && items[i].node.NVal? ==> chk(i) == p(items[i].node.v)
  }

  /** Over the linked items `execute` computes the value of the tree, or with `calcnot` off the loose one. */
  lemma {:induction false} ExecuteIsEval(items: seq<Item>, cur: int, calcnot: bool, chk: int -> bool, t: Tree, p: int -> bool)
    requires Linked(items, t, cur) && ShortLinks(t) && Tests(items, chk, p)
    ensures Execute(items, cur, calcnot, chk, t) == if calcnot then Eval(t, p) else EvalLoose(t, p)
  {
    match t
    case Val(v) =>
    case Not(a) => if calcnot { ExecuteIsEval(items, cur - 1, calcnot, chk, a, p); }
    case _ =>
      LinkedParts(items, t, cur);
      ExecuteIsEval(items, cur - 1 - Size(t.r), calcnot, chk, t.l, p);
      ExecuteIsEval(items, cur - 1, calcnot, chk, t.r, p);
  }

  /** `execute` with `checkcondition_arr`: each value is looked up in a sorted array. */
  method ExecuteArr(items: seq<Item>, cur: int, calcnot: bool, a: seq<int>, ghost t: Tree, ghost p: int -> bool) returns (r: bool)
    requires Linked(items, t, cur) && ShortLinks(t) && NonDescending(a) && forall v :: p(v) <==> v in a
    ensures r == if calcnot then Eval(t, p) else EvalLoose(t, p)
    decreases t
  {
    LinkedParts(items, t, cur);
    var it := items[cur];
    if it.node.NVal? {
      r := CheckConditionArr(a, it.node.v);
    } else if it.node.op == '!' {
      r := true;
      if calcnot {
        r := ExecuteArr(items, cur - 1, calcnot, a, t.t, p);
        r := !r;
      }
    } else if it.node.op == '&' {
      r := ExecuteArr(items, cur + it.left, calcnot, a, t.l, p);
      if r {
        r := ExecuteArr(items, cur - 1, calcnot, a, t.r, p);
      }
    } else {
      r := ExecuteArr(items, cur + it.left, calcnot, a, t.l, p);
      if !r {
        r := ExecuteArr(items, cur - 1, calcnot, a, t.r, p);
      }
    }
  }

  /** The loose value over-approximates the query on anything that holds more values. */
  lemma {:induction false} LooseIsSound(t: Tree, p: int -> bool, q: int -> bool)
    requires Eval(t, p) && forall v :: p(v) ==> q(v)
    ensures EvalLoose(t, q)
  {
    match t
    case Val(v) =>
    case Not(a) =>
    case And(a, b) => LooseIsSound(a, p, q); LooseIsSound(b, p, q);
    case Or(a, b) => if Eval(a, p) { LooseIsSound(a, p, q); } else { LooseIsSound(b, p, q); }
  }

  /** `checkcondition_arr`: binary search in a sorted array. */
  method CheckConditionArr(a: seq<int>, val: int) returns (found: bool)
    requires NonDescending(a)
    ensures found <==> val in a
  {
    var low, high := 0, |a|;
    while low < high
      invariant 0 <= low <= high <= |a|
      invariant forall i :: 0 <= i < low ==> a[i] < val
      invariant forall i :: high <= i < |a| ==> a[i] > val
    {
      var middle := low + (high - low) / 2;
      if a[middle] == val {
        return true;
      } else if a[middle] < val {
        low := middle + 1;
      } else {
        high := middle;
      }
    }
    return false;
  }

  // ----- GIN -----

  ghost function ValueItems(items: seq<Item>): seq<int> {
    if items == [] then []
    else ValueItems(items[..|items| - 1]) + (if items[|items| - 1].node.NVal? then [items[|items| - 1].node.v] else [])
  }

  /** The values of the items come in the order of the items. */
  lemma {:induction false} ValuesInOrder(items: seq<Item>, more: seq<Item>, v: int, left: int)
    ensures ValueItems(items + more) == ValueItems(items) + ValueItems(more)
    ensures ValueItems([Item(NVal(v), left)]) == [v]
    decreases |more|
  {
    assert [Item(NVal(v), left)][..0] == [];
    if more == [] {
      assert items + more == items;
    } else {
      var n := |more| - 1;
      assert (items + more)[..|items| + n] == items + more[..n];
      ValuesInOrder(items, more[..n], v, left);
    }
  }

  /** `contains_required_value`. */
  predicate ContainsRequiredValue(items: seq<Item>, cur: int, ghost t: Tree)
    requires Linked(items, t, cur) && ShortLinks(t)
    decreases t
  {
    LinkedParts(items, t, cur);
    var it := items[cur];
    if it.node.NVal? then true
    else if it.node.op == '!' then false
    else if it.node.op == '&' then
      if ContainsRequiredValue(items, cur + it.left, t.l) then true else ContainsRequiredValue(items, cur - 1, t.r)
    else
      if ContainsRequiredValue(items, cur + it.left, t.l) then ContainsRequiredValue(items, cur - 1, t.r) else false
  }

  /** A value is required if and only if the query, with negations taken as true, fails where no value is
      present. */
  lemma {:induction false} RequiredIff(items: seq<Item>, cur: int, t: Tree)
    requires Linked(items, t, cur) && ShortLinks(t)
    ensures ContainsRequiredValue(items, cur, t) <==> !EvalLoose(t, v => false)
  {
    LinkedParts(items, t, cur);
    match t
    case Val(_) =>
    case Not(_) =>
    case _ =>
      RequiredIff(items, cur - 1 - Size(t.r), t.l);
      RequiredIff(items, cur - 1, t.r);
  }

  /** If some value is required then whatever satisfies the query holds one of its values. */
  lemma {:induction false} RequiredValueFound(items: seq<Item>, cur: int, t: Tree, p: int -> bool) returns (k: int)
    requires Linked(items, t, cur) && ShortLinks(t)
    requires ContainsRequiredValue(items, cur, t) && Eval(t, p)
    ensures 0 <= k <= cur && items[k].node.NVal? && p(items[k].node.v)
  {
    LinkedParts(items, t, cur);
    match t
    case Val(v) => k := cur;
    case And(a, b) =>
      if ContainsRequiredValue(items, cur - 1 - Size(b), a) {
        k := RequiredValueFound(items, cur - 1 - Size(b), a, p);
      } else {
        k := RequiredValueFound(items, cur - 1, b, p);
      }
    case Or(a, b) =>
      if Eval(a, p) {
        k := RequiredValueFound(items, cur - 1 - Size(b), a, p);
      } else {
        k := RequiredValueFound(items, cur - 1, b, p);
      }
  }

  datatype SearchMode = SearchDefault | SearchAll

  /** `ginint4_queryextract` for a Boolean query. In default mode GIN looks only at arrays with at least one
      of the extracted values; that loses none that satisfies the query. */
  method QueryExtract(items: seq<Item>, ghost t: Tree) returns (entries: seq<int>, mode: SearchMode)
    requires Compiles(items, t) && ShortLinks(t)
    ensures entries == ValueItems(items)
    ensures mode == SearchDefault <==> !EvalLoose(t, v => false)
    ensures mode == SearchDefault ==> forall p: int -> bool :: Eval(t, p) ==> exists v :: v in entries && p(v)
  {
    RequiredIff(items, |items| - 1, t);
    mode := if ContainsRequiredValue(items, |items| - 1, t) then SearchDefault else SearchAll;
    entries := [];
    var i := 0;
    while i < |items|
      invariant 0 <= i <= |items| && entries == ValueItems(items[..i])
    {
      assert items[..i + 1][..i] == items[..i];
      if items[i].node.NVal? {
        entries := entries + [items[i].node.v];
      }
      i := i + 1;
    }
    assert items[..i] == items;
    if mode == SearchDefault {
      forall p: int -> bool | Eval(t, p) ensures exists v :: v in entries && p(v) {
        var k := RequiredValueFound(items, |items| - 1, t, p);
        ValueItemAt(items, k);
      }
    }
  }

  lemma {:induction false} ValueItemAt(items: seq<Item>, k: nat)
    requires k < |items| && items[k].node.NVal?
    ensures |ValueItems(items[..k])| < |ValueItems(items)|
    ensures ValueItems(items)[|ValueItems(items[..k])|] == items[k].node.v
  {
    var front := items[..|items| - 1];
    if k == |items| - 1 {
      assert items[..k] == front;
    } else {
      ValueItemAt(front, k);
      assert front[..k] == items[..k];
    }
  }

  /** `gin_bool_consistent`: with the true presence bits of the extracted values it evaluates the query. */
  method GinBoolConsistent(items: seq<Item>, check: seq<bool>, ghost t: Tree, ghost p: int -> bool) returns (r: bool)
    requires Compiles(items, t) && ShortLinks(t) && |check| == |ValueItems(items)|
    requires forall j :: 0 <= j < |check| ==> check[j] == p(ValueItems(items)[j])
    ensures r == Eval(t, p)
  {
    var mapped: seq<bool> := [];
    var i, j := 0, 0;
    while i < |items|
      invariant 0 <= i <= |items| == Size(t) && |mapped| == i && j == |ValueItems(items[..i])|
      invariant forall k :: 0 <= k < i && items[k].node.NVal? ==> mapped[k] == p(items[k].node.v)
    {
      assert items[..i + 1][..i] == items[..i];
      if items[i].node.NVal? {
        ValueItemAt(items, i);
        mapped := mapped + [check[j]];
        j := j + 1;
      } else {
        mapped := mapped + [false];
      }
      i := i + 1;
    }
    var chk := (k: int) => 0 <= k < |mapped| && mapped[k];
    ExecuteIsEval(items, |items| - 1, true, chk, t, p);
    r := Execute(items, |items| - 1, true, chk, t);
  }
}
