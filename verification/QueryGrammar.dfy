/** The query language of `query_int` and the operator stack of `makepol`, on tokens.

    `Or`, `And`, `Neg` and `Prim` are the concrete syntax: `!` binds tighter than `&`, `&` tighter
    than `|`, both associate to the left. `MakePol` is the source's algorithm, whose stack is unusual:
    `|` is emitted at once when the stack is not empty. `Complete` and `Sound` show that it accepts
    exactly the sentences of the grammar and emits the postfix form of their trees. */
module QueryGrammar {
  import opened Basics

  datatype Tree = Val(v: int) | Not(t: Tree) | And(l: Tree, r: Tree) | Or(l: Tree, r: Tree)

  /** What `gettoken` returns. */
  datatype Token = TEnd | TErr | TVal(v: int) | TOpr(op: char) | TOpen | TClose

  /** What `pushquery` stores. */
  datatype Node = NVal(v: int) | NOpr(op: char)

  ghost function Postfix(t: Tree): seq<Node> {
    match t
    case Val(v) => [NVal(v)]
    case Not(a) => Postfix(a) + [NOpr('!')]
    case And(a, b) => Postfix(a) + Postfix(b) + [NOpr('&')]
    case Or(a, b) => Postfix(a) + Postfix(b) + [NOpr('|')]
  }

  // ----- Concrete syntax -----

  datatype OrExpr = OrOne(a: AndExpr) | OrMore(o: OrExpr, a: AndExpr)
  datatype AndExpr = AndOne(n: NegExpr) | AndMore(b: AndExpr, n: NegExpr)
  datatype NegExpr = Bang(n: NegExpr) | Plain(p: Prim)
  datatype Prim = Num(v: int) | Paren(o: OrExpr)

  ghost function OrTokens(o: OrExpr): seq<Token> {
    match o
    case OrOne(a) => AndTokens(a)
    case OrMore(b, a) => OrTokens(b) + [TOpr('|')] + AndTokens(a)
  }

  ghost function AndTokens(a: AndExpr): seq<Token> {
    match a
    case AndOne(n) => NegTokens(n)
    case AndMore(b, n) => AndTokens(b) + [TOpr('&')] + NegTokens(n)
  }

  ghost function NegTokens(n: NegExpr): seq<Token> {
    match n
    case Bang(m) => [TOpr('!')] + NegTokens(m)
    case Plain(p) => PrimTokens(p)
  }

  ghost function PrimTokens(p: Prim): seq<Token> {
    match p
    case Num(v) => [TVal(v)]
    case Paren(o) => [TOpen] + OrTokens(o) + [TClose]
  }

  ghost function OrTree(o: OrExpr): Tree {
    match o
    case OrOne(a) => AndTree(a)
    case OrMore(b, a) => Or(OrTree(b), AndTree(a))
  }

  ghost function AndTree(a: AndExpr): Tree {
    match a
    case AndOne(n) => NegTree(n)
    case AndMore(b, n) => And(AndTree(b), NegTree(n))
  }

  ghost function NegTree(n: NegExpr): Tree {
    match n
    case Bang(m) => Not(NegTree(m))
    case Plain(p) => PrimTree(p)
  }

  ghost function PrimTree(p: Prim): Tree {
    match p
    case Num(v) => Val(v)
    case Paren(o) => OrTree(o)
  }

  // ----- The operator stack -----

  const STACKDEPTH := 16

  datatype PolResult = PolErr | TooComplex | PolOk(out: seq<Node>, rest: seq<Token>)

  predicate Tight(op: char) {
    op == '&' || op == '!'
  }

  /** The pops after an operand: everything on top that binds tighter than `|`. */
  function TightPops(stack: seq<char>): seq<Node> {
    if stack != [] && Tight(stack[|stack| - 1]) then [NOpr(stack[|stack| - 1])] + TightPops(stack[..|stack| - 1]) else []
  }

  function TightRest(stack: seq<char>): seq<char> {
    if stack != [] && Tight(stack[|stack| - 1]) then TightRest(stack[..|stack| - 1]) else stack
  }

  /** The pops at the end: everything. */
  function AllPops(stack: seq<char>): seq<Node> {
    if stack == [] then [] else [NOpr(stack[|stack| - 1])] + AllPops(stack[..|stack| - 1])
  }

  function Emit(out: seq<Node>, r: PolResult): PolResult {
    if r.PolOk? then PolOk(out + r.out, r.rest) else r
  }

  /** `makepol` as a value, so that the proofs below unfold it only one step at a time. */
  type Machine = (seq<Token>, seq<char>) -> PolResult

  /** One round of `makepol`: the tokens still to come and the stack of this level, which holds `depth`
      operators; `mp` goes on. */
  function Round(mp: Machine, ts: seq<Token>, stack: seq<char>, depth: nat): PolResult {
    if ts == [] then PolErr
    else
      match ts[0]
      case TEnd => PolOk(AllPops(stack), ts)
      case TErr => PolErr
      case TVal(v) => Emit([NVal(v)] + TightPops(stack), mp(ts[1..], TightRest(stack)))
      case TOpr(op) =>
        if stack != [] && op == '|' then Emit([NOpr(op)], mp(ts[1..], stack))
        else if |stack| == depth then TooComplex
        else mp(ts[1..], stack + [op])
      case TOpen =>
        var inner := mp(ts[1..], []);
        if !inner.PolOk? then inner
        else Emit(inner.out + TightPops(stack), mp(inner.rest, TightRest(stack)))
      case TClose => PolOk(AllPops(stack), ts[1..])
  }

  /** `makepol` from some point on. */
  function MakePol(ts: seq<Token>, stack: seq<char>, depth: nat := STACKDEPTH): (r: PolResult)
    ensures r.PolOk? ==> |r.rest| <= |ts|
    decreases |ts|
  {
    Round((us: seq<Token>, st: seq<char>) => if |us| < |ts| then MakePol(us, st, depth) else PolErr, ts, stack, depth)
  }

  ghost predicate Step(mp: Machine, ts: seq<Token>, stack: seq<char>, depth: nat := STACKDEPTH) {
    (mp(ts, stack).PolOk? ==> |mp(ts, stack).rest| <= |ts|) && mp(ts, stack) == Round(mp, ts, stack, depth)
  }

  ghost predicate Runs(mp: Machine, depth: nat := STACKDEPTH) {
    forall ts: seq<Token>, stack: seq<char> :: Step(mp, ts, stack, depth)
  }

  /** Rounds look only at what comes later. */
  lemma SameRound(mp: Machine, np: Machine, ts: seq<Token>, stack: seq<char>, depth: nat)
    requires forall us: seq<Token>, st: seq<char> :: |us| < |ts| ==> mp(us, st) == np(us, st)
    requires forall us: seq<Token>, st: seq<char> :: mp(us, st).PolOk? ==> |mp(us, st).rest| <= |us|
    ensures Round(mp, ts, stack, depth) == Round(np, ts, stack, depth)
  {}

  ghost function TheMachine(depth: nat := STACKDEPTH): (mp: Machine)
    ensures Runs(mp, depth) && forall ts: seq<Token>, stack: seq<char> :: mp(ts, stack) == MakePol(ts, stack, depth)
  {
    var mp := (ts: seq<Token>, stack: seq<char>) => MakePol(ts, stack, depth);
    assert forall ts: seq<Token>, stack: seq<char> :: Step(mp, ts, stack, depth) by {
      forall ts: seq<Token>, stack: seq<char> ensures Step(mp, ts, stack, depth) {
        SameRound(mp, (us: seq<Token>, st: seq<char>) => if |us| < |ts| then MakePol(us, st, depth) else PolErr, ts, stack, depth);
      }
    }
    mp
  }

  // ----- Every sentence is compiled to the postfix form of its tree -----

  /** How deep the stack gets above a base of `base` operators. */
  ghost predicate OrFits(o: OrExpr, depth: nat := 16) {
    match o
    case OrOne(a) => AndFits(a, 0, depth)
    case OrMore(b, a) => OrFits(b, depth) && AndFits(a, 1, depth)
  }

  ghost predicate AndFits(a: AndExpr, base: nat, depth: nat := 16) {
    match a
    case AndOne(n) => NegFits(n, base, depth)
    case AndMore(b, n) => AndFits(b, base, depth) && base < depth && NegFits(n, base + 1, depth)
  }

  ghost predicate NegFits(n: NegExpr, base: nat, depth: nat := 16) {
    match n
    case Bang(m) => base < depth && NegFits(m, base + 1, depth)
    case Plain(p) => p.Paren? ==> OrFits(p.o, depth)
  }

  lemma {:induction false} NegatedFits(k: nat, n: NegExpr, base: nat)
    ensures NegFits(Negated(k, n), base) <==> (k == 0 || base + k <= 16) && NegFits(n, base + k)
    decreases k
  {
    if k > 0 { NegatedFits(k - 1, Bang(n), base); }
  }

  /** Sixteen negations of a value fit the stack, and seventeen do not. */
  lemma BangsFit(k: nat, v: int)
    ensures OrFits(OrOne(AndOne(Negated(k, Plain(Num(v)))))) <==> k <= 16
  {
    NegatedFits(k, Plain(Num(v)), 0);
    assert AndFits(AndOne(Negated(k, Plain(Num(v)))), 0) == NegFits(Negated(k, Plain(Num(v))), 0);
  }

  /** While the last `|` of a chain is pending it sits on the stack. */
  ghost function PendingStack(o: OrExpr): seq<char> {
    if o.OrOne? then [] else ['|']
  }

  ghost function PendingOut(o: OrExpr): seq<Node> {
    match o
    case OrOne(a) => Postfix(AndTree(a))
    case OrMore(b, a) => Postfix(OrTree(b)) + Postfix(AndTree(a))
  }

  lemma EmitEmit(a: seq<Node>, b: seq<Node>, r: PolResult)
    ensures Emit(a, Emit(b, r)) == Emit(a + b, r)
  {
    if r.PolOk? { assert a + (b + r.out) == a + b + r.out; }
  }

  lemma TightPush(stack: seq<char>, op: char)
    ensures Tight(op) ==> TightPops(stack + [op]) == [NOpr(op)] + TightPops(stack)
    ensures Tight(op) ==> TightRest(stack + [op]) == TightRest(stack)
    ensures !Tight(op) ==> TightPops(stack + [op]) == [] && TightRest(stack + [op]) == stack + [op]
  {
    assert (stack + [op])[..|stack|] == stack;
  }

  lemma {:induction false} CompleteOr(mp: Machine, depth: nat, o: OrExpr, tail: seq<Token>)
    requires Runs(mp, depth) && depth >= 2
    ensures mp(OrTokens(o) + tail, []) ==
            if OrFits(o, depth) then Emit(PendingOut(o), mp(tail, PendingStack(o))) else TooComplex
  {
    match o
    case OrOne(a) => CompleteAnd(mp, depth, a, [], tail);
    case OrMore(b, a) =>
      assert OrTokens(o) + tail == OrTokens(b) + ([TOpr('|')] + (AndTokens(a) + tail));
      CompleteOr(mp, depth, b, [TOpr('|')] + (AndTokens(a) + tail));
      if OrFits(b, depth) {
        CompleteAnd(mp, depth, a, ['|'], tail);
        OrStep(mp, depth, b, a, tail);
      }
  }

  /** After `b |` the pending part of `b` is closed and one `|` is pending. */
  lemma OrStep(mp: Machine, depth: nat, b: OrExpr, a: AndExpr, tail: seq<Token>)
    requires Runs(mp, depth) && depth >= 2
    requires mp(AndTokens(a) + tail, ['|']) ==
             if AndFits(a, 1, depth) then Emit(Postfix(AndTree(a)), mp(tail, ['|'])) else TooComplex
    ensures Emit(PendingOut(b), mp([TOpr('|')] + (AndTokens(a) + tail), PendingStack(b))) ==
            if AndFits(a, 1, depth) then Emit(PendingOut(OrMore(b, a)), mp(tail, ['|'])) else TooComplex
  {
    var rest := AndTokens(a) + tail;
    var ts := [TOpr('|')] + rest;
    assert ts[1..] == rest && ts[0] == TOpr('|');
    assert Step(mp, ts, PendingStack(b), depth);
    if b.OrOne? {
      assert [] + ['|'] == ['|'];
      EmitEmit(PendingOut(b), Postfix(AndTree(a)), mp(tail, ['|']));
    } else {
      EmitEmit(PendingOut(b), [NOpr('|')], mp(rest, ['|']));
      EmitEmit(PendingOut(b) + [NOpr('|')], Postfix(AndTree(a)), mp(tail, ['|']));
    }
  }

  lemma {:induction false} CompleteAnd(mp: Machine, depth: nat, a: AndExpr, base: seq<char>, tail: seq<Token>)
    requires Runs(mp, depth) && depth >= 2
    requires base == [] || base == ['|']
    ensures mp(AndTokens(a) + tail, base) ==
            if AndFits(a, |base|, depth) then Emit(Postfix(AndTree(a)), mp(tail, base)) else TooComplex
  {
    match a
    case AndOne(n) =>
      CompleteNeg(mp, depth, n, base, tail);
      AndPops(base);
      assert Postfix(NegTree(n)) + [] == Postfix(NegTree(n));
    case AndMore(b, n) =>
      assert AndTokens(a) + tail == AndTokens(b) + ([TOpr('&')] + (NegTokens(n) + tail));
      CompleteAnd(mp, depth, b, base, [TOpr('&')] + (NegTokens(n) + tail));
      PushStep(mp, depth, '&', NegTokens(n) + tail, base);
      CompleteNeg(mp, depth, n, base + ['&'], tail);
      AndPops(base);
      AndOut(b, n, mp(tail, base));
  }

  lemma PushStep(mp: Machine, depth: nat, op: char, rest: seq<Token>, stack: seq<char>)
    requires Runs(mp, depth) && |stack| < depth && op != '|'
    ensures mp([TOpr(op)] + rest, stack) == mp(rest, stack + [op])
  {
    assert ([TOpr(op)] + rest)[1..] == rest;
    assert Step(mp, [TOpr(op)] + rest, stack, depth);
  }

  /** An `&` waits for the operand after it. */
  lemma AndPops(base: seq<char>)
    requires base == [] || base == ['|']
    ensures TightPops(base) == [] && TightRest(base) == base
    ensures TightPops(base + ['&']) == [NOpr('&')] && TightRest(base + ['&']) == base
  {
    TightPush(base, '&');
  }

  lemma AndOut(b: AndExpr, n: NegExpr, r: PolResult)
    ensures Emit(Postfix(AndTree(b)), Emit(Postfix(NegTree(n)) + [NOpr('&')], r)) == Emit(Postfix(AndTree(AndMore(b, n))), r)
  {
    EmitEmit(Postfix(AndTree(b)), Postfix(NegTree(n)) + [NOpr('&')], r);
    assert Postfix(AndTree(b)) + (Postfix(NegTree(n)) + [NOpr('&')]) == Postfix(AndTree(AndMore(b, n)));
  }

  lemma {:induction false} CompleteNeg(mp: Machine, depth: nat, n: NegExpr, base: seq<char>, tail: seq<Token>)
    requires Runs(mp, depth) && depth >= 2
    requires |base| <= depth
    ensures mp(NegTokens(n) + tail, base) ==
            if NegFits(n, |base|, depth) then Emit(Postfix(NegTree(n)) + TightPops(base), mp(tail, TightRest(base)))
            else TooComplex
  {
    match n
    case Plain(p) => CompletePrim(mp, depth, p, base, tail);
    case Bang(m) =>
      assert NegTokens(n) + tail == [TOpr('!')] + (NegTokens(m) + tail);
      if |base| == depth {
        assert Step(mp, NegTokens(n) + tail, base, depth);
      } else {
        PushStep(mp, depth, '!', NegTokens(m) + tail, base);
        CompleteNeg(mp, depth, m, base + ['!'], tail);
        TightPush(base, '!');
        assert Postfix(NegTree(m)) + ([NOpr('!')] + TightPops(base)) == Postfix(NegTree(n)) + TightPops(base);
      }
  }

  lemma {:induction false} CompletePrim(mp: Machine, depth: nat, p: Prim, base: seq<char>, tail: seq<Token>)
    requires Runs(mp, depth) && depth >= 2
    ensures mp(PrimTokens(p) + tail, base) ==
            if p.Paren? && !OrFits(p.o, depth) then TooComplex
            else Emit(Postfix(PrimTree(p)) + TightPops(base), mp(tail, TightRest(base)))
  {
    match p
    case Num(v) =>
      assert ([TVal(v)] + tail)[1..] == tail;
      assert Step(mp, [TVal(v)] + tail, base, depth);
    case Paren(o) =>
      var ts := PrimTokens(p) + tail;
      assert ts[1..] == OrTokens(o) + ([TClose] + tail);
      assert Step(mp, ts, base, depth);
      CompleteOr(mp, depth, o, [TClose] + tail);
      CloseParen(mp, depth, o, tail);
  }

  lemma CloseParen(mp: Machine, depth: nat, o: OrExpr, tail: seq<Token>)
    requires Runs(mp, depth) && depth >= 2
    ensures Emit(PendingOut(o), mp([TClose] + tail, PendingStack(o))) == PolOk(Postfix(OrTree(o)), tail)
  {
    assert ([TClose] + tail)[1..] == tail;
    assert Step(mp, [TClose] + tail, PendingStack(o), depth);
    assert AllPops(['|']) == [NOpr('|')];
    if o.OrOne? { assert PendingOut(o) + [] == Postfix(OrTree(o)); }
  }

  lemma CompleteAt(o: OrExpr, depth: nat)
    requires depth >= 2
    ensures MakePol(OrTokens(o) + [TEnd], [], depth) ==
            if OrFits(o, depth) then PolOk(Postfix(OrTree(o)), [TEnd]) else TooComplex
  {
    var mp := TheMachine(depth);
    CompleteOr(mp, depth, o, [TEnd]);
    assert Step(mp, [TEnd], PendingStack(o), depth);
    assert AllPops(['|']) == [NOpr('|')];
    if o.OrOne? { assert PendingOut(o) + [] == Postfix(OrTree(o)); }
  }

  /** A sentence followed by the end is accepted, with the postfix form of its tree, unless it needs more
      than `STACKDEPTH` stack entries at some level. */
  lemma Complete(o: OrExpr)
    ensures MakePol(OrTokens(o) + [TEnd], []) ==
            if OrFits(o) then PolOk(Postfix(OrTree(o)), [TEnd]) else TooComplex
  {
    CompleteAt(o, STACKDEPTH);
  }

  // ----- Everything accepted is a sentence -----

  /** The order in which `gettoken` can deliver tokens: it waits for an operand or for an operator, and
      counts open parentheses. */
  ghost predicate Follows(ts: seq<Token>, operand: bool, n: nat)
    decreases |ts|
  {
    ts != [] &&
    match ts[0]
    case TErr => true
    case TEnd => !operand && n == 0
    case TVal(_) => operand && Follows(ts[1..], false, n)
    case TOpr(op) => (if operand then op == '!' else op == '&' || op == '|') && Follows(ts[1..], true, n)
    case TOpen => operand && Follows(ts[1..], true, n + 1)
    case TClose => !operand && n > 0 && Follows(ts[1..], false, n - 1)
  }

  ghost function Bangs(k: nat): seq<char> {
    if k == 0 then [] else Bangs(k - 1) + ['!']
  }

  ghost function BangTokens(k: nat): seq<Token> {
    if k == 0 then [] else BangTokens(k - 1) + [TOpr('!')]
  }

  /** Between operators: a finished `|` chain, if any, and the `&` chain being extended. */
  ghost function Shifted(o: Option<OrExpr>, a: AndExpr): seq<Token> {
    (if o.Some? then OrTokens(o.value) + [TOpr('|')] else []) + AndTokens(a)
  }

  ghost function Emitted(o: Option<OrExpr>, a: AndExpr): seq<Node> {
    (if o.Some? then Postfix(OrTree(o.value)) else []) + Postfix(AndTree(a))
  }

  ghost function BaseStack(o: Option<OrExpr>): seq<char> {
    if o.Some? then ['|'] else []
  }

  /** Before an operand: also a pending `&` chain, if any, and some pending `!`. */
  ghost function ShiftedBefore(o: Option<OrExpr>, a: Option<AndExpr>, k: nat): seq<Token> {
    (if o.Some? then OrTokens(o.value) + [TOpr('|')] else [])
    + (if a.Some? then AndTokens(a.value) + [TOpr('&')] else [])
    + BangTokens(k)
  }

  ghost function EmittedBefore(o: Option<OrExpr>, a: Option<AndExpr>): seq<Node> {
    (if o.Some? then Postfix(OrTree(o.value)) else []) + (if a.Some? then Postfix(AndTree(a.value)) else [])
  }

  ghost function StackBefore(o: Option<OrExpr>, a: Option<AndExpr>, k: nat): seq<char> {
    BaseStack(o) + (if a.Some? then ['&'] else []) + Bangs(k)
  }

  /** The `&` chain after an operand `p` with `k` negations. */
  ghost function Attach(a: Option<AndExpr>, n: NegExpr): AndExpr {
    if a.Some? then AndMore(a.value, n) else AndOne(n)
  }

  ghost function Negated(k: nat, n: NegExpr): NegExpr {
    if k == 0 then n else Negated(k - 1, Bang(n))
  }

  lemma {:induction false} NegatedTokens(k: nat, n: NegExpr)
    ensures NegTokens(Negated(k, n)) == BangTokens(k) + NegTokens(n)
  {
    if k > 0 {
      NegatedTokens(k - 1, Bang(n));
      assert BangTokens(k - 1) + ([TOpr('!')] + NegTokens(n)) == BangTokens(k) + NegTokens(n);
    }
  }

  lemma PushBang(stack: seq<char>, k: nat)
    requires k > 0
    ensures stack + Bangs(k) == stack + Bangs(k - 1) + ['!']
  {}

  lemma {:induction false} TightBangs(stack: seq<char>, k: nat, n: NegExpr)
    ensures TightRest(stack + Bangs(k)) == TightRest(stack)
    ensures Postfix(NegTree(n)) + TightPops(stack + Bangs(k)) == Postfix(NegTree(Negated(k, n))) + TightPops(stack)
  {
    if k == 0 {
      assert stack + Bangs(0) == stack;
    } else {
      PushBang(stack, k);
      var below := stack + Bangs(k - 1);
      TightPush(below, '!');
      TightBangs(stack, k - 1, Bang(n));
      OneBang(n, TightPops(below));
    }
  }

  lemma OneBang(n: NegExpr, pops: seq<Node>)
    ensures Postfix(NegTree(n)) + ([NOpr('!')] + pops) == Postfix(NegTree(Bang(n))) + pops
  {}

  lemma OperandTokens(o: Option<OrExpr>, a: Option<AndExpr>, k: nat, p: Prim)
    ensures ShiftedBefore(o, a, k) + PrimTokens(p) == Shifted(o, Attach(a, Negated(k, Plain(p))))
  {
    NegatedTokens(k, Plain(p));
    var x := if o.Some? then OrTokens(o.value) + [TOpr('|')] else [];
    if a.Some? {
      assert x + (AndTokens(a.value) + [TOpr('&')]) + BangTokens(k) + PrimTokens(p)
          == x + (AndTokens(a.value) + [TOpr('&')] + (BangTokens(k) + PrimTokens(p)));
    } else {
      assert x + [] + BangTokens(k) + PrimTokens(p) == x + (BangTokens(k) + PrimTokens(p));
    }
  }

  /** Below the `!`s a level has an `&` if an operand is waiting, and a `|` at the bottom if one is pending. */
  lemma BasePops(o: Option<OrExpr>, a: Option<AndExpr>)
    ensures var base := BaseStack(o) + (if a.Some? then ['&'] else []);
      TightRest(base) == BaseStack(o) && TightPops(base) == if a.Some? then [NOpr('&')] else []
  {
    TightPush([], '|');
    assert [] + ['|'] == ['|'];
    if a.Some? {
      TightPush(BaseStack(o), '&');
    } else {
      assert BaseStack(o) + [] == BaseStack(o);
    }
  }

  lemma OperandRest(o: Option<OrExpr>, a: Option<AndExpr>, k: nat, n: NegExpr)
    ensures TightRest(StackBefore(o, a, k)) == BaseStack(o)
    ensures Postfix(NegTree(n)) + TightPops(StackBefore(o, a, k))
         == Postfix(NegTree(Negated(k, n))) + if a.Some? then [NOpr('&')] else []
  {
    BasePops(o, a);
    TightBangs(BaseStack(o) + (if a.Some? then ['&'] else []), k, n);
  }

  lemma OperandStack(o: Option<OrExpr>, a: Option<AndExpr>, k: nat, p: Prim)
    ensures EmittedBefore(o, a) + (Postfix(PrimTree(p)) + TightPops(StackBefore(o, a, k)))
         == Emitted(o, Attach(a, Negated(k, Plain(p))))
  {
    OperandRest(o, a, k, Plain(p));
    var n := Negated(k, Plain(p));
    var x := if o.Some? then Postfix(OrTree(o.value)) else [];
    if a.Some? {
      assert x + Postfix(AndTree(a.value)) + (Postfix(NegTree(n)) + [NOpr('&')])
          == x + (Postfix(AndTree(a.value)) + Postfix(NegTree(n)) + [NOpr('&')]);
    } else {
      assert x + [] + (Postfix(NegTree(n)) + []) == x + Postfix(NegTree(n));
    }
  }

  /** What a finished level has read and emitted. */
  ghost predicate Parsed(c: OrExpr, before: seq<Token>, ts: seq<Token>, emitted: seq<Node>, n: nat, r: PolResult) {
    && r.PolOk?
    && before + ts == OrTokens(c) + (if n > 0 then [TClose] else []) + r.rest
    && emitted + r.out == Postfix(OrTree(c))
    && (if n > 0 then Follows(r.rest, false, n - 1) else r.rest != [] && r.rest[0] == TEnd)
  }

  /** Reading `x` more and emitting `y` more before a level that is then finished. */
  lemma ParsedEarlier(c: OrExpr, before: seq<Token>, x: seq<Token>, ts: seq<Token>, emitted: seq<Node>, y: seq<Node>, n: nat, r: PolResult)
    requires Parsed(c, before + x, ts, emitted + y, n, r)
    ensures Parsed(c, before, x + ts, emitted, n, Emit(y, r))
  {
    assert before + x + ts == before + (x + ts);
    assert emitted + y + r.out == emitted + (y + r.out);
  }

  lemma {:induction false} SoundOperand(mp: Machine, ts: seq<Token>, n: nat, o: Option<OrExpr>, a: Option<AndExpr>, k: nat) returns (c: OrExpr)
    requires Runs(mp) && Follows(ts, true, n) && mp(ts, StackBefore(o, a, k)).PolOk?
    ensures Parsed(c, ShiftedBefore(o, a, k), ts, EmittedBefore(o, a), n, mp(ts, StackBefore(o, a, k)))
    decreases |ts|, 2
  {
    var stack := StackBefore(o, a, k);
    assert Step(mp, ts, stack);
    match ts[0] {
      case TVal(v) =>
        c := SoundAfter(mp, [TVal(v)], ts[1..], n, o, a, k, Num(v));
        assert [TVal(v)] + ts[1..] == ts;
      case TOpr(op) =>
        c := SoundBang(mp, ts, n, o, a, k);
      case TOpen =>
        var inner := mp(ts[1..], []);
        NothingShifted();
        var d := SoundOperand(mp, ts[1..], n + 1, None, None, 0);
        OpenParen(d, ts, inner, n);
        c := SoundAfter(mp, PrimTokens(Paren(d)), inner.rest, n, o, a, k, Paren(d));
    }
  }

  lemma NothingShifted()
    ensures StackBefore(None, None, 0) == [] && ShiftedBefore(None, None, 0) == [] && EmittedBefore(None, None) == []
  {}

  lemma OpenParen(d: OrExpr, ts: seq<Token>, inner: PolResult, n: nat)
    requires ts != [] && ts[0] == TOpen && Parsed(d, [], ts[1..], [], n + 1, inner)
    ensures PrimTokens(Paren(d)) + inner.rest == ts && inner.out == Postfix(OrTree(d)) && Follows(inner.rest, false, n)
    ensures |inner.rest| < |ts|
  {
    assert [] + ts[1..] == ts[1..] && [] + inner.out == inner.out;
    assert [TOpen] + ts[1..] == ts;
  }

  lemma {:induction false} SoundBang(mp: Machine, ts: seq<Token>, n: nat, o: Option<OrExpr>, a: Option<AndExpr>, k: nat) returns (c: OrExpr)
    requires Runs(mp) && Follows(ts, true, n) && ts[0].TOpr? && mp(ts, StackBefore(o, a, k)).PolOk?
    ensures Parsed(c, ShiftedBefore(o, a, k), ts, EmittedBefore(o, a), n, mp(ts, StackBefore(o, a, k)))
    decreases |ts|, 1
  {
    var stack := StackBefore(o, a, k);
    assert Step(mp, ts, stack);
    assert stack + ['!'] == StackBefore(o, a, k + 1);
    c := SoundOperand(mp, ts[1..], n, o, a, k + 1);
    MoveToken(ShiftedBefore(o, a, k), ts);
    assert ShiftedBefore(o, a, k + 1) == ShiftedBefore(o, a, k) + [ts[0]];
  }

  lemma MoveToken(before: seq<Token>, ts: seq<Token>)
    requires ts != []
    ensures before + [ts[0]] + ts[1..] == before + ts
  {
    assert [ts[0]] + ts[1..] == ts;
  }

  /** Just after the operand `p`, whose tokens are `x`. */
  lemma {:induction false} SoundAfter(mp: Machine, x: seq<Token>, ts: seq<Token>, n: nat, o: Option<OrExpr>, a: Option<AndExpr>, k: nat, p: Prim) returns (c: OrExpr)
    requires Runs(mp) && Follows(ts, false, n) && x == PrimTokens(p)
    requires mp(ts, TightRest(StackBefore(o, a, k))).PolOk?
    ensures Parsed(c, ShiftedBefore(o, a, k), x + ts, EmittedBefore(o, a), n,
                   Emit(Postfix(PrimTree(p)) + TightPops(StackBefore(o, a, k)), mp(ts, TightRest(StackBefore(o, a, k)))))
    decreases |ts|, 3
  {
    OperandRest(o, a, k, Plain(p));
    OperandTokens(o, a, k, p);
    OperandStack(o, a, k, p);
    c := SoundOperator(mp, ts, n, o, Attach(a, Negated(k, Plain(p))));
    ParsedEarlier(c, ShiftedBefore(o, a, k), x, ts, EmittedBefore(o, a), Postfix(PrimTree(p)) + TightPops(StackBefore(o, a, k)), n,
                  mp(ts, BaseStack(o)));
  }

  lemma {:induction false} SoundOperator(mp: Machine, ts: seq<Token>, n: nat, o: Option<OrExpr>, a: AndExpr) returns (c: OrExpr)
    requires Runs(mp) && Follows(ts, false, n) && mp(ts, BaseStack(o)).PolOk?
    ensures Parsed(c, Shifted(o, a), ts, Emitted(o, a), n, mp(ts, BaseStack(o)))
    decreases |ts|, 2
  {
    assert Step(mp, ts, BaseStack(o));
    match ts[0] {
      case TEnd =>
        c := Finish(o, a);
        assert OrTokens(c) + [] + ts == OrTokens(c) + ts;
      case TClose =>
        c := Finish(o, a);
        MoveToken(OrTokens(c), ts);
      case TOpr(op) =>
        if op == '&' {
          c := SoundAmpersand(mp, ts, n, o, a);
        } else {
          c := SoundBar(mp, ts, n, o, a);
        }
    }
  }

  ghost function Chain(o: Option<OrExpr>, a: AndExpr): OrExpr {
    if o.Some? then OrMore(o.value, a) else OrOne(a)
  }

  lemma Finish(o: Option<OrExpr>, a: AndExpr) returns (c: OrExpr)
    ensures c == Chain(o, a) && Shifted(o, a) == OrTokens(c)
    ensures Emitted(o, a) + AllPops(BaseStack(o)) == Postfix(OrTree(c))
  {
    c := Chain(o, a);
    assert AllPops(['|']) == [NOpr('|')];
    if o.None? {
      assert Emitted(o, a) + [] == Postfix(OrTree(c));
    }
  }

  lemma {:induction false} SoundAmpersand(mp: Machine, ts: seq<Token>, n: nat, o: Option<OrExpr>, a: AndExpr) returns (c: OrExpr)
    requires Runs(mp) && Follows(ts, false, n) && ts[0] == TOpr('&') && mp(ts, BaseStack(o)).PolOk?
    ensures Parsed(c, Shifted(o, a), ts, Emitted(o, a), n, mp(ts, BaseStack(o)))
    decreases |ts|, 1
  {
    assert Step(mp, ts, BaseStack(o));
    assert BaseStack(o) + ['&'] == StackBefore(o, Some(a), 0);
    c := SoundOperand(mp, ts[1..], n, o, Some(a), 0);
    assert ShiftedBefore(o, Some(a), 0) == Shifted(o, a) + [TOpr('&')];
    MoveToken(Shifted(o, a), ts);
  }

  lemma {:induction false} SoundBar(mp: Machine, ts: seq<Token>, n: nat, o: Option<OrExpr>, a: AndExpr) returns (c: OrExpr)
    requires Runs(mp) && Follows(ts, false, n) && ts[0] == TOpr('|') && mp(ts, BaseStack(o)).PolOk?
    ensures Parsed(c, Shifted(o, a), ts, Emitted(o, a), n, mp(ts, BaseStack(o)))
    decreases |ts|, 1
  {
    assert Step(mp, ts, BaseStack(o));
    var b := Finish(o, a);
    BarShifted(b);
    assert [] + ['|'] == ['|'];
    c := SoundOperand(mp, ts[1..], n, Some(b), None, 0);
    MoveToken(Shifted(o, a), ts);
    if o.Some? {
      assert AllPops(['|']) == [NOpr('|')];
      ParsedEarlier(c, Shifted(o, a), [TOpr('|')], ts[1..], Emitted(o, a), [NOpr('|')], n, mp(ts[1..], ['|']));
      assert [TOpr('|')] + ts[1..] == ts;
    } else {
      assert Emitted(o, a) + [] == Emitted(o, a);
    }
  }

  lemma BarShifted(b: OrExpr)
    ensures StackBefore(Some(b), None, 0) == ['|'] && EmittedBefore(Some(b), None) == Postfix(OrTree(b))
    ensures ShiftedBefore(Some(b), None, 0) == OrTokens(b) + [TOpr('|')]
  {}

  /** Whatever `makepol` accepts is a sentence of the grammar, and what it emits is the postfix form of
      the sentence's tree. */
  lemma Sound(ts: seq<Token>) returns (c: OrExpr)
    requires Follows(ts, true, 0) && MakePol(ts, []).PolOk?
    ensures var r := MakePol(ts, []);
            ts == OrTokens(c) + r.rest && r.rest != [] && r.rest[0] == TEnd && r.out == Postfix(OrTree(c))
  {
    NothingShifted();
    var mp := TheMachine();
    c := SoundOperand(mp, ts, 0, None, None, 0);
    var r := mp(ts, []);
    assert [] + ts == ts && [] + r.out == r.out && OrTokens(c) + [] + r.rest == OrTokens(c) + r.rest;
  }

  // ----- One tree per sentence -----

  lemma {:induction false} PostfixUnique(a: seq<Node>, t: Tree, b: seq<Node>, u: Tree)
    requires a + Postfix(t) == b + Postfix(u)
    ensures a == b && t == u
    decreases t
  {
    var x, y := a + Postfix(t), b + Postfix(u);
    assert x[|x| - 1] == y[|y| - 1];
    match t
    case Val(v) => assert u == t && a == x[..|x| - 1] == y[..|y| - 1] == b;
    case Not(t1) =>
      assert u.Not?;
      assert x[..|x| - 1] == a + Postfix(t1) && y[..|y| - 1] == b + Postfix(u.t);
      PostfixUnique(a, t1, b, u.t);
    case And(l, r) =>
      assert u.And?;
      assert x[..|x| - 1] == a + Postfix(l) + Postfix(r) && y[..|y| - 1] == b + Postfix(u.l) + Postfix(u.r);
      PostfixUnique(a + Postfix(l), r, b + Postfix(u.l), u.r);
      PostfixUnique(a, l, b, u.l);
    case Or(l, r) =>
      assert u.Or?;
      assert x[..|x| - 1] == a + Postfix(l) + Postfix(r) && y[..|y| - 1] == b + Postfix(u.l) + Postfix(u.r);
      PostfixUnique(a + Postfix(l), r, b + Postfix(u.l), u.r);
      PostfixUnique(a, l, b, u.l);
  }

  /** A stack as deep as the sentence is long never overflows. */
  lemma {:induction false} LongOrFits(o: OrExpr, depth: nat)
    requires |OrTokens(o)| <= depth
    ensures OrFits(o, depth)
  {
    match o
    case OrOne(a) => LongAndFits(a, 0, depth);
    case OrMore(b, a) => LongOrFits(b, depth); LongAndFits(a, 1, depth);
  }

  lemma {:induction false} LongAndFits(a: AndExpr, base: nat, depth: nat)
    requires base + |AndTokens(a)| <= depth
    ensures AndFits(a, base, depth)
  {
    match a
    case AndOne(n) => LongNegFits(n, base, depth);
    case AndMore(b, n) => LongAndFits(b, base, depth); LongNegFits(n, base + 1, depth);
  }

  lemma {:induction false} LongNegFits(n: NegExpr, base: nat, depth: nat)
    requires base + |NegTokens(n)| <= depth
    ensures NegFits(n, base, depth)
  {
    match n
    case Bang(m) => LongNegFits(m, base + 1, depth);
    case Plain(p) => if p.Paren? { LongOrFits(p.o, depth); }
  }

  /** The grammar is unambiguous: sentences with the same tokens have the same tree. */
  lemma Unambiguous(c: OrExpr, d: OrExpr)
    requires OrTokens(c) == OrTokens(d)
    ensures OrTree(c) == OrTree(d)
  {
    var depth := |OrTokens(c)| + 2;
    LongOrFits(c, depth);
    LongOrFits(d, depth);
    CompleteAt(c, depth);
    CompleteAt(d, depth);
    PostfixUnique([], OrTree(c), [], OrTree(d)) by { assert [] + Postfix(OrTree(c)) == [] + Postfix(OrTree(d)); }
  }
}
