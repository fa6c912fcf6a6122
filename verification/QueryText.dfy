/** `gettoken` and `makepol` as they work on the query string. */
module QueryText {
  import opened Basics
  import opened QueryGrammar

  datatype LexState = WaitOperand | WaitEndOperand | WaitOperator

  /** The character at the pointer; a string ends with NUL. */
  function Head(s: string): char {
    if s == "" then '\0' else s[0]
  }

  predicate IsDigit(c: char) {
    '0' <= c <= '9'
  }

  function DigitValue(c: char): int {
    c as int - '0' as int
  }

  function DecimalValue(d: string): int {
    if d == "" then 0 else DecimalValue(d[..|d| - 1]) * 10 + DigitValue(d[|d| - 1])
  }

  /** The value of the octal digits before the first other character. */
  function OctalValue(d: string, acc: int): int {
    if d == "" || !('0' <= d[0] <= '7') then acc else OctalValue(d[1..], acc * 8 + DigitValue(d[0]))
  }

  /** `strtol(nnn, NULL, 0)` on an optional minus sign and digits: a leading zero means octal, and no
      digits at all count as zero. At most 15 characters cannot overflow a long. */
  function StrToL(nnn: string): int {
    var negative := nnn != "" && nnn[0] == '-';
    var d := if negative then nnn[1..] else nnn;
    var v := if d != "" && d[0] == '0' then OctalValue(d, 0) else DecimalValue(d);
    if negative then -v else v
  }

  const NNN_SIZE := 16

  datatype Lexed = Lexed(tok: Token, rest: string, st: LexState, count: int)

  /** One call of `gettoken`, from some point of its loop on: `nnn` is the number read so far. */
  function Lex(s: string, st: LexState, count: int, nnn: string): (r: Lexed)
    ensures r.tok != TErr && (st == WaitEndOperand ==> nnn != "") ==> r.st != WaitEndOperand && |r.rest| <= |s|
    ensures r.tok != TErr && r.tok != TEnd && st != WaitEndOperand ==> |r.rest| < |s|
    ensures r.tok == TEnd ==> r.st == WaitOperator && r.count == count == 0 && Head(r.rest) == '\0'
    decreases |s|
  {
    if |nnn| >= NNN_SIZE then Lexed(TErr, s, st, count)
    else
      var c := Head(s);
      match st
      case WaitOperand =>
        if IsDigit(c) || c == '-' then Lex(s[1..], WaitEndOperand, count, [c])
        else if c == '!' then Lexed(TOpr('!'), s[1..], st, count)
        else if c == '(' then Lexed(TOpen, s[1..], st, count + 1)
        else if c == ' ' then Lex(s[1..], st, count, "")
        else Lexed(TErr, s, st, count)
      case WaitEndOperand =>
        if IsDigit(c) then Lex(s[1..], st, count, nnn + [c])
        else if !IsInt32(StrToL(nnn)) then Lexed(TErr, s, st, count)
        else Lexed(if count != 0 && c == '\0' then TErr else TVal(StrToL(nnn)), s, WaitOperator, count)
      case WaitOperator =>
        if c == '&' || c == '|' then Lexed(TOpr(c), s[1..], WaitOperand, count)
        else if c == ')' then Lexed(if count - 1 < 0 then TErr else TClose, s[1..], st, count - 1)
        else if c == '\0' then Lexed(if count != 0 then TErr else TEnd, s, st, count)
        else if c == ' ' then Lex(s[1..], st, count, nnn)
        else Lexed(TErr, s, st, count)
  }

  /** Everything `gettoken` will return, up to the end or the first error. */
  ghost function Tokens(s: string, st: LexState, count: int): (ts: seq<Token>)
    requires st != WaitEndOperand
    ensures ts != []
    decreases |s|
  {
    var r := Lex(s, st, count, "");
    if r.tok == TEnd || r.tok == TErr then [r.tok] else [r.tok] + Tokens(r.rest, r.st, r.count)
  }

  /** How one token follows from the state of the lexer. */
  lemma {:induction false} LexOrder(s: string, st: LexState, count: int, nnn: string)
    requires count >= 0
    ensures var r := Lex(s, st, count, nnn);
            match r.tok
            case TErr => true
            case TEnd => st == WaitOperator && count == 0
            case TVal(v) => st != WaitOperator && r.st == WaitOperator && r.count == count && IsInt32(v)
            case TOpr(op) => (if st == WaitOperator then op == '&' || op == '|' else st == WaitOperand && op == '!')
                             && r.st == WaitOperand && r.count == count
            case TOpen => st == WaitOperand && r.st == WaitOperand && r.count == count + 1
            case TClose => st == WaitOperator && count > 0 && r.st == WaitOperator && r.count == count - 1
    decreases |s|
  {
    if |nnn| < NNN_SIZE && s != "" {
      var c := Head(s);
      if st == WaitOperand && (IsDigit(c) || c == '-') {
        LexOrder(s[1..], WaitEndOperand, count, [c]);
      } else if st == WaitEndOperand && IsDigit(c) {
        LexOrder(s[1..], st, count, nnn + [c]);
      } else if c == ' ' {
        LexOrder(s[1..], st, count, if st == WaitOperand then "" else nnn);
      }
    }
  }

  /** The lexer delivers tokens only in the order that `Follows` describes. */
  lemma {:induction false} TokensFollow(s: string, st: LexState, count: nat)
    requires st != WaitEndOperand
    ensures Follows(Tokens(s, st, count), st == WaitOperand, count)
    decreases |s|
  {
    LexOrder(s, st, count, "");
    var r := Lex(s, st, count, "");
    var ts := Tokens(s, st, count);
    if r.tok != TEnd && r.tok != TErr {
      TokensFollow(r.rest, r.st, r.count);
      assert ts[1..] == Tokens(r.rest, r.st, r.count);
    }
  }

  ghost function Reversed(s: seq<Node>): seq<Node> {
    if s == [] then [] else Reversed(s[1..]) + [s[0]]
  }

  datatype Outcome = Done | SyntaxError | StatementTooComplex

  /** `WORKSTATE`. */
  class WorkState {
    var buf: string
    var state: LexState
    var count: int
    /** Reverse polish notation, the last item first. */
    var str: seq<Node>
    var num: nat

    ghost predicate Valid()
      reads this
    {
      state != WaitEndOperand && count >= 0 && num == |str|
    }

    /** The tokens still to come. */
    ghost function Coming(): seq<Token>
      requires Valid()
      reads this
    {
      Tokens(buf, state, count)
    }

    ghost function Pushed(): seq<Node>
      reads this
    {
      Reversed(str)
    }

    constructor (text: string)
      ensures Valid() && Coming() == Tokens(text, WaitOperand, 0) && Pushed() == [] && num == 0
    {
      buf := text;
      state := WaitOperand;
      count := 0;
      str := [];
      num := 0;
    }

    /** `gettoken`. */
    method GetToken() returns (tok: Token)
      requires Valid()
      modifies this`buf, this`state, this`count
      ensures tok == old(Coming())[0]
      ensures tok == TEnd ==> Valid() && Coming() == old(Coming()) && |buf| <= old(|buf|)
      ensures tok != TEnd && tok != TErr ==> Valid() && Coming() == old(Coming())[1..] && |buf| < old(|buf|)
    {
      ghost var want := Lex(buf, state, count, "");
      var nnn := new char[NNN_SIZE];
      var innn := 0;
      LexOrder(buf, state, count, "");
      while true
        invariant 0 <= innn <= NNN_SIZE
        invariant Lex(buf, state, count, nnn[..innn]) == want
        invariant state == WaitEndOperand ==> innn > 0
        invariant count == old(count) && |buf| <= old(|buf|)
        decreases |buf|
      {
        if innn >= NNN_SIZE {
          return TErr;
        }
        var c := Head(buf);
        match state {
          case WaitOperand =>
            innn := 0;
            if IsDigit(c) || c == '-' {
              state := WaitEndOperand;
              nnn[innn] := c;
              innn := innn + 1;
              assert nnn[..innn] == [c];
            } else if c == '!' {
              buf := buf[1..];
              return TOpr('!');
            } else if c == '(' {
              count := count + 1;
              buf := buf[1..];
              return TOpen;
            } else if c != ' ' {
              return TErr;
            }
          case WaitEndOperand =>
            if IsDigit(c) {
              ghost var before := nnn[..innn];
              nnn[innn] := c;
              innn := innn + 1;
              assert nnn[..innn] == before + [c];
            } else {
              var lval := StrToL(nnn[..innn]);
              if !IsInt32(lval) {
                return TErr;
              }
              state := WaitOperator;
              return if count != 0 && c == '\0' then TErr else TVal(lval);
            }
          case WaitOperator =>
            if c == '&' || c == '|' {
              state := WaitOperand;
              buf := buf[1..];
              return TOpr(c);
            } else if c == ')' {
              buf := buf[1..];
              count := count - 1;
              return if count < 0 then TErr else TClose;
            } else if c == '\0' {
              return if count != 0 then TErr else TEnd;
            } else if c != ' ' {
              return TErr;
            }
        }
        buf := buf[1..];
      }
    }

    /** `pushquery`: in front of the list. */
    method PushQuery(node: Node)
      requires num == |str|
      modifies this`str, this`num
      ensures num == |str| && Pushed() == old(Pushed()) + [node]
    {
      str := [node] + str;
      num := num + 1;
      assert str[1..] == old(str);
    }

    /** The loops that pop operators: all of them, or only those that bind tighter than `|`. */
    method PopOperators(stack: array<char>, lenstack0: nat, all: bool) returns (lenstack: nat)
      requires num == |str| && lenstack0 <= stack.Length
      modifies this`str, this`num
      ensures num == |str| && lenstack <= lenstack0 && stack[..lenstack0] == old(stack[..lenstack0])
      ensures all ==> Pushed() == old(Pushed()) + AllPops(stack[..lenstack0])
      ensures !all ==> Pushed() == old(Pushed()) + TightPops(stack[..lenstack0]) && stack[..lenstack] == TightRest(stack[..lenstack0])
    {
      lenstack := lenstack0;
      ghost var full := stack[..lenstack0];
      ghost var done: seq<Node> := [];
      while lenstack > 0 && (all || Tight(stack[lenstack - 1]))
        invariant 0 <= lenstack <= lenstack0 && num == |str| && stack[..lenstack0] == full
        invariant Pushed() == old(Pushed()) + done
        invariant all ==> AllPops(full) == done + AllPops(stack[..lenstack])
        invariant !all ==> TightPops(full) == done + TightPops(stack[..lenstack]) && TightRest(full) == TightRest(stack[..lenstack])
      {
        ghost var now := stack[..lenstack];
        assert now[..lenstack - 1] == stack[..lenstack - 1];
        lenstack := lenstack - 1;
        PushQuery(NOpr(stack[lenstack]));
        done := done + [NOpr(stack[lenstack])];
      }
    }

    /** What a call of `makepol` leaves behind: `r` is what the rest of the input compiles to. */
    ghost predicate Compiled(o: Outcome, r: PolResult, pushed: seq<Node>)
      reads this
    {
      match r
      case PolErr => o == SyntaxError
      case TooComplex => o == StatementTooComplex
      case PolOk(out, rest) => o == Done && Valid() && Coming() == rest && Pushed() == pushed + out
    }

    /** `makepol`. It recurses for each parenthesis, with a stack of its own. */
    method MakePolish() returns (o: Outcome)
      requires Valid()
      modifies this
      ensures Compiled(o, MakePol(old(Coming()), []), old(Pushed()))
      ensures o == Done ==> |buf| <= old(|buf|)
      decreases |buf|, 1
    {
      var stack := new char[STACKDEPTH];
      var lenstack := 0;
      ghost var mp := TheMachine();
      ghost var out: seq<Node> := [];
      while true
        invariant Valid() && 0 <= lenstack <= STACKDEPTH && |buf| <= old(|buf|)
        invariant Pushed() == old(Pushed()) + out
        invariant mp(old(Coming()), []) == Emit(out, mp(Coming(), stack[..lenstack]))
        decreases |buf|
      {
        ghost var emitted;
        ghost var r := mp(Coming(), stack[..lenstack]);
        var finished;
        finished, o, lenstack, emitted := HandleToken(mp, stack, lenstack);
        if finished {
          FinishCompiled(o, r, old(Pushed()), out);
          return;
        }
        EmitEmit(out, emitted, mp(Coming(), stack[..lenstack]));
        out := out + emitted;
      }
    }

    lemma FinishCompiled(o: Outcome, r: PolResult, pushed: seq<Node>, out: seq<Node>)
      requires Compiled(o, r, pushed + out)
      ensures Compiled(o, Emit(out, r), pushed)
    {
      if r.PolOk? { assert pushed + out + r.out == pushed + (out + r.out); }
    }

    method AfterValue(v: int, stack: array<char>, lenstack0: nat) returns (lenstack: nat, ghost emitted: seq<Node>)
      requires num == |str| && lenstack0 <= stack.Length
      modifies this`str, this`num
      ensures num == |str| && lenstack <= lenstack0
      ensures emitted == [NVal(v)] + TightPops(stack[..lenstack0]) && Pushed() == old(Pushed()) + emitted
      ensures stack[..lenstack] == TightRest(stack[..lenstack0])
    {
      PushQuery(NVal(v));
      lenstack := PopOperators(stack, lenstack0, false);
      emitted := [NVal(v)] + TightPops(stack[..lenstack0]);
    }

    method AfterOpen(ghost mp: Machine, stack: array<char>, lenstack0: nat) returns (o: Outcome, lenstack: nat, ghost emitted: seq<Node>)
      requires Valid() && mp == TheMachine() && lenstack0 <= stack.Length
      modifies this
      ensures var inner := mp(old(Coming()), []);
              if !inner.PolOk? then o != Done && Compiled(o, inner, [])
              else && o == Done && Valid() && Coming() == inner.rest && |buf| <= old(|buf|) && lenstack <= lenstack0
                   && emitted == inner.out + TightPops(stack[..lenstack0]) && Pushed() == old(Pushed()) + emitted
                   && stack[..lenstack] == TightRest(stack[..lenstack0])
      decreases |buf|, 2
    {
      ghost var inner := mp(Coming(), []);
      lenstack, emitted := lenstack0, [];
      o := MakePolish();
      if o == Done {
        lenstack := PopOperators(stack, lenstack, false);
        emitted := inner.out + TightPops(stack[..lenstack0]);
      }
    }

    /** One iteration of `makepol`'s loop. */
    method HandleToken(ghost mp: Machine, stack: array<char>, lenstack0: nat)
      returns (finished: bool, o: Outcome, lenstack: nat, ghost emitted: seq<Node>)
      requires Valid() && Runs(mp) && mp == TheMachine() && stack.Length == STACKDEPTH && lenstack0 <= STACKDEPTH
      modifies this, stack
      ensures finished ==> Compiled(o, mp(old(Coming()), old(stack[..lenstack0])), old(Pushed()))
      ensures finished && o == Done ==> |buf| <= old(|buf|)
      ensures !finished ==>
                && Valid() && lenstack <= STACKDEPTH && |buf| < old(|buf|) && Pushed() == old(Pushed()) + emitted
                && mp(old(Coming()), old(stack[..lenstack0])) == Emit(emitted, mp(Coming(), stack[..lenstack]))
      decreases |buf|, 0
    {
      ghost var full := stack[..lenstack0];
      assert Step(mp, Coming(), full);
      finished, o, lenstack, emitted := false, Done, lenstack0, [];
      var tok := GetToken();
      match tok {
        case TVal(v) =>
          lenstack, emitted := AfterValue(v, stack, lenstack);
        case TOpr(op) =>
          if lenstack > 0 && op == '|' {
            PushQuery(NOpr(op));
            emitted := [NOpr(op)];
          } else if lenstack == STACKDEPTH {
            finished, o := true, StatementTooComplex;
          } else {
            stack[lenstack] := op;
            lenstack := lenstack + 1;
            assert stack[..lenstack] == full + [op];
          }
        case TOpen =>
          o, lenstack, emitted := AfterOpen(mp, stack, lenstack);
          finished := o != Done;
        case TEnd =>
          lenstack := PopOperators(stack, lenstack, true);
          finished := true;
        case TClose =>
          lenstack := PopOperators(stack, lenstack, true);
          finished := true;
        case TErr =>
          finished, o := true, SyntaxError;
      }
    }
  }
}