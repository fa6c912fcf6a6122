/** Weighted edit distance: what `levenshtein` promises, said without dynamic programming.

    An edit inserts, deletes or substitutes one character at any position of the current string, and
    `Distance` is the least total price of any sequence of edits that turns one string into the other.
    A `Matrix` filled by the usual recurrence is what the program computes; `CornerIsDistance` shows
    that its last entry is that minimum. Matrices are handled as values that satisfy the recurrence,
    so that proofs unfold it only where they ask for it. */
module EditDistance {
  import opened Basics

  datatype Costs = Costs(ins: nat, del: nat, sub: nat)

  datatype Edit<C> =
    | Insert(at: nat, what: C)
    | Delete(at: nat)
    | Substitute(at: nat, what: C)

  ghost predicate Applicable<C>(e: Edit<C>, s: seq<C>) {
    if e.Insert? then e.at <= |s| else e.at < |s|
  }

  ghost function Apply<C>(e: Edit<C>, s: seq<C>): seq<C>
    requires Applicable(e, s)
  {
    match e
    case Insert(p, x) => s[..p] + [x] + s[p..]
    case Delete(p) => s[..p] + s[p+1..]
    case Substitute(p, x) => s[p := x]
  }

  ghost function Price<C>(c: Costs, e: Edit<C>): nat {
    match e
    case Insert(_, _) => c.ins
    case Delete(_) => c.del
    case Substitute(_, _) => c.sub
  }

  /** The edits, applied from first to last, turn `s` into `t`. */
  ghost predicate Transforms<C>(es: seq<Edit<C>>, s: seq<C>, t: seq<C>) {
    if es == [] then s == t
    else Applicable(es[0], s) && Transforms(es[1..], Apply(es[0], s), t)
  }

  ghost function TotalPrice<C>(c: Costs, es: seq<Edit<C>>): nat {
    if es == [] then 0 else Price(c, es[0]) + TotalPrice(c, es[1..])
  }

  /** Some sequence of edits turns `s` into `t` for exactly this price. */
  ghost predicate Affordable<C(!new)>(c: Costs, s: seq<C>, t: seq<C>, price: nat) {
    exists es: seq<Edit<C>> :: Transforms(es, s, t) && TotalPrice(c, es) == price
  }

  /** `d` is the least price at which `s` can be turned into `t`. */
  ghost predicate IsLeastPrice<C(!new)>(c: Costs, s: seq<C>, t: seq<C>, d: nat) {
    && Affordable(c, s, t, d)
    && (forall es: seq<Edit<C>> :: Transforms(es, s, t) ==> d <= TotalPrice(c, es))
  }

  ghost function Distance<C(!new)>(c: Costs, s: seq<C>, t: seq<C>): (d: nat)
    ensures IsLeastPrice(c, s, t, d)
  {
    CornerIsLeastPrice(c, s, t, MatrixOf(c, s, t));
    var d: nat :| IsLeastPrice(c, s, t, d);
    d
  }

  // ----- The matrix -----

  type Matrix = (nat, nat) -> nat

  ghost function SubPrice<C>(c: Costs, x: C, y: C): nat {
    if x == y then 0 else c.sub
  }

  /** Entry `(i, j)` follows from its neighbours. */
  ghost predicate Recurrence<C>(c: Costs, s: seq<C>, t: seq<C>, m: Matrix, i: nat, j: nat)
    requires i <= |s| && j <= |t|
  {
    m(i, j) ==
    if i == 0 && j == 0 then 0
    else if i == 0 then m(0, j - 1) + c.ins
    else if j == 0 then m(i - 1, 0) + c.del
    else Min(Min(m(i, j - 1) + c.ins, m(i - 1, j) + c.del), m(i - 1, j - 1) + SubPrice(c, s[i-1], t[j-1]))
  }

  ghost predicate Fills<C>(c: Costs, s: seq<C>, t: seq<C>, m: Matrix) {
    forall i: nat, j: nat :: i <= |s| && j <= |t| ==> Recurrence(c, s, t, m, i, j)
  }

  ghost function Cell<C>(c: Costs, s: seq<C>, t: seq<C>, i: nat, j: nat): nat
    requires i <= |s| && j <= |t|
  {
    if i == 0 && j == 0 then 0
    else if i == 0 then Cell(c, s, t, 0, j - 1) + c.ins
    else if j == 0 then Cell(c, s, t, i - 1, 0) + c.del
    else Min(Min(Cell(c, s, t, i, j - 1) + c.ins, Cell(c, s, t, i - 1, j) + c.del),
             Cell(c, s, t, i - 1, j - 1) + SubPrice(c, s[i-1], t[j-1]))
  }

  /** Every pair of strings has its matrix. */
  ghost function MatrixOf<C>(c: Costs, s: seq<C>, t: seq<C>): (m: Matrix)
    ensures Fills(c, s, t, m)
  {
    (i: nat, j: nat) => if i <= |s| && j <= |t| then Cell(c, s, t, i, j) else 0
  }

  // ----- Lower bound: no sequence of edits is cheaper than the corner -----

  /** An entry depends only on the prefixes it names. */
  lemma {:induction false} SamePrefix<C>(c: Costs, s: seq<C>, s': seq<C>, t: seq<C>, m: Matrix, m': Matrix, i: nat, j: nat)
    requires Fills(c, s, t, m) && Fills(c, s', t, m')
    requires i <= |s| && i <= |s'| && j <= |t|
    requires s[..i] == s'[..i]
    ensures m(i, j) == m'(i, j)
    decreases i + j
  {
    assert Recurrence(c, s, t, m, i, j) && Recurrence(c, s', t, m', i, j);
    if i > 0 {
      assert s[i-1] == s[..i][i-1] == s'[..i][i-1] == s'[i-1];
      assert s[..i-1] == s[..i][..i-1] == s'[..i][..i-1] == s'[..i-1];
      SamePrefix(c, s, s', t, m, m', i - 1, j);
    }
    if j > 0 { SamePrefix(c, s, s', t, m, m', i, j - 1); }
    if i > 0 && j > 0 { SamePrefix(c, s, s', t, m, m', i - 1, j - 1); }
  }

  /** One substitution at `p` moves no entry by more than its price. */
  lemma {:induction false} SubstituteSlack<C>(c: Costs, s: seq<C>, t: seq<C>, m: Matrix, m': Matrix, p: nat, x: C, i: nat, j: nat)
    requires p < |s| && p < i <= |s| && j <= |t|
    requires Fills(c, s, t, m) && Fills(c, s[p := x], t, m')
    ensures m(i, j) <= c.sub + m'(i, j)
    decreases i + j
  {
    var s' := s[p := x];
    assert Recurrence(c, s, t, m, i, j) && Recurrence(c, s', t, m', i, j);
    if i - 1 > p {
      SubstituteSlack(c, s, t, m, m', p, x, i - 1, j);
      if j > 0 { SubstituteSlack(c, s, t, m, m', p, x, i - 1, j - 1); }
    } else {
      assert s[..p] == s'[..p];
      SamePrefix(c, s, s', t, m, m', i - 1, j);
      if j > 0 { SamePrefix(c, s, s', t, m, m', i - 1, j - 1); }
    }
    if j > 0 { SubstituteSlack(c, s, t, m, m', p, x, i, j - 1); }
  }

  /** One insertion at `p` moves no entry by more than its price. */
  lemma {:induction false} InsertSlack<C>(c: Costs, s: seq<C>, t: seq<C>, m: Matrix, m': Matrix, p: nat, x: C, i: nat, j: nat)
    requires p <= i <= |s| && j <= |t|
    requires Fills(c, s, t, m) && Fills(c, s[..p] + [x] + s[p..], t, m')
    ensures m(i, j) <= c.ins + m'(i + 1, j)
    decreases i + j
  {
    var s' := s[..p] + [x] + s[p..];
    assert Recurrence(c, s, t, m, i, j) && Recurrence(c, s', t, m', i + 1, j);
    if i > p {
      assert s'[i] == s[i-1];
      InsertSlack(c, s, t, m, m', p, x, i - 1, j);
      if j > 0 { InsertSlack(c, s, t, m, m', p, x, i - 1, j - 1); }
    } else {
      assert s'[..i] == s[..i];
      SamePrefix(c, s, s', t, m, m', i, j);
      if j > 0 { SamePrefix(c, s, s', t, m, m', i, j - 1); }
    }
    if j > 0 { InsertSlack(c, s, t, m, m', p, x, i, j - 1); }
  }

  /** One deletion at `p` moves no entry by more than its price. */
  lemma {:induction false} DeleteSlack<C>(c: Costs, s: seq<C>, t: seq<C>, m: Matrix, m': Matrix, p: nat, i: nat, j: nat)
    requires p <= i < |s| && j <= |t|
    requires Fills(c, s, t, m) && Fills(c, s[..p] + s[p+1..], t, m')
    ensures m(i + 1, j) <= c.del + m'(i, j)
    decreases i + j
  {
    var s' := s[..p] + s[p+1..];
    assert Recurrence(c, s, t, m, i + 1, j);
    if i > p {
      assert Recurrence(c, s', t, m', i, j);
      assert s'[i-1] == s[i];
      DeleteSlack(c, s, t, m, m', p, i - 1, j);
      if j > 0 {
        DeleteSlack(c, s, t, m, m', p, i - 1, j - 1);
        DeleteSlack(c, s, t, m, m', p, i, j - 1);
      }
    } else {
      assert s'[..i] == s[..i];
      SamePrefix(c, s, s', t, m, m', i, j);
    }
  }

  lemma EditSlack<C>(c: Costs, e: Edit<C>, s: seq<C>, t: seq<C>, m: Matrix, m': Matrix)
    requires Applicable(e, s)
    requires Fills(c, s, t, m) && Fills(c, Apply(e, s), t, m')
    ensures m(|s|, |t|) <= Price(c, e) + m'(|Apply(e, s)|, |t|)
  {
    match e
    case Insert(p, x) => InsertSlack(c, s, t, m, m', p, x, |s|, |t|);
    case Delete(p) => DeleteSlack(c, s, t, m, m', p, |s| - 1, |t|);
    case Substitute(p, x) => SubstituteSlack(c, s, t, m, m', p, x, |s|, |t|);
  }

  lemma {:induction false} NothingToDo<C>(c: Costs, s: seq<C>, m: Matrix, i: nat)
    requires i <= |s| && Fills(c, s, s, m)
    ensures m(i, i) == 0
  {
    assert Recurrence(c, s, s, m, i, i);
    if i > 0 { NothingToDo(c, s, m, i - 1); }
  }

  /** Every sequence of edits that turns `s` into `t` costs at least the corner. */
  lemma {:induction false} NoCheaperEdits<C>(c: Costs, es: seq<Edit<C>>, s: seq<C>, t: seq<C>, m: Matrix)
    requires Transforms(es, s, t) && Fills(c, s, t, m)
    ensures m(|s|, |t|) <= TotalPrice(c, es)
    decreases |es|
  {
    if es == [] {
      NothingToDo(c, s, m, |s|);
    } else {
      var s' := Apply(es[0], s);
      var m' := MatrixOf(c, s', t);
      EditSlack(c, es[0], s, t, m, m');
      NoCheaperEdits(c, es[1..], s', t, m');
    }
  }

  // ----- Upper bound: some sequence of edits costs exactly the corner -----

  lemma PrependEdit<C(!new)>(c: Costs, e: Edit<C>, s: seq<C>, t: seq<C>, price: nat)
    requires Applicable(e, s) && Affordable(c, Apply(e, s), t, price)
    ensures Affordable(c, s, t, Price(c, e) + price)
  {
    var es :| Transforms(es, Apply(e, s), t) && TotalPrice(c, es) == price;
    assert ([e] + es)[1..] == es;
    assert Transforms([e] + es, s, t);
  }

  lemma MoveLast<C>(t: seq<C>, j: nat, tail: seq<C>)
    requires 0 < j <= |t|
    ensures t[..j-1] + ([t[j-1]] + tail) == t[..j] + tail
  {}

  lemma SubstituteText<C>(s: seq<C>, i: nat, x: C, tail: seq<C>)
    requires 0 < i <= |s|
    ensures Applicable(Substitute(i - 1, x), s[..i] + tail) && Apply(Substitute(i - 1, x), s[..i] + tail) == s[..i-1] + ([x] + tail)
  {
    assert Apply(Substitute(i - 1, x), s[..i] + tail) == s[..i-1] + ([x] + tail);
  }

  /** First insert the last wanted character, then turn `s[..i]` into `t[..j-1]` before it. */
  lemma InsertLast<C(!new)>(c: Costs, s: seq<C>, t: seq<C>, i: nat, j: nat, tail: seq<C>, price: nat)
    requires i <= |s| && 0 < j <= |t|
    requires Affordable(c, s[..i] + ([t[j-1]] + tail), t[..j-1] + ([t[j-1]] + tail), price)
    ensures Affordable(c, s[..i] + tail, t[..j] + tail, price + c.ins)
  {
    MoveLast(t, j, tail);
    assert Apply(Insert(i, t[j-1]), s[..i] + tail) == s[..i] + ([t[j-1]] + tail);
    PrependEdit(c, Insert(i, t[j-1]), s[..i] + tail, t[..j] + tail, price);
  }

  lemma DeleteLast<C(!new)>(c: Costs, s: seq<C>, t: seq<C>, i: nat, j: nat, tail: seq<C>, price: nat)
    requires 0 < i <= |s| && j <= |t|
    requires Affordable(c, s[..i-1] + tail, t[..j] + tail, price)
    ensures Affordable(c, s[..i] + tail, t[..j] + tail, price + c.del)
  {
    assert Apply(Edit<C>.Delete(i - 1), s[..i] + tail) == s[..i-1] + tail;
    PrependEdit(c, Delete(i - 1), s[..i] + tail, t[..j] + tail, price);
  }

  lemma SubstituteLast<C(!new)>(c: Costs, s: seq<C>, t: seq<C>, i: nat, j: nat, tail: seq<C>, price: nat)
    requires 0 < i <= |s| && 0 < j <= |t|
    requires Affordable(c, s[..i-1] + ([t[j-1]] + tail), t[..j-1] + ([t[j-1]] + tail), price)
    ensures Affordable(c, s[..i] + tail, t[..j] + tail, price + c.sub)
  {
    MoveLast(t, j, tail);
    SubstituteText(s, i, t[j-1], tail);
    PrependEdit(c, Substitute(i - 1, t[j-1]), s[..i] + tail, t[..j] + tail, price);
  }

  lemma KeepLast<C(!new)>(c: Costs, s: seq<C>, t: seq<C>, i: nat, j: nat, tail: seq<C>, price: nat)
    requires 0 < i <= |s| && 0 < j <= |t| && s[i-1] == t[j-1]
    requires Affordable(c, s[..i-1] + ([t[j-1]] + tail), t[..j-1] + ([t[j-1]] + tail), price)
    ensures Affordable(c, s[..i] + tail, t[..j] + tail, price)
  {
    MoveLast(t, j, tail);
    MoveLast(s, i, tail);
  }

  lemma NoEdits<C(!new)>(c: Costs, s: seq<C>, t: seq<C>, tail: seq<C>)
    ensures Affordable(c, s[..0] + tail, t[..0] + tail, 0)
  {
    assert s[..0] + tail == t[..0] + tail;
    assert Transforms([], s[..0] + tail, t[..0] + tail) && TotalPrice<C>(c, []) == 0;
  }

  /** For the price `m(i, j)` the first `i` characters of `s`, followed by any tail, can be turned into
      the first `j` characters of `t` followed by the same tail. */
  lemma {:induction false} EntryIsAffordable<C(!new)>(c: Costs, s: seq<C>, t: seq<C>, m: Matrix, i: nat, j: nat, tail: seq<C>)
    requires i <= |s| && j <= |t| && Fills(c, s, t, m)
    ensures Affordable(c, s[..i] + tail, t[..j] + tail, m(i, j))
    decreases i + j
  {
    assert Recurrence(c, s, t, m, i, j);
    if i == 0 && j == 0 {
      NoEdits(c, s, t, tail);
    } else {
      var k, l, way := CheapestWay(c, s, t, m, i, j);
      EntryIsAffordable(c, s, t, m, k, l, if l < j then [t[j-1]] + tail else tail);
      LastStep(c, s, t, i, j, k, l, tail, m(k, l), way);
    }
  }

  /** Which neighbour an entry comes from, and at what price. */
  lemma CheapestWay<C>(c: Costs, s: seq<C>, t: seq<C>, m: Matrix, i: nat, j: nat) returns (k: nat, l: nat, way: nat)
    requires i <= |s| && j <= |t| && Recurrence(c, s, t, m, i, j) && !(i == 0 && j == 0)
    ensures k <= i && l <= j && k + l < i + j && m(i, j) == m(k, l) + way
    ensures (k == i && l + 1 == j && way == c.ins) || (k + 1 == i && l == j && way == c.del)
         || (k + 1 == i && l + 1 == j && way == SubPrice(c, s[i-1], t[j-1]))
  {
    if j > 0 && m(i, j) == m(i, j - 1) + c.ins {
      k, l, way := i, j - 1, c.ins;
    } else if i > 0 && m(i, j) == m(i - 1, j) + c.del {
      k, l, way := i - 1, j, c.del;
    } else {
      k, l, way := i - 1, j - 1, SubPrice(c, s[i-1], t[j-1]);
    }
  }

  lemma LastStep<C(!new)>(c: Costs, s: seq<C>, t: seq<C>, i: nat, j: nat, k: nat, l: nat, tail: seq<C>, price: nat, way: nat)
    requires k <= i <= |s| && l <= j <= |t|
    requires (k == i && l + 1 == j && way == c.ins) || (k + 1 == i && l == j && way == c.del)
          || (k + 1 == i && l + 1 == j && way == SubPrice(c, s[i-1], t[j-1]))
    requires var longer := if l < j then [t[j-1]] + tail else tail; Affordable(c, s[..k] + longer, t[..l] + longer, price)
    ensures Affordable(c, s[..i] + tail, t[..j] + tail, price + way)
  {
    if k == i {
      InsertLast(c, s, t, i, j, tail, price);
    } else if l == j {
      DeleteLast(c, s, t, i, j, tail, price);
    } else {
      ReplaceLast(c, s, t, i, j, tail, price);
    }
  }

  /** Keep the last character if it is the wanted one, else substitute it. */
  lemma ReplaceLast<C(!new)>(c: Costs, s: seq<C>, t: seq<C>, i: nat, j: nat, tail: seq<C>, price: nat)
    requires 0 < i <= |s| && 0 < j <= |t|
    requires Affordable(c, s[..i-1] + ([t[j-1]] + tail), t[..j-1] + ([t[j-1]] + tail), price)
    ensures Affordable(c, s[..i] + tail, t[..j] + tail, price + SubPrice(c, s[i-1], t[j-1]))
  {
    if s[i-1] == t[j-1] {
      KeepLast(c, s, t, i, j, tail, price);
    } else {
      SubstituteLast(c, s, t, i, j, tail, price);
    }
  }

  lemma CornerIsLeastPrice<C(!new)>(c: Costs, s: seq<C>, t: seq<C>, m: Matrix)
    requires Fills(c, s, t, m)
    ensures IsLeastPrice(c, s, t, m(|s|, |t|))
  {
    EntryIsAffordable(c, s, t, m, |s|, |t|, []);
    assert s[..|s|] + [] == s && t[..|t|] + [] == t;
    forall es: seq<Edit<C>> | Transforms(es, s, t) ensures m(|s|, |t|) <= TotalPrice(c, es) {
      NoCheaperEdits(c, es, s, t, m);
    }
  }

  /** The last entry of the matrix is the least price over all sequences of edits. */
  lemma CornerIsDistance<C(!new)>(c: Costs, s: seq<C>, t: seq<C>, m: Matrix)
    requires Fills(c, s, t, m)
    ensures m(|s|, |t|) == Distance(c, s, t)
  {
    CornerIsLeastPrice(c, s, t, m);
    var es :| Transforms(es, s, t) && TotalPrice(c, es) == m(|s|, |t|);
    var es' :| Transforms(es', s, t) && TotalPrice(c, es') == Distance(c, s, t);
  }

  // ----- Shape of the matrix -----

  lemma {:induction false} FirstRow<C>(c: Costs, s: seq<C>, t: seq<C>, m: Matrix, i: nat)
    requires i <= |s| && Fills(c, s, t, m)
    ensures m(i, 0) == i * c.del
  {
    assert Recurrence(c, s, t, m, i, 0);
    if i > 0 { FirstRow(c, s, t, m, i - 1); }
  }

  lemma {:induction false} FirstColumn<C>(c: Costs, s: seq<C>, t: seq<C>, m: Matrix, j: nat)
    requires j <= |t| && Fills(c, s, t, m)
    ensures m(0, j) == j * c.ins
  {
    assert Recurrence(c, s, t, m, 0, j);
    if j > 0 { FirstColumn(c, s, t, m, j - 1); }
  }

  /** Entries never fall along a diagonal. */
  lemma {:induction false} DiagonalGrows<C>(c: Costs, s: seq<C>, t: seq<C>, m: Matrix, i: nat, j: nat)
    requires 0 < i <= |s| && 0 < j <= |t| && Fills(c, s, t, m)
    ensures m(i - 1, j - 1) <= m(i, j)
    decreases i + j
  {
    assert Recurrence(c, s, t, m, i, j);
    assert Recurrence(c, s, t, m, i - 1, j - 1);
    if i > 1 { DiagonalGrows(c, s, t, m, i - 1, j); } else { assert Recurrence(c, s, t, m, 0, j); }
    if j > 1 { DiagonalGrows(c, s, t, m, i, j - 1); } else { assert Recurrence(c, s, t, m, i, 0); }
  }

  /** A substitution dearer than a deletion and an insertion is never worth its price. */
  function Clamped(c: Costs): Costs {
    if c.ins + c.del < c.sub then c.(sub := c.ins + c.del) else c
  }

  lemma ClampingKeepsMatrix<C>(c: Costs, s: seq<C>, t: seq<C>, m: Matrix)
    requires Fills(c, s, t, m)
    ensures Fills(Clamped(c), s, t, m)
  {
    forall i: nat, j: nat | i <= |s| && j <= |t| ensures Recurrence(Clamped(c), s, t, m, i, j) {
      assert Recurrence(c, s, t, m, i, j);
      if i > 0 && j > 0 {
        assert Recurrence(c, s, t, m, i - 1, j);
        assert Recurrence(c, s, t, m, i, j - 1);
        assert m(i - 1, j) <= m(i - 1, j - 1) + c.ins;
      }
    }
  }

  /** Clamping the substitution cost does not change the distance. */
  lemma ClampingKeepsDistance<C(!new)>(c: Costs, s: seq<C>, t: seq<C>)
    ensures Distance(Clamped(c), s, t) == Distance(c, s, t)
  {
    var m := MatrixOf(c, s, t);
    ClampingKeepsMatrix(c, s, t, m);
    CornerIsDistance(c, s, t, m);
    CornerIsDistance(Clamped(c), s, t, m);
  }

  // ----- Laws of the distance -----

  /** Different characters are substituted, or one is deleted and the other inserted. */
  lemma OneCharacter<C(!new)>(c: Costs, x: C, y: C)
    ensures Distance(c, [x], [y]) == if x == y then 0 else Min(c.sub, c.ins + c.del)
  {
    var m := MatrixOf(c, [x], [y]);
    CornerIsDistance(c, [x], [y], m);
    assert Recurrence(c, [x], [y], m, 0, 0) && Recurrence(c, [x], [y], m, 0, 1);
    assert Recurrence(c, [x], [y], m, 1, 0) && Recurrence(c, [x], [y], m, 1, 1);
  }

  /** Turning the strings round exchanges insertions and deletions. */
  lemma MirrorDistance<C(!new)>(c: Costs, s: seq<C>, t: seq<C>)
    ensures Distance(c, s, t) == Distance(Costs(c.del, c.ins, c.sub), t, s)
  {
    var m, d := MatrixOf(c, s, t), Costs(c.del, c.ins, c.sub);
    var r: Matrix := (j: nat, i: nat) => m(i, j);
    forall j: nat, i: nat | j <= |t| && i <= |s| ensures Recurrence(d, t, s, r, j, i) { assert Recurrence(c, s, t, m, i, j); }
    CornerIsDistance(c, s, t, m);
    CornerIsDistance(d, t, s, r);
  }

  lemma {:induction false} ScriptsConcat<C>(c: Costs, es: seq<Edit<C>>, fs: seq<Edit<C>>, s: seq<C>, t: seq<C>, u: seq<C>)
    requires Transforms(es, s, t) && Transforms(fs, t, u)
    ensures Transforms(es + fs, s, u) && TotalPrice(c, es + fs) == TotalPrice(c, es) + TotalPrice(c, fs)
    decreases |es|
  {
    if es == [] {
      assert es + fs == fs;
    } else {
      assert (es + fs)[0] == es[0] && (es + fs)[1..] == es[1..] + fs;
      ScriptsConcat(c, es[1..], fs, Apply(es[0], s), t, u);
    }
  }

  /** A detour is never cheaper. */
  lemma TriangleInequality<C(!new)>(c: Costs, s: seq<C>, t: seq<C>, u: seq<C>)
    ensures Distance(c, s, u) <= Distance(c, s, t) + Distance(c, t, u)
  {
    assert Affordable(c, s, t, Distance(c, s, t)) && Affordable(c, t, u, Distance(c, t, u));
    var es: seq<Edit<C>> :| Transforms(es, s, t) && TotalPrice(c, es) == Distance(c, s, t);
    var fs: seq<Edit<C>> :| Transforms(fs, t, u) && TotalPrice(c, fs) == Distance(c, t, u);
    ScriptsConcat(c, es, fs, s, t, u);
  }

  /** The residual bound: the price of evening out lengths that still differ by `k`. */
  function Residual(c: Costs, k: int): int {
    if k > 0 then k * c.ins else -k * c.del
  }

  lemma Product(k: int, n: nat)
    ensures (k + 1) * n == k * n + n
    ensures -(k + 1) * n == -k * n - n
    ensures k >= 0 ==> k * n >= 0
    ensures k <= 0 ==> -k * n >= 0
  {}

  lemma ResidualStep(c: Costs, k: int)
    ensures 0 <= Residual(c, k)
    ensures Residual(c, k + 1) <= Residual(c, k) + c.ins
    ensures Residual(c, k) <= Residual(c, k + 1) + c.del
  {
    Product(k, c.ins);
    Product(k, c.del);
  }

  /** No entry is cheaper than the length difference it bridges. */
  lemma {:induction false} ResidualIsLowerBound<C>(c: Costs, s: seq<C>, t: seq<C>, m: Matrix, i: nat, j: nat)
    requires i <= |s| && j <= |t| && Fills(c, s, t, m)
    ensures Residual(c, j - i) <= m(i, j)
    decreases i + j
  {
    assert Recurrence(c, s, t, m, i, j);
    ResidualStep(c, j - i);
    ResidualStep(c, j - i - 1);
    if i > 0 { ResidualIsLowerBound(c, s, t, m, i - 1, j); }
    if j > 0 { ResidualIsLowerBound(c, s, t, m, i, j - 1); }
    if i > 0 && j > 0 { ResidualIsLowerBound(c, s, t, m, i - 1, j - 1); }
  }

  /** No entry is dearer than evening out the lengths and substituting everything else. */
  lemma {:induction false} SubstituteAllIsUpperBound<C>(c: Costs, s: seq<C>, t: seq<C>, m: Matrix, i: nat, j: nat)
    requires i <= |s| && j <= |t| && Fills(c, s, t, m)
    ensures m(i, j) <= Residual(c, j - i) + c.sub * Min(i, j)
    decreases i + j
  {
    if i == 0 {
      FirstColumn(c, s, t, m, j);
    } else if j == 0 {
      FirstRow(c, s, t, m, i);
    } else {
      assert Recurrence(c, s, t, m, i, j);
      SubstituteAllIsUpperBound(c, s, t, m, i - 1, j - 1);
      Product(Min(i, j) - 1, c.sub);
    }
  }
}
