/** `levenshtein_internal` and `levenshtein_less_equal_internal`: the two-row dynamic program and its
    banded form, on bytes.

    The band proof rests on three facts about the full matrix `m`. Call an entry *useful* when its
    value plus the residual bound to the corner is at most the bound. (1) Residuals are consistent
    with the moves, so a useful entry has a useful best predecessor. (2) Entries never fall along a
    diagonal while the residual stays the same, so useful columns move right by at most one per row.
    (3) A row without useful entries means the distance exceeds the bound. */
module Levenshtein {
  import opened Basics
  import opened EditDistance
  import opened Bytes
  import opened Multibyte

  datatype Result = Value(d: int) | TooLong

  const MAX_LEVENSHTEIN_STRLEN := 255

  /** The inputs as characters, the full matrix for them, the residual bounds of its entries, and the
      bound on the distance (negative: none). */
  datatype Problem = Problem(c: Costs, s: seq<Char>, t: seq<Char>, m: Matrix, rest: (int, int) -> int, bound: int) {

    /** What is left of the two strings after entry `(i, j)` costs at least `rest(i, j)`: the price of
        evening out their lengths. */
    ghost predicate RestAt(i: int, j: int) {
      rest(i, j) == Residual(c, (|t| - j) - (|s| - i))
    }

    ghost predicate Valid() {
      Fills(c, s, t, m) && forall i: int, j: int :: RestAt(i, j)
    }

    ghost predicate Useful(i: nat, j: nat) {
      bound < 0 || m(i, j) + rest(i, j) <= bound
    }

    /** `v` may stand for entry `(i, j)`: it is exact whenever either of them could matter. */
    ghost predicate Agrees(v: int, i: nat, j: nat) {
      Useful(i, j) || v + rest(i, j) <= bound ==> v == m(i, j)
    }

    ghost predicate RowAgrees(row: seq<int>, j: nat, lo: nat, hi: nat)
      requires hi <= |row|
    {
      forall i :: lo <= i < hi ==> Agrees(row[i], i, j)
    }

    /** Every useful entry of row `j` lies in the band `[lo, hi)`. */
    ghost predicate BandHolds(j: nat, lo: nat, hi: nat) {
      forall i: nat :: i <= |s| && Useful(i, j) ==> lo <= i < hi
    }
  }

  // ----- Facts about useful entries -----

  lemma RestMoves(p: Problem, i: nat, j: nat)
    requires p.Valid()
    ensures 0 <= p.rest(i, j)
    ensures j > 0 ==> p.rest(i, j - 1) <= p.rest(i, j) + p.c.ins
    ensures i > 0 ==> p.rest(i - 1, j) <= p.rest(i, j) + p.c.del
    ensures i > 0 && j > 0 ==> p.rest(i - 1, j - 1) == p.rest(i, j)
  {
    var k := (|p.t| - j) - (|p.s| - i);
    assert p.RestAt(i, j) && p.RestAt(i - 1, j) && p.RestAt(i, j - 1) && p.RestAt(i - 1, j - 1);
    ResidualStep(p.c, k);
    ResidualStep(p.c, k - 1);
  }

  /** One step of the recurrence keeps agreement. */
  lemma StepAgrees(p: Problem, i: nat, j: nat, up: int, left: int, diag: int, v: int)
    requires p.Valid() && 0 < i <= |p.s| && 0 < j <= |p.t|
    requires p.Agrees(up, i, j - 1) && p.Agrees(left, i - 1, j) && p.Agrees(diag, i - 1, j - 1)
    requires v == Min(Min(up + p.c.ins, left + p.c.del), diag + SubPrice(p.c, p.s[i-1], p.t[j-1]))
    ensures p.Agrees(v, i, j)
  {
    RestMoves(p, i, j);
    assert Recurrence(p.c, p.s, p.t, p.m, i, j);
  }

  /** An overwritten cell agrees with a useless entry. */
  lemma OverwrittenAgrees(p: Problem, i: nat, j: nat)
    requires p.Valid() && p.bound >= 0 && !p.Useful(i, j)
    ensures p.Agrees(p.bound + 1, i, j)
  {
    RestMoves(p, i, j);
  }

  /** A useful entry has a useful entry above it: on its diagonal, or in column 0. */
  lemma UsefulAbove(p: Problem, i: nat, j: nat)
    requires p.Valid() && i <= |p.s| && 0 < j <= |p.t| && p.Useful(i, j)
    ensures p.Useful(if i == 0 then 0 else i - 1, j - 1)
  {
    RestMoves(p, i, j);
    if i == 0 {
      assert Recurrence(p.c, p.s, p.t, p.m, 0, j);
    } else {
      DiagonalGrows(p.c, p.s, p.t, p.m, i, j);
    }
  }

  /** Growing the band by one column on the right is enough for the next row. */
  lemma BandGrows(p: Problem, j: nat, lo: nat, hi: nat)
    requires p.Valid() && 0 < j <= |p.t| && p.BandHolds(j - 1, lo, hi)
    ensures p.BandHolds(j, lo, hi + 1)
  {
    forall i: nat | i <= |p.s| && p.Useful(i, j) ensures lo <= i < hi + 1 {
      UsefulAbove(p, i, j);
    }
  }

  /** If no entry of row `j` is useful then the distance exceeds the bound. */
  lemma {:induction false} UselessRow(p: Problem, j: nat, i': nat, j': nat)
    requires p.Valid() && p.BandHolds(j, 0, 0) && j <= j' <= |p.t| && i' <= |p.s|
    ensures !p.Useful(i', j')
  {
    if j < j' && p.Useful(i', j') {
      UsefulAbove(p, i', j');
      UselessRow(p, j, if i' == 0 then 0 else i' - 1, j' - 1);
    }
  }

  /** A useful entry in the last row reaches the corner by deletions. */
  lemma {:induction false} UsefulInLastRow(p: Problem, i: nat)
    requires p.Valid() && i <= |p.s| && p.Useful(i, |p.t|)
    ensures p.Useful(|p.s|, |p.t|)
    decreases |p.s| - i
  {
    if i < |p.s| {
      assert Recurrence(p.c, p.s, p.t, p.m, i + 1, |p.t|);
      assert p.RestAt(i, |p.t|) && p.RestAt(i + 1, |p.t|);
      Product(|p.s| - i - 1, p.c.del);
      UsefulInLastRow(p, i + 1);
    }
  }

  /** How far right of row 0 a useful entry can lie: nothing is lost by deleting down to the target's
      length, and each deletion beyond that forces an insertion. */
  ghost function LastUseful(p: Problem, unit: nat): int
    requires unit > 0
  {
    Surplus(p) + (p.bound - Residual(p.c, |p.t| - |p.s|)) / unit
  }

  ghost function Surplus(p: Problem): nat {
    if |p.t| < |p.s| then |p.s| - |p.t| else 0
  }

  /** The initial stop column: entries of row 0 from it on are useless. */
  lemma InitialBand(p: Problem, unit: nat)
    requires p.Valid() && p.bound >= Residual(p.c, |p.t| - |p.s|) && unit == p.c.ins + p.c.del > 0
    ensures p.BandHolds(0, 0, LastUseful(p, unit) + 1)
  {
    forall i: nat | LastUseful(p, unit) < i <= |p.s| ensures !p.Useful(i, 0) {
      ExtraDeletions(p, i, unit);
      QuotientExceeded(p.bound - Residual(p.c, |p.t| - |p.s|), unit, i - Surplus(p));
    }
  }

  lemma QuotientExceeded(slack: nat, unit: nat, extra: nat)
    requires unit > 0 && slack / unit + 1 <= extra
    ensures extra * unit > slack
  {
    var q := slack / unit;
    assert slack < (q + 1) * unit;
    assert (q + 1) * unit <= extra * unit;
  }

  lemma ExtraDeletions(p: Problem, i: nat, unit: nat)
    requires p.Valid() && Surplus(p) <= i <= |p.s| && unit == p.c.ins + p.c.del
    ensures p.m(i, 0) + p.rest(i, 0) == Residual(p.c, |p.t| - |p.s|) + (i - Surplus(p)) * unit
  {
    FirstRow(p.c, p.s, p.t, p.m, i);
    assert p.RestAt(i, 0);
    var k := |p.t| - |p.s|;
    if k < 0 {
      assert i * p.c.del == -k * p.c.del + (i + k) * p.c.del;
    } else {
      assert (k + i) * p.c.ins == k * p.c.ins + i * p.c.ins;
    }
  }

  /** The clamped costs have the same matrix and the same residuals. */
  lemma ClampedProblem(p: Problem)
    requires p.Valid()
    ensures p.(c := Clamped(p.c)).Valid() && p.(c := Clamped(p.c), bound := -1).Valid()
  {
    ClampingKeepsMatrix(p.c, p.s, p.t, p.m);
    var p1, p2 := p.(c := Clamped(p.c)), p.(c := Clamped(p.c), bound := -1);
    forall i: int, j: int ensures p1.RestAt(i, j) && p2.RestAt(i, j) {
      assert p.RestAt(i, j);
    }
  }

  lemma NothingLeft(p: Problem)
    requires p.Valid()
    ensures p.rest(|p.s|, |p.t|) == 0
  {
    assert p.RestAt(|p.s|, |p.t|);
  }

  // ----- The program -----

  /** The test for equal characters: last byte, then length, then all bytes from the last to the first. */
  method SameChar(x: Char, y: Char) returns (same: bool)
    requires x != [] && y != []
    ensures same <==> x == y
  {
    if x[|x| - 1] == y[|y| - 1] && |x| == |y| {
      same := true;
      if |x| != 1 {
        var len := |x|;
        while len > 0
          invariant 0 <= len <= |x|
          invariant forall k :: len <= k < |x| ==> x[k] == y[k]
        {
          len := len - 1;
          if x[len] != y[len] {
            return false;
          }
        }
      }
    } else {
      same := false;
    }
  }

  /** The cached character lengths, or nothing when every character of both strings is one byte. */
  datatype CharLengths = AllSingle | Lengths(of: seq<nat>)

  ghost predicate LengthsFor(lens: CharLengths, s: Text, t: Text) {
    match lens
    case AllSingle => s.SingleByte() && t.SingleByte()
    case Lengths(ls) => |ls| == |s.chars| + 1 && forall k :: 0 <= k < |s.chars| ==> ls[k] == |s.chars[k]|
  }

  method CacheLengths(ghost v: Text, ghost w: Text, mblen: Encoding, s: seq<byte>, tBytes: nat, m: nat, n: nat)
    returns (lens: CharLengths)
    requires v.Valid() && w.Valid() && v.mblen == mblen && v.bytes == s && |w.bytes| == tBytes
    requires m == |v.chars| && n == |w.chars|
    ensures LengthsFor(lens, v, w)
  {
    lens := AllSingle;
    if m != |s| || n != tBytes {
      var ls: seq<nat> := [];
      var cp, i := 0, 0;
      while i < m
        invariant 0 <= i <= m && |ls| == i && cp == v.off(i) && 0 <= cp <= |s|
        invariant forall k :: 0 <= k < i ==> ls[k] == |v.chars[k]|
      {
        assert v.Stands(i);
        ls := ls + [mblen(s[cp..])];
        cp := cp + ls[i];
        i := i + 1;
      }
      lens := Lengths(ls + [0]);
    }
  }

  /** The length of the character for row `j`, whose bytes start at `y`. */
  method RowCharLength(ghost w: Text, mblen: Encoding, t: seq<byte>, n: nat, y: nat, ghost j: nat) returns (yLen: nat)
    requires w.Valid() && w.mblen == mblen && w.bytes == t && 0 < j <= n == |w.chars| && y == w.off(j - 1) && y <= |t|
    ensures y + yLen <= |t| && t[y..y + yLen] == w.chars[j-1] && y + yLen == w.off(j)
  {
    assert w.Stands(j - 1);
    yLen := if n != |t| then mblen(t[y..]) else 1;
  }

  /** One cell of the row: the cheapest of insertion, deletion and substitution. */
  method CellValue(ghost p: Problem, c: Costs, ghost i: nat, ghost j: nat, up: int, left: int, diag: int, same: bool)
    returns (v: int)
    requires p.Valid() && p.c == c && 0 < i <= |p.s| && 0 < j <= |p.t| && (same <==> p.s[i-1] == p.t[j-1])
    requires p.Agrees(up, i, j - 1) && p.Agrees(left, i - 1, j) && p.Agrees(diag, i - 1, j - 1)
    ensures p.Agrees(v, i, j)
  {
    var ins := up + c.ins;
    var del := left + c.del;
    var sub := if same then diag else diag + c.sub;
    v := Min(ins, del);
    v := Min(v, sub);
    StepAgrees(p, i, j, up, left, diag, v);
  }

  ghost predicate Encoded(p: Problem, v: Text, w: Text) {
    v.Valid() && w.Valid() && v.chars == p.s && w.chars == p.t
  }

  /** Compares the character for column `k + 1`, whose bytes start at `x`, with `yc`; single-byte strings
      take the fast path. */
  method CompareAt(ghost v: Text, ghost w: Text, s: seq<byte>, lens: CharLengths, x: nat, k: nat, yc: Char, ghost j: nat)
    returns (xLen: nat, same: bool)
    requires v.Valid() && w.Valid() && v.bytes == s && LengthsFor(lens, v, w)
    requires k < |v.chars| && x == v.off(k) && j < |w.chars| && yc == w.chars[j]
    ensures same <==> v.chars[k] == w.chars[j]
    ensures x + xLen == v.off(k + 1)
  {
    assert v.Stands(k) && w.Stands(j);
    if lens.Lengths? {
      xLen := lens.of[k];
      same := SameChar(s[x..x + xLen], yc);
    } else {
      xLen := 1;
      same := s[x] == yc[0];
    }
  }

  /** The inner loop: fills columns `[first, stop)` of row `j`. The bytes of the character for column
      `first` start at `x0`; `yc` is the character for row `j`. */
  method FillRow(ghost p: Problem, ghost v: Text, ghost w: Text, s: seq<byte>, lens: CharLengths, c: Costs,
                 prev: array<int>, curr: array<int>, first: nat, stop: nat, x0: nat, yc: Char, ghost j: nat)
    requires p.Valid() && p.c == c && Encoded(p, v, w) && v.bytes == s && LengthsFor(lens, v, w)
    requires prev != curr && prev.Length == curr.Length == |p.s| + 1
    requires 0 < first <= stop <= |p.s| + 1 && 0 < j <= |p.t|
    requires x0 == v.off(first - 1) && yc == p.t[j-1]
    requires p.RowAgrees(prev[..], j - 1, first - 1, stop)
    requires p.Agrees(curr[first-1], first - 1, j)
    modifies curr
    ensures p.RowAgrees(curr[..], j, first - 1, stop)
    ensures forall k :: 0 <= k < first || stop <= k < curr.Length ==> curr[k] == old(curr[k])
  {
    ghost var row := prev[..];
    var x, i := x0, first;
    while i < stop
      invariant first <= i <= stop && x == v.off(i - 1) && prev[..] == row
      invariant forall k :: first - 1 <= k < i ==> p.Agrees(curr[k], k, j)
      invariant forall k :: 0 <= k < first || stop <= k < curr.Length ==> curr[k] == old(curr[k])
    {
      var xLen, same := CompareAt(v, w, s, lens, x, i - 1, yc, j - 1);
      assert row[i] == prev[i] && row[i-1] == prev[i-1];
      curr[i] := CellValue(p, c, i, j, prev[i], curr[i-1], prev[i-1], same);
      x := x + xLen;
      i := i + 1;
    }
  }

  ghost function ProblemOf(c: Costs, s: seq<Char>, t: seq<Char>, bound: int): (p: Problem)
    ensures p.Valid() && p.c == c && p.s == s && p.t == t && p.bound == bound
  {
    var p := Problem(c, s, t, MatrixOf(c, s, t), (i: int, j: int) => Residual(c, (|t| - j) - (|s| - i)), bound);
    p
  }

  /** What both routines share: an error for long strings, and otherwise a number. */
  ghost predicate TooLongFor(s: seq<Char>, t: seq<Char>) {
    s != [] && t != [] && (|s| > MAX_LEVENSHTEIN_STRLEN || |t| > MAX_LEVENSHTEIN_STRLEN)
  }

  /** 255 characters are allowed, 256 are not, except next to an empty string. */
  lemma LongestAllowed(s: seq<Char>, t: seq<Char>)
    ensures |s| <= 255 && |t| <= 255 ==> !TooLongFor(s, t)
    ensures s != [] && t != [] && (|s| >= 256 || |t| >= 256) ==> TooLongFor(s, t)
    ensures s == [] || t == [] ==> !TooLongFor(s, t)
  {}

  /** Row 0: `i` deletions turn the first `i` characters into nothing. */
  method FillFirstRow(ghost p: Problem, c: Costs, prev: array<int>, stop: nat)
    requires p.Valid() && p.c == c && stop <= prev.Length == |p.s| + 1
    modifies prev
    ensures p.RowAgrees(prev[..], 0, 0, stop)
  {
    var i := 0;
    while i < stop
      invariant 0 <= i <= stop
      invariant forall k :: 0 <= k < i ==> p.Agrees(prev[k], k, 0)
    {
      FirstRow(c, p.s, p.t, p.m, i);
      prev[i] := i * c.del;
      i := i + 1;
    }
  }

  /** One row of the unbounded routine, up to the swap of the arrays. */
  method FullRow(ghost p: Problem, ghost v: Text, ghost w: Text, s: seq<byte>, lens: CharLengths, c: Costs,
                 prev: array<int>, curr: array<int>, yc: Char, m: nat, j: nat)
    requires p.Valid() && p.c == c && p.bound < 0 && Encoded(p, v, w) && v.bytes == s && LengthsFor(lens, v, w)
    requires prev != curr && prev.Length == curr.Length == |p.s| + 1 == m + 1 && 0 < j <= |p.t| && yc == p.t[j-1]
    requires p.RowAgrees(prev[..], j - 1, 0, m + 1)
    modifies curr
    ensures p.RowAgrees(curr[..], j, 0, m + 1)
  {
    FirstColumn(c, p.s, p.t, p.m, j);
    curr[0] := j * c.ins;
    FillRow(p, v, w, s, lens, c, prev, curr, 1, m + 1, 0, yc, j);
  }

  method FullStep(ghost p: Problem, ghost v: Text, ghost w: Text, mblen: Encoding, s: seq<byte>, t: seq<byte>, lens: CharLengths, c: Costs,
                  prev: array<int>, curr: array<int>, m: nat, n: nat, y: nat, j: nat)
    returns (y': nat)
    requires p.Valid() && p.c == c && p.bound < 0 && Encoded(p, v, w) && v.bytes == s && w.bytes == t && LengthsFor(lens, v, w)
    requires w.mblen == mblen && m == |p.s| && n == |p.t| && 0 < j <= n && y == w.off(j - 1) && y <= |t|
    requires prev != curr && prev.Length == curr.Length == m + 1 && p.RowAgrees(prev[..], j - 1, 0, m + 1)
    modifies curr
    ensures p.RowAgrees(curr[..], j, 0, m + 1) && y' == w.off(j) <= |t|
  {
    var yLen := RowCharLength(w, mblen, t, n, y, j);
    FullRow(p, v, w, s, lens, c, prev, curr, t[y..y + yLen], m, j);
    y' := y + yLen;
  }

  /** The rows of the unbounded routine. */
  method FullRows(ghost p: Problem, ghost v: Text, ghost w: Text, mblen: Encoding, s: seq<byte>, t: seq<byte>, c: Costs, m: nat, n: nat)
    returns (d: int)
    requires p.Valid() && p.c == c && p.bound < 0 && Encoded(p, v, w) && v.bytes == s && w.bytes == t
    requires v.mblen == w.mblen == mblen && m == |p.s| && n == |p.t|
    ensures d == p.m(m, n)
  {
    var lens := CacheLengths(v, w, mblen, s, |t|, m, n);
    var prev, curr := new int[m + 1], new int[m + 1];
    FillFirstRow(p, c, prev, m + 1);
    var y, j := 0, 1;
    while j < n + 1
      invariant 1 <= j <= n + 1 && y == w.off(j - 1) && 0 <= y <= |t|
      invariant fresh(prev) && fresh(curr) && prev != curr && prev.Length == curr.Length == m + 1
      invariant p.RowAgrees(prev[..], j - 1, 0, m + 1)
    {
      y := FullStep(p, v, w, mblen, s, t, lens, c, prev, curr, m, n, y, j);
      prev, curr := curr, prev;
      j := j + 1;
    }
    LastCell(p, prev[..], m, n);
    d := prev[m];
  }

  /** The last cell of a row that agrees with the last row of the matrix. */
  lemma LastCell(p: Problem, row: seq<int>, m: nat, n: nat)
    requires |row| == m + 1 && p.bound < 0 && p.RowAgrees(row, n, 0, m + 1)
    ensures row[m] == p.m(m, n)
  {
    assert p.Agrees(row[m], m, n);
  }

  /** Both routines answer at once for an empty string and refuse long ones. */
  method EasyCases(ghost p: Problem, c: Costs, m: nat, n: nat) returns (easy: bool, r: Result)
    requires p.Valid() && p.c == c && m == |p.s| && n == |p.t|
    ensures easy <==> m == 0 || n == 0 || TooLongFor(p.s, p.t)
    ensures easy ==> r == if TooLongFor(p.s, p.t) then TooLong else Value(p.m(m, n))
  {
    easy, r := true, TooLong;
    if m == 0 {
      FirstColumn(c, p.s, p.t, p.m, n);
      r := Value(n * c.ins);
    } else if n == 0 {
      FirstRow(c, p.s, p.t, p.m, m);
      r := Value(m * c.del);
    } else if !(m > MAX_LEVENSHTEIN_STRLEN || n > MAX_LEVENSHTEIN_STRLEN) {
      easy := false;
    }
  }

  /** `levenshtein_internal`. */
  method LevenshteinInternal(mblen: Encoding, s: seq<byte>, t: seq<byte>, insC: nat, delC: nat, subC: nat)
    returns (r: Result)
    requires WellEncoded(mblen, s) && WellEncoded(mblen, t)
    ensures var cs, ct := Chars(mblen, s), Chars(mblen, t);
            r == if TooLongFor(cs, ct) then TooLong else Value(Distance(Costs(insC, delC, subC), cs, ct))
  {
    var m, n := |Chars(mblen, s)|, |Chars(mblen, t)|;
    var c := Costs(insC, delC, subC);
    ghost var v, w := TextOf(mblen, s), TextOf(mblen, t);
    ghost var p := ProblemOf(c, v.chars, w.chars, -1);
    var easy;
    easy, r := EasyCases(p, c, m, n);
    if !easy {
      var d := FullRows(p, v, w, mblen, s, t, c, m, n);
      r := Value(d);
    }
    CornerIsDistance(c, p.s, p.t, p.m);
  }

  // ----- The banded routine -----

  /** Between rows: `prev` holds row `j` on the band, and both arrays are overwritten to its left. */
  ghost predicate Band(p: Problem, prev: seq<int>, curr: seq<int>, j: nat, start: nat, stop: nat)
    requires |prev| == |curr| == |p.s| + 1
  {
    && start <= stop <= |p.s| + 1
    && p.BandHolds(j, start, stop)
    && p.RowAgrees(prev, j, start, stop)
    && (forall i :: 0 <= i < start ==> prev[i] == curr[i] == p.bound + 1)
    && (p.bound < 0 ==> start == 0 && stop == |p.s| + 1)
  }

  /** `s_data` points at the character before the start column, or at the first one. */
  ghost function Before(start: nat): nat {
    if start == 0 then 0 else start - 1
  }

  /** One row of the banded routine, up to the swap of the arrays. */
  method BandedRow(ghost p: Problem, ghost v: Text, ghost w: Text, s: seq<byte>, lens: CharLengths, c: Costs, maxD: int,
                   prev: array<int>, curr: array<int>, start: nat, stop0: nat, sData: nat, yc: Char, j: nat)
    returns (stop: nat)
    requires p.Valid() && p.c == c && p.bound == maxD && Encoded(p, v, w) && v.bytes == s && LengthsFor(lens, v, w)
    requires prev != curr && prev.Length == curr.Length == |p.s| + 1 && 0 < j <= |p.t| && yc == p.t[j-1]
    requires start < stop0 && Band(p, prev[..], curr[..], j - 1, start, stop0)
    requires sData == v.off(Before(start))
    modifies prev, curr
    ensures stop0 <= stop <= |p.s| + 1 && p.BandHolds(j, start, stop) && p.RowAgrees(curr[..], j, 0, stop)
    ensures forall i :: 0 <= i < start ==> prev[i] == curr[i] == p.bound + 1
    ensures p.bound < 0 ==> stop == |p.s| + 1
  {
    BandGrows(p, j, start, stop0);
    stop := stop0;
    if stop < prev.Length {
      prev[stop] := maxD + 1;
      OverwrittenAgrees(p, stop, j - 1);
      stop := stop + 1;
    }
    forall i | 0 <= i < start ensures p.Agrees(prev[i], i, j - 1) && p.Agrees(curr[i], i, j) {
      OverwrittenAgrees(p, i, j - 1);
      OverwrittenAgrees(p, i, j);
    }
    var first := start;
    if start == 0 {
      FirstColumn(c, p.s, p.t, p.m, j);
      curr[0] := j * c.ins;
      first := 1;
    }
    FillRow(p, v, w, s, lens, c, prev, curr, first, stop, sData, yc, j);
  }

  /** `residual + value <= max_d`, as the sliding loops test it. */
  method StillUseful(ghost p: Problem, c: Costs, value: int, i: nat, zp: int, maxD: int, ghost j: nat) returns (u: bool)
    requires p.Valid() && p.c == c && p.bound == maxD >= 0 && zp == j - (|p.t| - |p.s|)
    requires p.Agrees(value, i, j)
    ensures u <==> p.Useful(i, j)
  {
    var netInserts := i - zp;
    u := value + (if netInserts > 0 then netInserts * c.ins else -netInserts * c.del) <= maxD;
    assert p.RestAt(i, j);
  }

  method SlideStop(ghost p: Problem, c: Costs, prev: array<int>, ghost start: nat, stop0: nat, zp: int, maxD: int, ghost j: nat)
    returns (stop: nat)
    requires p.Valid() && p.c == c && p.bound == maxD >= 0 && zp == j - (|p.t| - |p.s|)
    requires stop0 <= prev.Length == |p.s| + 1 && p.BandHolds(j, start, stop0) && p.RowAgrees(prev[..], j, 0, stop0)
    ensures stop <= stop0 && p.BandHolds(j, start, stop)
  {
    stop := stop0;
    while stop > 0
      invariant 0 <= stop <= stop0 && p.BandHolds(j, start, stop)
    {
      var ii := stop - 1;
      assert prev[..][ii] == prev[ii];
      var useful := StillUseful(p, c, prev[ii], ii, zp, maxD, j);
      if useful {
        break;
      }
      stop := stop - 1;
    }
  }

  method SlideStart(ghost p: Problem, ghost v: Text, ghost w: Text, lens: CharLengths, c: Costs, prev: array<int>, curr: array<int>,
                    start0: nat, stop: nat, sData0: nat, zp: int, maxD: int, ghost j: nat)
    returns (start: nat, sData: nat)
    requires p.Valid() && p.c == c && p.bound == maxD >= 0 && zp == j - (|p.t| - |p.s|)
    requires Encoded(p, v, w) && LengthsFor(lens, v, w)
    requires prev != curr && stop <= prev.Length == curr.Length == |p.s| + 1 && start0 <= |p.s|
    requires p.BandHolds(j, start0, stop) && p.RowAgrees(prev[..], j, 0, stop)
    requires forall i :: 0 <= i < start0 ==> prev[i] == curr[i] == p.bound + 1
    requires sData0 == v.off(Before(start0))
    modifies prev, curr
    ensures start >= stop ==> p.BandHolds(j, 0, 0)
    ensures start < stop ==> p.Useful(start, j) && Band(p, prev[..], curr[..], j, start, stop)
    ensures start < stop ==> sData == v.off(Before(start))
  {
    start, sData := start0, sData0;
    while start < stop
      invariant start0 <= start && (start0 <= stop ==> start <= stop) && (start0 > stop ==> start == start0)
      invariant p.BandHolds(j, start, stop)
      invariant forall i :: start <= i < stop ==> p.Agrees(prev[i], i, j)
      invariant forall i :: 0 <= i < start ==> prev[i] == curr[i] == p.bound + 1
      invariant start <= |p.s| ==> sData == v.off(Before(start))
    {
      var useful := StillUseful(p, c, prev[start], start, zp, maxD, j);
      if useful {
        break;
      }
      prev[start] := maxD + 1;
      curr[start] := maxD + 1;
      sData := NextStart(v, w, lens, start, sData);
      start := start + 1;
    }
  }

  /** `s_data` when the start column moves right: it stays put once, from column 0 to column 1. */
  method NextStart(ghost v: Text, ghost w: Text, lens: CharLengths, start: nat, sData0: nat) returns (sData: nat)
    requires v.Valid() && w.Valid() && LengthsFor(lens, v, w) && start <= |v.chars| && sData0 == v.off(Before(start))
    ensures sData == v.off(Before(start + 1))
  {
    sData := sData0;
    if start != 0 {
      assert v.Stands(start - 1);
      sData := sData + if lens.Lengths? then lens.of[start - 1] else 1;
    }
  }

  /** One whole iteration of the outer loop: row `j` goes into `curr`, then the band slides. */
  method BandedStep(ghost p: Problem, ghost v: Text, ghost w: Text, s: seq<byte>, lens: CharLengths, c: Costs, maxD: int,
                    prev: array<int>, curr: array<int>, start0: nat, stop0: nat, sData0: nat, yc: Char, m: nat, n: nat, j: nat)
    returns (start: nat, stop: nat, sData: nat)
    requires p.Valid() && p.c == c && p.bound == maxD && Encoded(p, v, w) && v.bytes == s && LengthsFor(lens, v, w)
    requires m == |p.s| && n == |p.t|
    requires prev != curr && prev.Length == curr.Length == |p.s| + 1 && 0 < j <= |p.t| && yc == p.t[j-1]
    requires start0 < stop0 && Band(p, prev[..], curr[..], j - 1, start0, stop0)
    requires sData0 == v.off(Before(start0))
    modifies prev, curr
    ensures start >= stop ==> p.BandHolds(j, 0, 0)
    ensures start < stop ==> p.Useful(start, j) && Band(p, curr[..], prev[..], j, start, stop) && sData == v.off(Before(start))
  {
    start, sData := start0, sData0;
    stop := BandedRow(p, v, w, s, lens, c, maxD, prev, curr, start, stop0, sData, yc, j);
    if maxD >= 0 {
      var zp := j - (n - m);
      stop := SlideStop(p, c, curr, start, stop, zp, maxD, j);
      start, sData := SlideStart(p, v, w, lens, c, curr, prev, start, stop, sData, zp, maxD, j);
    }
  }

  /** A band that holds a useful cell of the last row holds the last cell. */
  lemma LastBandCell(p: Problem, prev: seq<int>, curr: seq<int>, start: nat, stop: nat)
    requires p.Valid() && |prev| == |curr| == |p.s| + 1 && start < stop
    requires Band(p, prev, curr, |p.t|, start, stop) && p.Useful(start, |p.t|)
    ensures p.Useful(|p.s|, |p.t|) && prev[|p.s|] == p.m(|p.s|, |p.t|)
  {
    UsefulInLastRow(p, start);
    assert p.Agrees(prev[|p.s|], |p.s|, |p.t|);
  }

  /** The rows of the bounded routine. */
  method BandedRows(ghost p: Problem, ghost v: Text, ghost w: Text, mblen: Encoding, s: seq<byte>, t: seq<byte>,
                    c: Costs, maxD: int, m: nat, n: nat, stop0: nat)
    returns (d: int)
    requires p.Valid() && p.c == c && p.bound == maxD && Encoded(p, v, w) && v.bytes == s && w.bytes == t
    requires v.mblen == w.mblen == mblen && m == |p.s| > 0 && n == |p.t| > 0
    requires 0 < stop0 <= m + 1 && p.BandHolds(0, 0, stop0) && (p.bound < 0 ==> stop0 == m + 1)
    ensures d == if p.Useful(m, n) then p.m(m, n) else p.bound + 1
  {
    var start, stop, sData := 0, stop0, 0;
    var lens := CacheLengths(v, w, mblen, s, |t|, m, n);
    var prev, curr := new int[m + 1], new int[m + 1];
    FillFirstRow(p, c, prev, stop);
    var y, j := 0, 1;
    while j < n + 1
      invariant 1 <= j <= n + 1 && y == w.off(j - 1) && 0 <= y <= |t|
      invariant fresh(prev) && fresh(curr) && prev != curr && prev.Length == curr.Length == m + 1
      invariant start < stop && Band(p, prev[..], curr[..], j - 1, start, stop)
      invariant sData == v.off(Before(start))
      invariant j > 1 ==> p.Useful(start, j - 1)
    {
      var yLen := RowCharLength(w, mblen, t, n, y, j);
      start, stop, sData := BandedStep(p, v, w, s, lens, c, maxD, prev, curr, start, stop, sData, t[y..y + yLen], m, n, j);
      prev, curr := curr, prev;
      y := y + yLen;
      if start >= stop {
        UselessRow(p, j, m, n);
        return maxD + 1;
      }
      j := j + 1;
    }
    LastBandCell(p, prev[..], curr[..], start, stop);
    d := prev[m];
  }

  /** What the bounded routine returns: for an empty string the bound is not looked at. */
  ghost function LessEqualResult(c: Costs, cs: seq<Char>, ct: seq<Char>, maxD: int): Result {
    var d := Distance(c, cs, ct);
    if TooLongFor(cs, ct) then TooLong
    else if cs == [] || ct == [] || maxD < 0 || d <= maxD then Value(d)
    else Value(maxD + 1)
  }

  /** What it is documented to return for a bound that is not negative. */
  ghost function BoundedDistance(c: Costs, cs: seq<Char>, ct: seq<Char>, maxD: nat): Result {
    var d := Distance(c, cs, ct);
    Value(if d <= maxD then d else maxD + 1)
  }

  /** Only insertions or only deletions are needed next to an empty string. */
  lemma EmptyDistance(c: Costs, cs: seq<Char>, ct: seq<Char>)
    requires cs == [] || ct == []
    ensures Distance(c, cs, ct) == |cs| * c.del + |ct| * c.ins
  {
    var m := MatrixOf(c, cs, ct);
    CornerIsDistance(c, cs, ct, m);
    if cs == [] { FirstColumn(c, cs, ct, m, |ct|); } else { FirstRow(c, cs, ct, m, |cs|); }
  }

  /** It does what is documented if and only if both strings have characters, or one has none and the price of
      making up for the other exceeds the bound by at most one. */
  lemma BoundKeptIff(c: Costs, cs: seq<Char>, ct: seq<Char>, maxD: nat)
    requires !TooLongFor(cs, ct)
    ensures LessEqualResult(c, cs, ct, maxD) == BoundedDistance(c, cs, ct, maxD)
       <==> (cs != [] && ct != []) || |cs| * c.del + |ct| * c.ins <= maxD + 1
  {
    if cs == [] || ct == [] { EmptyDistance(c, cs, ct); }
  }

  /** Nothing against three characters at unit costs and bound 1: the result is 3, not 2. */
  lemma BoundIgnored(ct: seq<Char>)
    requires |ct| == 3
    ensures LessEqualResult(Costs(1, 1, 1), [], ct, 1) == Value(3) && BoundedDistance(Costs(1, 1, 1), [], ct, 1) == Value(2)
  {
    EmptyDistance(Costs(1, 1, 1), [], ct);
  }

  /** `levenshtein_less_equal_internal`. */
  method LevenshteinLessEqualInternal(mblen: Encoding, s: seq<byte>, t: seq<byte>, insC: nat, delC: nat, subC: nat, maxD: int)
    returns (r: Result)
    requires WellEncoded(mblen, s) && WellEncoded(mblen, t)
    ensures r == LessEqualResult(Costs(insC, delC, subC), Chars(mblen, s), Chars(mblen, t), maxD)
  {
    var m, n := |Chars(mblen, s)|, |Chars(mblen, t)|;
    var c := Costs(insC, delC, subC);
    ghost var v, w := TextOf(mblen, s), TextOf(mblen, t);
    ghost var p := ProblemOf(c, v.chars, w.chars, maxD);
    var easy;
    easy, r := EasyCases(p, c, m, n);
    if !easy {
      var d := Bounded(p, v, w, mblen, s, t, c, maxD, m, n);
      r := Value(d);
    }
    CornerIsDistance(c, p.s, p.t, p.m);
  }

  /** How much of the first row matters. */
  method InitialStop(ghost p: Problem, c: Costs, maxD: int, minTheo: int, m: nat, n: nat) returns (stop: nat)
    requires p.Valid() && p.c == c && p.bound == maxD >= minTheo == Residual(c, n - m) && m == |p.s| && n == |p.t|
    ensures 0 < stop <= m + 1 && p.BandHolds(0, 0, stop)
  {
    stop := m + 1;
    if c.ins + c.del > 0 {
      var slack := maxD - minTheo;
      var best := if n - m < 0 then m - n else 0;
      ResidualStep(c, n - m);
      stop := best + slack / (c.ins + c.del) + 1;
      InitialBand(p, c.ins + c.del);
      if stop > m {
        stop := m + 1;
      }
    }
  }

  /** The bound's own easy cases, the clamped substitution cost and the initial stop column. */
  method Bounded(ghost p: Problem, ghost v: Text, ghost w: Text, mblen: Encoding, s: seq<byte>, t: seq<byte>,
                 c: Costs, maxD: int, m: nat, n: nat)
    returns (d: int)
    requires p.Valid() && p.c == c && p.bound == maxD && Encoded(p, v, w) && v.bytes == s && w.bytes == t
    requires v.mblen == w.mblen == mblen && m == |p.s| > 0 && n == |p.t| > 0
    ensures d == if maxD < 0 || p.m(m, n) <= maxD then p.m(m, n) else maxD + 1
  {
    var stop := m + 1;
    if maxD < 0 {
      d := BandedRows(p, v, w, mblen, s, t, c, maxD, m, n, stop);
      return;
    }
    var netInserts := n - m;
    var minTheo := if netInserts < 0 then -netInserts * c.del else netInserts * c.ins;
    ResidualIsLowerBound(c, p.s, p.t, p.m, m, n);
    if minTheo > maxD {
      return maxD + 1;
    }
    var c' := Clamped(c);
    ClampedProblem(p);
    SubstituteAllIsUpperBound(c', p.s, p.t, p.m, m, n);
    var maxTheo := minTheo + c'.sub * Min(m, n);
    if maxD >= maxTheo {
      d := BandedRows(p.(c := c', bound := -1), v, w, mblen, s, t, c', -1, m, n, stop);
    } else {
      ghost var p' := p.(c := c');
      NothingLeft(p');
      stop := InitialStop(p', c', maxD, minTheo, m, n);
      d := BandedRows(p', v, w, mblen, s, t, c', maxD, m, n, stop);
    }
  }
}
