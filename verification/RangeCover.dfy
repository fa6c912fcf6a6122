/** Covering a sorted list of integers by few intervals: keeping the widest gaps open is optimal. */
module RangeCover {

  datatype Range = Range(lo: int, hi: int) {
    ghost predicate Holds(x: int) { lo <= x <= hi }
  }

  ghost predicate Held(rs: seq<Range>, x: int) {
    exists k :: 0 <= k < |rs| && rs[k].Holds(x)
  }

  /** `c` holds exactly the integers that lie in some range. */
  ghost predicate UnionOf(c: set<int>, rs: seq<Range>) {
    forall x: int :: x in c <==> Held(rs, x)
  }

  ghost function Nth(a: int, k: int): int {
    a + 1 + k
  }

  /** The integers above `a` up to `b`. */
  ghost function Interval(a: int, b: int): (i: set<int>)
    ensures forall x :: x in i <==> a < x <= b
  {
    var i := set k | 0 <= k < b - a :: Nth(a, k);
    assert forall x :: a < x <= b ==> x in i by {
      forall x | a < x <= b ensures x in i { assert Nth(a, x - a - 1) == x; }
    }
    i
  }

  lemma {:induction false} IntervalSize(a: int, b: int)
    requires a <= b
    ensures |Interval(a, b)| == b - a
    decreases b - a
  {
    if a == b {
      assert Interval(a, b) == {};
    } else {
      IntervalSize(a, b - 1);
      assert Interval(a, b) == Interval(a, b - 1) + {b};
    }
  }

  ghost predicate Ascending(s: seq<int>) {
    forall i, j :: 0 <= i < j < |s| ==> s[i] < s[j]
  }

  ghost function Gap(s: seq<int>, i: int): int
    requires 1 <= i < |s|
  {
    s[i] - s[i-1]
  }

  /** What covering the first `n + 1` elements costs when only the gaps in `open` are left open. */
  ghost function Weight(s: seq<int>, open: set<int>, n: nat): int
    requires n < |s|
  {
    if n == 0 then 1 else Weight(s, open, n - 1) + if n in open then 1 else Gap(s, n)
  }

  // ----- Any cover costs at least the weight of the gaps it leaves open -----

  lemma SubsetSize<T>(a: set<T>, b: set<T>)
    requires a <= b
    ensures |a| <= |b|
  {
    assert b == a + (b - a);
  }

  ghost predicate Hole(s: seq<int>, c: set<int>, i: int)
    requires 1 <= i < |s|
  {
    !(Interval(s[i-1], s[i]) <= c)
  }

  /** The gaps in which some integer is not covered. */
  ghost function Broken(s: seq<int>, c: set<int>): set<int> {
    set i | 1 <= i < |s| && Hole(s, c, i)
  }

  lemma {:induction false} CoverWeight(s: seq<int>, c: set<int>, n: nat)
    requires Ascending(s) && n < |s| && forall i :: 0 <= i < |s| ==> s[i] in c
    ensures |c * Interval(s[0] - 1, s[n])| >= Weight(s, Broken(s, c), n)
  {
    var now := c * Interval(s[0] - 1, s[n]);
    if n == 0 {
      assert now == {s[0]};
    } else {
      CoverWeight(s, c, n - 1);
      var before, step := c * Interval(s[0] - 1, s[n-1]), c * Interval(s[n-1], s[n]);
      assert s[0] <= s[n-1] < s[n];
      assert now == before + step && before !! step;
      if n in Broken(s, c) {
        SubsetSize({s[n]}, step);
      } else {
        assert step == Interval(s[n-1], s[n]);
        IntervalSize(s[n-1], s[n]);
      }
    }
  }

  /** A range that holds `x`, if there is one. */
  ghost function Holder(rs: seq<Range>, x: int): (k: int)
    ensures Held(rs, x) ==> 0 <= k < |rs| && rs[k].Holds(x)
  {
    if Held(rs, x) then var k :| 0 <= k < |rs| && rs[k].Holds(x); k else 0
  }

  ghost function HolderBefore(s: seq<int>, rs: seq<Range>, i: int): int
    requires 1 <= i <= |s|
  {
    Holder(rs, s[i-1])
  }

  /** The element before gap `i` shares its range with no element after the gap. */
  ghost predicate Separated(s: seq<int>, rs: seq<Range>, i: int)
    requires 1 <= i <= |s|
  {
    forall j :: i < j <= |s| ==> HolderBefore(s, rs, i) != HolderBefore(s, rs, j)
  }

  lemma BrokenSeparates(s: seq<int>, rs: seq<Range>, c: set<int>, i: int)
    requires Ascending(s) && UnionOf(c, rs) && (forall i :: 0 <= i < |s| ==> s[i] in c) && i in Broken(s, c)
    ensures Separated(s, rs, i)
  {
    forall j | i < j <= |s| ensures HolderBefore(s, rs, i) != HolderBefore(s, rs, j) {
      DifferentHolders(s, rs, c, i, j);
    }
  }

  lemma FewSeparated(s: seq<int>, rs: seq<Range>, b: set<int>)
    requires s != [] && forall i :: 1 <= i <= |s| ==> 0 <= HolderBefore(s, rs, i) < |rs|
    requires forall i :: i in b ==> 1 <= i < |s| && Separated(s, rs, i)
    ensures |b| < |rs|
  {
    var f := (i: int) => if 1 <= i <= |s| then HolderBefore(s, rs, i) else 0;
    InjectiveSize(b + {|s|}, f, |rs|);
  }

  /** Every open gap separates two ranges, so there are fewer open gaps than ranges. */
  lemma FewBroken(s: seq<int>, rs: seq<Range>, c: set<int>)
    requires Ascending(s) && s != [] && UnionOf(c, rs) && forall i :: 0 <= i < |s| ==> s[i] in c
    ensures |Broken(s, c)| < |rs|
  {
    var b := Broken(s, c);
    forall i | i in b ensures 1 <= i < |s| && Separated(s, rs, i) {
      BrokenSeparates(s, rs, c, i);
    }
    forall i | 1 <= i <= |s| ensures 0 <= HolderBefore(s, rs, i) < |rs| {
      assert s[i-1] in c;
    }
    FewSeparated(s, rs, b);
  }

  /** A range that holds an element on each side of a gap would leave no hole in it. */
  lemma DifferentHolders(s: seq<int>, rs: seq<Range>, c: set<int>, i: int, j: int)
    requires Ascending(s) && UnionOf(c, rs) && 1 <= i < j <= |s| && Hole(s, c, i)
    requires s[i-1] in c && s[j-1] in c
    ensures Holder(rs, s[i-1]) != Holder(rs, s[j-1])
  {
    var k := Holder(rs, s[i-1]);
    var x :| x in Interval(s[i-1], s[i]) && x !in c;
    assert s[i] <= s[j-1];
    assert !Held(rs, x);
    assert !rs[k].Holds(x);
  }

  lemma {:induction false} InjectiveSize(e: set<int>, f: int -> int, n: nat)
    requires forall i :: i in e ==> 0 <= f(i) < n
    requires forall i, j :: i in e && j in e && i < j ==> f(i) != f(j)
    ensures |e| <= n
    decreases n
  {
    if n == 0 {
      assert forall i :: i in e ==> f(i) < 0 && f(i) >= 0;
      assert forall i :: i !in e;
    } else if i :| i in e && f(i) == n - 1 {
      InjectiveSize(e - {i}, f, n - 1);
    } else {
      InjectiveSize(e, f, n - 1);
    }
  }

  // ----- Opening the widest gaps weighs least -----

  /** All gaps left open are at least `t` wide and all others at most `t`. */
  ghost predicate Threshold(s: seq<int>, open: set<int>, t: int) {
    t >= 1 && forall i :: 1 <= i < |s| ==> if i in open then Gap(s, i) >= t else Gap(s, i) <= t
  }

  ghost function Upto(open: set<int>, n: nat): set<int> {
    set i | i in open && 1 <= i <= n
  }

  /** With threshold `t` an opening saves `gap - t` over `t - 1`; no other choice saves more. */
  lemma {:induction false} WidestIsBest(s: seq<int>, open: set<int>, other: set<int>, t: int, n: nat)
    requires Ascending(s) && Threshold(s, open, t) && n < |s|
    ensures Weight(s, open, n) + (t - 1) * |Upto(open, n)| <= Weight(s, other, n) + (t - 1) * |Upto(other, n)|
  {
    if n == 0 {
      assert Upto(open, 0) == {} && Upto(other, 0) == {};
    } else {
      WidestIsBest(s, open, other, t, n - 1);
      UptoStep(open, n, t);
      UptoStep(other, n, t);
    }
  }

  lemma UptoStep(open: set<int>, n: nat, t: int)
    requires n > 0
    ensures (t - 1) * |Upto(open, n)| == (t - 1) * |Upto(open, n - 1)| + if n in open then t - 1 else 0
  {
    if n in open {
      assert Upto(open, n) == Upto(open, n - 1) + {n};
      var a := |Upto(open, n - 1)|;
      assert (t - 1) * (a + 1) == (t - 1) * a + (t - 1);
    } else {
      assert Upto(open, n) == Upto(open, n - 1);
    }
  }

  // ----- Ranges made from a list by opening gaps -----

  /** The first index of each range. */
  ghost predicate Starts(starts: seq<int>, n: nat) {
    && 0 < |starts| && starts[0] == 0 && Ascending(starts) && starts[|starts| - 1] < n
  }

  ghost function LastOf(starts: seq<int>, k: int, n: nat): int
    requires 0 <= k < |starts|
  {
    if k + 1 < |starts| then starts[k+1] - 1 else n - 1
  }

  ghost function RangesOf(s: seq<int>, starts: seq<int>): seq<Range>
    requires Starts(starts, |s|)
  {
    seq(|starts|, k requires 0 <= k < |starts| =>
      assert 0 <= starts[k] <= LastOf(starts, k, |s|) < |s| by { StartBounds(starts, |s|, k); }
      Range(s[starts[k]], s[LastOf(starts, k, |s|)]))
  }

  lemma StartBounds(starts: seq<int>, n: nat, k: int)
    requires Starts(starts, n) && 0 <= k < |starts|
    ensures 0 <= starts[k] <= LastOf(starts, k, n) < n
  {}

  ghost function Opened(starts: seq<int>): set<int> {
    set k | 1 <= k < |starts| :: starts[k]
  }

  lemma {:induction false} OpenedSize(starts: seq<int>)
    requires 0 < |starts| && Ascending(starts)
    ensures |Opened(starts)| == |starts| - 1
    decreases |starts|
  {
    if |starts| == 1 {
      assert Opened(starts) == {};
    } else {
      var front, x := starts[..|starts| - 1], starts[|starts| - 1];
      OpenedSize(front);
      assert Opened(starts) == Opened(front) + {x} by {
        forall i | i in Opened(starts) ensures i in Opened(front) + {x} {
          var k :| 1 <= k < |starts| && starts[k] == i;
          if k < |front| { assert front[k] == i; }
        }
        forall i | i in Opened(front) ensures i in Opened(starts) {
          var k :| 1 <= k < |front| && front[k] == i;
          assert starts[k] == i;
        }
      }
    }
  }

  /** Between two elements the ranges hold everything, or, at the start of a range, only the end. */
  lemma RangesBetween(s: seq<int>, starts: seq<int>, n: int, x: int)
    requires Ascending(s) && Starts(starts, |s|) && 1 <= n < |s| && n in Opened(starts) && s[n-1] < x < s[n]
    ensures !Held(RangesOf(s, starts), x)
  {
    var rs := RangesOf(s, starts);
    var m :| 1 <= m < |starts| && starts[m] == n;
    forall k | 0 <= k < |rs| ensures !rs[k].Holds(x) {
      StartBounds(starts, |s|, k);
      var last := LastOf(starts, k, |s|);
      if k < m {
        assert last <= n - 1;
        assert s[last] <= s[n-1];
      } else {
        assert starts[k] >= n;
        assert s[n] <= s[starts[k]];
      }
    }
  }

  /** In the gap before element `n` only the element itself is held. */
  ghost predicate OnlyEnd(s: seq<int>, c: set<int>, n: int)
    requires 1 <= n < |s|
  {
    c * Interval(s[n-1], s[n]) <= {s[n]}
  }

  /** A set that leaves some gaps open costs at most the weight of those gaps. */
  lemma {:induction false} OpenWeight(s: seq<int>, open: set<int>, c: set<int>, n: nat)
    requires Ascending(s) && n < |s| && forall i :: 1 <= i < |s| && i in open ==> OnlyEnd(s, c, i)
    ensures |c * Interval(s[0] - 1, s[n])| <= Weight(s, open, n)
  {
    var now := c * Interval(s[0] - 1, s[n]);
    if n == 0 {
      SubsetSize(now, {s[0]});
    } else {
      OpenWeight(s, open, c, n - 1);
      var before, step := c * Interval(s[0] - 1, s[n-1]), c * Interval(s[n-1], s[n]);
      assert s[0] <= s[n-1] < s[n];
      assert now == before + step;
      if n in open {
        SubsetSize(step, {s[n]});
      } else {
        IntervalSize(s[n-1], s[n]);
        SubsetSize(step, Interval(s[n-1], s[n]));
      }
    }
  }

  lemma RangesLeaveOpen(s: seq<int>, starts: seq<int>, c: set<int>, n: int)
    requires Ascending(s) && Starts(starts, |s|) && UnionOf(c, RangesOf(s, starts)) && 1 <= n < |s| && n in Opened(starts)
    ensures OnlyEnd(s, c, n)
  {
    var step := c * Interval(s[n-1], s[n]);
    forall x | x in step ensures x == s[n] {
      if x < s[n] { RangesBetween(s, starts, n, x); }
    }
  }

  lemma RangesWithin(s: seq<int>, starts: seq<int>, x: int)
    requires Ascending(s) && Starts(starts, |s|) && Held(RangesOf(s, starts), x)
    ensures s[0] <= x <= s[|s| - 1]
  {
    var rs := RangesOf(s, starts);
    var k :| 0 <= k < |rs| && rs[k].Holds(x);
    StartBounds(starts, |s|, k);
  }

  /** Every element lies in the range that starts last before it. */
  lemma {:induction false} RangesCover(s: seq<int>, starts: seq<int>, i: int, k: int)
    requires Ascending(s) && Starts(starts, |s|) && 0 <= k < |starts| && starts[k] <= i < |s|
    ensures Held(RangesOf(s, starts), s[i])
    decreases |starts| - k
  {
    if k + 1 < |starts| && starts[k+1] <= i {
      RangesCover(s, starts, i, k + 1);
    } else {
      StartBounds(starts, |s|, k);
      assert RangesOf(s, starts)[k].Holds(s[i]);
    }
  }

  lemma UptoAll(open: set<int>, n: nat)
    requires forall i :: i in open ==> 1 <= i <= n
    ensures Upto(open, n) == open
  {}

  lemma ProductLe(k: nat, a: nat, b: nat)
    requires a <= b
    ensures k * a <= k * b
  {}

  lemma WeightCompare(s: seq<int>, open: set<int>, other: set<int>, t: int)
    requires Ascending(s) && s != [] && Threshold(s, open, t) && |other| <= |open|
    requires forall i :: i in open || i in other ==> 1 <= i < |s|
    ensures Weight(s, open, |s| - 1) <= Weight(s, other, |s| - 1)
  {
    var n := |s| - 1;
    WidestIsBest(s, open, other, t, n);
    assert Upto(open, n) == open by { UptoAll(open, n); }
    assert Upto(other, n) == other by { UptoAll(other, n); }
    ProductLe(t - 1, |other|, |open|);
  }

  lemma RangesSize(s: seq<int>, starts: seq<int>, c: set<int>)
    requires Ascending(s) && Starts(starts, |s|) && UnionOf(c, RangesOf(s, starts))
    ensures |c| <= Weight(s, Opened(starts), |s| - 1)
  {
    forall i | 1 <= i < |s| && i in Opened(starts) ensures OnlyEnd(s, c, i) { RangesLeaveOpen(s, starts, c, i); }
    OpenWeight(s, Opened(starts), c, |s| - 1);
    forall x | x in c ensures x in Interval(s[0] - 1, s[|s| - 1]) { RangesWithin(s, starts, x); }
    assert c * Interval(s[0] - 1, s[|s| - 1]) == c;
  }

  lemma OpenedBounds(starts: seq<int>, n: nat, i: int)
    requires Starts(starts, n) && i in Opened(starts)
    ensures 1 <= i < n
  {
    var k :| 1 <= k < |starts| && starts[k] == i;
    StartBounds(starts, n, k);
  }

  /** The ranges made by opening the widest gaps hold no more integers than any cover of the list by at
      most as many ranges. */
  lemma RangesAreOptimal(s: seq<int>, starts: seq<int>, t: int, c: set<int>, rs: seq<Range>, d: set<int>)
    requires Ascending(s) && Starts(starts, |s|) && Threshold(s, Opened(starts), t) && UnionOf(c, RangesOf(s, starts))
    requires |rs| <= |starts| && UnionOf(d, rs) && forall i :: 0 <= i < |s| ==> s[i] in d
    ensures |c| <= |d|
  {
    var open, other := Opened(starts), Broken(s, d);
    assert |c| <= Weight(s, open, |s| - 1) by { RangesSize(s, starts, c); }
    assert |other| <= |open| by {
      FewBroken(s, rs, d);
      OpenedSize(starts);
    }
    CoverWeight(s, d, |s| - 1);
    SubsetSize(d * Interval(s[0] - 1, s[|s| - 1]), d);
    forall i | i in open ensures 1 <= i < |s| { OpenedBounds(starts, |s|, i); }
    WeightCompare(s, open, other, t);
  }

  // ----- How many integers ranges hold -----

  lemma HeldNext(rs: seq<Range>, n: nat, x: int)
    requires n < |rs|
    ensures Held(rs[..n+1], x) <==> Held(rs[..n], x) || rs[n].Holds(x)
  {
    if Held(rs[..n], x) {
      var m :| 0 <= m < n && rs[..n][m].Holds(x);
      assert rs[..n+1][m].Holds(x);
    }
    if rs[n].Holds(x) { assert rs[..n+1][n].Holds(x); }
    if Held(rs[..n+1], x) {
      var m :| 0 <= m < n + 1 && rs[..n+1][m].Holds(x);
      if m < n { assert rs[..n][m].Holds(x); }
    }
  }

  /** A range more adds an interval to a union. */
  lemma UnionNext(c: set<int>, rs: seq<Range>, n: nat)
    requires n < |rs| && UnionOf(c, rs[..n])
    ensures UnionOf(c + Interval(rs[n].lo - 1, rs[n].hi), rs[..n+1])
  {
    var r := Interval(rs[n].lo - 1, rs[n].hi);
    forall x ensures x in c + r <==> Held(rs[..n+1], x) {
      HeldNext(rs, n, x);
      assert x in c <==> Held(rs[..n], x);
      assert x in r <==> rs[n].Holds(x);
    }
  }

  lemma {:induction false} UnionExists(rs: seq<Range>, n: nat)
    requires n <= |rs|
    ensures exists c: set<int> :: UnionOf(c, rs[..n])
  {
    if n == 0 {
      assert UnionOf({}, rs[..0]);
    } else {
      UnionExists(rs, n - 1);
      var c: set<int> :| UnionOf(c, rs[..n-1]);
      UnionNext(c, rs, n - 1);
    }
  }

  /** The integers that lie in some range. */
  ghost function Integers(rs: seq<Range>): (c: set<int>)
    ensures UnionOf(c, rs)
  {
    UnionExists(rs, |rs|);
    assert rs[..|rs|] == rs;
    var c: set<int> :| UnionOf(c, rs);
    c
  }

  /** A union is determined by its ranges. */
  lemma UnionUnique(c: set<int>, d: set<int>, rs: seq<Range>)
    requires UnionOf(c, rs) && UnionOf(d, rs)
    ensures c == d
  {
    forall x ensures x in c <==> x in d {
      assert x in c <==> Held(rs, x);
      assert x in d <==> Held(rs, x);
    }
  }

  /** The ranges come in ascending order and do not touch. */
  ghost predicate Apart(rs: seq<Range>) {
    && (forall k :: 0 <= k < |rs| ==> rs[k].lo <= rs[k].hi)
    && (forall k, m :: 0 <= k < m < |rs| ==> rs[k].hi < rs[m].lo)
  }

  lemma NoIntegers(rs: seq<Range>)
    requires rs == []
    ensures Integers(rs) == {}
  {
    UnionUnique(Integers(rs), {}, rs);
  }

  lemma HeldBelow(rs: seq<Range>, k: nat, x: int)
    requires Apart(rs) && k < |rs| && Held(rs[..k], x)
    ensures x < rs[k].lo
  {
    var m :| 0 <= m < k && rs[..k][m].Holds(x);
    assert rs[m].hi < rs[k].lo;
  }

  lemma DisjointSize(c: set<int>, r: set<int>)
    requires c !! r
    ensures |c + r| == |c| + |r|
  {}

  /** A range behind the others adds its length. */
  lemma IntegersGrow(rs: seq<Range>, k: nat)
    requires Apart(rs) && k < |rs|
    ensures |Integers(rs[..k+1])| == |Integers(rs[..k])| + rs[k].hi - rs[k].lo + 1
  {
    var c, r := Integers(rs[..k]), Interval(rs[k].lo - 1, rs[k].hi);
    UnionNext(c, rs, k);
    UnionUnique(Integers(rs[..k+1]), c + r, rs[..k+1]);
    forall x | x in c ensures x !in r {
      assert Held(rs[..k], x);
      HeldBelow(rs, k, x);
    }
    DisjointSize(c, r);
    IntervalSize(rs[k].lo - 1, rs[k].hi);
  }
}
