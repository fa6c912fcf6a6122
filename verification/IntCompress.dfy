/** `g_int_compress` on an internal key: the in-place range compression of `_int_gist.c`. */
module IntCompress {
  import opened Basics
  import opened RangeCover

  const MAXNUMRANGE := 100

  /** The first index of each range, from index `cur` of the list on. */
  ghost predicate StartsFrom(starts: seq<int>, cur: int, n: nat) {
    if starts == [] then cur == n else starts[0] == cur && Ascending(starts) && starts[|starts| - 1] < n
  }

  /** The bounds of the ranges stand in the array, pair by pair, from `off` on. */
  ghost predicate Laid(d: seq<int>, off: int, s: seq<int>, starts: seq<int>) {
    && 0 <= off && off + 2 * |starts| <= |d|
    && forall k :: 0 <= k < |starts| ==> LaidAt(d, off, s, starts, k)
  }

  ghost predicate LaidAt(d: seq<int>, off: int, s: seq<int>, starts: seq<int>, k: int)
    requires 0 <= off && off + 2 * |starts| <= |d| && 0 <= k < |starts|
  {
    && 0 <= starts[k] <= LastOf(starts, k, |s|) < |s|
    && d[off + 2 * k] == s[starts[k]] && d[off + 2 * k + 1] == s[LastOf(starts, k, |s|)]
  }

  /** The gaps from `cur` on that no range start keeps open are all 1 wide: consecutive integers. */
  ghost predicate Consecutive(s: seq<int>, starts: seq<int>, cur: int) {
    forall g :: 1 <= g < |s| && cur < g && g !in starts ==> Gap(s, g) == 1
  }

  lemma PrependStart(s: seq<int>, starts: seq<int>, i: int, e: int)
    requires 0 <= i <= e < |s| && StartsFrom(starts, e + 1, |s|)
    ensures StartsFrom([i] + starts, i, |s|) && LastOf([i] + starts, 0, |s|) == e
    ensures forall k :: 0 <= k < |starts| ==> LastOf([i] + starts, k + 1, |s|) == LastOf(starts, k, |s|)
  {
    var x := [i] + starts;
    assert x[0] == i && forall k :: 0 < k < |x| ==> x[k] == starts[k-1];
    assert Ascending(x) by {
      forall a, b | 0 <= a < b < |x| ensures x[a] < x[b] {
        assert starts[0] <= starts[b-1];
      }
    }
  }

  /** Writing one more pair in front of the ranges. */
  lemma LaidPrepend(d: seq<int>, d': seq<int>, j: int, s: seq<int>, starts: seq<int>, i: int, e: int)
    requires 0 <= i <= e < |s| && StartsFrom(starts, e + 1, |s|) && 0 <= j && Laid(d, 2 * (j + 1), s, starts) && |d'| == |d|
    requires 2 * j + 1 < |d| && d'[2 * j] == s[i] && d'[2 * j + 1] == s[e]
    requires forall k :: 2 * j + 1 < k < |d| ==> d'[k] == d[k]
    ensures Laid(d', 2 * j, s, [i] + starts)
  {
    PrependStart(s, starts, i, e);
    var x := [i] + starts;
    forall k | 0 <= k < |x| ensures LaidAt(d', 2 * j, s, x, k) {
      if k > 0 { assert LaidAt(d, 2 * (j + 1), s, starts, k - 1); }
    }
  }

  lemma ConsecutivePrepend(s: seq<int>, starts: seq<int>, i: int, e: int)
    requires 0 <= i <= e < |s| && Consecutive(s, starts, e + 1) && StartsFrom(starts, e + 1, |s|)
    requires forall g :: i < g <= e ==> Gap(s, g) == 1
    ensures Consecutive(s, [i] + starts, i)
  {
    assert starts != [] ==> starts[0] in starts;
    forall g | 1 <= g < |s| && i < g && g !in [i] + starts ensures Gap(s, g) == 1 {
      assert g != e + 1;
    }
  }

  /** While the list is being expanded: elements up to `i` are still to be read, and the ranges of the
      others stand behind pair `j`. */
  ghost predicate Expanding(d: seq<int>, s: seq<int>, i: int, j: int, starts: seq<int>) {
    && -1 <= i <= j < |s| && |d| == 2 * |s|
    && (forall k :: 0 <= k <= i ==> d[k] == s[k])
    && |starts| == |s| - 1 - j && StartsFrom(starts, i + 1, |s|)
    && Laid(d, 2 * (j + 1), s, starts) && Consecutive(s, starts, i + 1)
  }

  /** The elements `i` to `e` have become the pair at `j`. */
  lemma ExpandStep(d: seq<int>, d': seq<int>, s: seq<int>, i: int, e: int, j: int, starts: seq<int>)
    requires Expanding(d, s, e, j, starts) && 0 <= i <= e && |d'| == |d|
    requires forall g :: i < g <= e ==> Gap(s, g) == 1
    requires d'[2 * j] == s[i] && d'[2 * j + 1] == s[e] && forall k :: 0 <= k < |d| && k != 2 * j && k != 2 * j + 1 ==> d'[k] == d[k]
    ensures Expanding(d', s, i - 1, j - 1, [i] + starts)
  {
    LaidPrepend(d, d', j, s, starts, i, e);
    ConsecutivePrepend(s, starts, i, e);
    PrependStart(s, starts, i, e);
  }

  /** The run of consecutive integers that ends at index `e`, at most `lenr0` of them merged. */
  method RunStart(dr: array<int>, e: int, lenr0: int, ghost s: seq<int>) returns (i: int, rStart: int, lenr: int)
    requires 0 <= e < |s| && e < dr.Length && lenr0 >= 0 && forall k :: 0 <= k <= e ==> dr[k] == s[k]
    ensures 0 <= i <= e && rStart == s[i] && lenr == lenr0 - (e - i) && lenr >= 0
    ensures forall g :: i < g <= e ==> Gap(s, g) == 1
  {
    i, rStart, lenr := e, dr[e], lenr0;
    while i > 0 && lenr > 0 && dr[i-1] == rStart - 1
      invariant 0 <= i <= e && rStart == s[i] && lenr == lenr0 - (e - i) && lenr >= 0
      invariant forall g :: i < g <= e ==> Gap(s, g) == 1
    {
      rStart, i, lenr := rStart - 1, i - 1, lenr - 1;
    }
  }

  /** Writes a range over the pair at `j`; the elements still to be read are all in front of it. */
  method PutRange(dr: array<int>, j: int, lo: int, hi: int, ghost s: seq<int>, ghost i: int, ghost e: int, ghost starts: seq<int>)
    requires Expanding(dr[..], s, e, j, starts) && 0 <= i <= e && lo == s[i] && hi == s[e]
    requires forall g :: i < g <= e ==> Gap(s, g) == 1
    modifies dr
    ensures Expanding(dr[..], s, i - 1, j - 1, [i] + starts)
  {
    ghost var before := dr[..];
    dr[2 * j + 1] := hi;
    dr[2 * j] := lo;
    ExpandStep(before, dr[..], s, i, e, j, starts);
  }

  /** Each run of consecutive integers becomes a range, from the end of the list on, until `lenr` integers
      have been merged. */
  method MergeRuns(dr: array<int>, len: int, lenr0: int, ghost s: seq<int>) returns (i: int, j: int, ghost starts: seq<int>)
    requires len == |s| > 0 && dr.Length == 2 * len && dr[..len] == s && lenr0 >= 0
    modifies dr
    ensures Expanding(dr[..], s, i, j, starts) && j - i <= lenr0
  {
    var lenr := lenr0;
    i := len - 1;
    j := i;
    starts := [];
    while i > 0 && lenr > 0
      invariant Expanding(dr[..], s, i, j, starts) && lenr == lenr0 - (j - i) && lenr >= 0
    {
      StillToRead(dr[..], s, i, j, starts);
      ghost var e := i;
      var rStart, rEnd := 0, dr[i];
      i, rStart, lenr := RunStart(dr, i, lenr, s);
      PutRange(dr, j, rStart, rEnd, s, i, e, starts);
      starts := [i] + starts;
      i, j := i - 1, j - 1;
    }
  }

  /** Expands the list into ranges in place. What `MergeRuns` leaves becomes ranges of one integer. The
      ranges overwrite the list, but never an element that is still to be read. */
  method ExpandRanges(dr: array<int>, len: int, ghost s: seq<int>) returns (j: int, ghost starts: seq<int>)
    requires len == |s| >= MAXNUMRANGE && dr.Length == 2 * len && dr[..len] == s
    modifies dr
    ensures 0 <= j <= len - MAXNUMRANGE && |starts| == len - j && StartsFrom(starts, 0, len)
    ensures Laid(dr[..], 2 * j, s, starts) && Consecutive(s, starts, 0)
  {
    var i;
    i, j, starts := MergeRuns(dr, len, len - MAXNUMRANGE, s);
    while i >= 0
      invariant Expanding(dr[..], s, i, j, starts) && j - i <= len - MAXNUMRANGE
    {
      StillToRead(dr[..], s, i, j, starts);
      PutRange(dr, j, dr[i], dr[i], s, i, i, starts);
      starts := [i] + starts;
      i, j := i - 1, j - 1;
    }
    j := j + 1;
  }

  lemma StillToRead(d: seq<int>, s: seq<int>, i: int, j: int, starts: seq<int>)
    requires Expanding(d, s, i, j, starts)
    ensures forall k :: 0 <= k <= i ==> d[k] == s[k]
  {}

  // ----- Merging over the narrowest gaps -----

  /** The array starts with the ranges, and the gaps between them are the widest of the list. */
  ghost predicate Packed(d: seq<int>, s: seq<int>, starts: seq<int>, t: int) {
    && Ascending(s) && Starts(starts, |s|) && Laid(d, 0, s, starts) && Threshold(s, Opened(starts), t)
  }

  lemma ExpandedIsPacked(d: seq<int>, off: int, d': seq<int>, s: seq<int>, starts: seq<int>)
    requires Ascending(s) && s != [] && StartsFrom(starts, 0, |s|) && Laid(d, off, s, starts) && Consecutive(s, starts, 0)
    requires 2 * |starts| <= |d'| && forall k :: 0 <= k < 2 * |starts| ==> d'[k] == d[off + k]
    ensures Packed(d', s, starts, 1)
  {
    forall k | 0 <= k < |starts| ensures LaidAt(d', 0, s, starts, k) {
      assert LaidAt(d, off, s, starts, k);
    }
    forall i | 1 <= i < |s| ensures if i in Opened(starts) then Gap(s, i) >= 1 else Gap(s, i) <= 1 {
      if i in starts {
        var k :| 0 <= k < |starts| && starts[k] == i;
        assert i in Opened(starts);
      }
    }
  }

  /** The narrowest gap between ranges, the first one if there are several. */
  method NarrowestGap(dr: array<int>, len: int) returns (cand: int)
    requires 4 <= len <= dr.Length && len % 2 == 0 && forall k :: 0 <= k < len ==> IsInt32(dr[k])
    ensures 2 <= cand < len && cand % 2 == 0
    ensures forall k :: 1 <= k < len / 2 ==> dr[2 * k] - dr[2 * k - 1] >= dr[cand] - dr[cand - 1]
  {
    cand := 1;
    var min := 0x7fff_ffff_ffff_ffff;
    var i := 2;
    while i < len
      invariant 2 <= i <= len && i % 2 == 0
      invariant if i == 2 then min == 0x7fff_ffff_ffff_ffff else 2 <= cand < i && cand % 2 == 0 && min == dr[cand] - dr[cand - 1]
      invariant forall k :: 1 <= k < i / 2 ==> dr[2 * k] - dr[2 * k - 1] >= min
    {
      if min > dr[i] - dr[i-1] {
        min := dr[i] - dr[i-1];
        cand := i;
      }
      i := i + 2;
    }
  }

  /** The starts without the one that follows the merged gap. */
  ghost function Without(starts: seq<int>, c: int): seq<int>
    requires 0 <= c < |starts|
  {
    starts[..c] + starts[c+1..]
  }

  lemma WithoutAt(starts: seq<int>, c: int, k: int)
    requires 0 <= c < |starts| && 0 <= k < |starts| - 1
    ensures |Without(starts, c)| == |starts| - 1
    ensures Without(starts, c)[k] == if k < c then starts[k] else starts[k+1]
  {}

  lemma WithoutLast(starts: seq<int>, c: int, k: int, n: nat)
    requires 1 <= c < |starts| && 0 <= k < |starts| - 1
    ensures LastOf(Without(starts, c), k, n) == if k < c - 1 then LastOf(starts, k, n) else LastOf(starts, k + 1, n)
  {
    WithoutAt(starts, c, k);
    if k + 1 < |starts| - 1 { WithoutAt(starts, c, k + 1); }
  }

  lemma WithoutOpened(starts: seq<int>, c: int)
    requires Ascending(starts) && 1 <= c < |starts|
    ensures Opened(Without(starts, c)) == Opened(starts) - {starts[c]}
  {
    var x := Without(starts, c);
    forall i | i in Opened(x) ensures i in Opened(starts) - {starts[c]} {
      var k :| 1 <= k < |x| && x[k] == i;
      var k' := if k < c then k else k + 1;
      WithoutAt(starts, c, k);
      assert starts[k'] == i;
    }
    forall i | i in Opened(starts) - {starts[c]} ensures i in Opened(x) {
      var k :| 1 <= k < |starts| && starts[k] == i;
      var k' := if k < c then k else k - 1;
      WithoutAt(starts, c, k');
      assert x[k'] == i;
    }
  }

  lemma WithoutStarts(starts: seq<int>, c: int, n: nat)
    requires Starts(starts, n) && 1 <= c < |starts|
    ensures Starts(Without(starts, c), n) && |Without(starts, c)| == |starts| - 1
  {
    var x := Without(starts, c);
    forall i, j | 0 <= i < j < |x| ensures x[i] < x[j] {
      WithoutAt(starts, c, i);
      WithoutAt(starts, c, j);
    }
    WithoutAt(starts, c, 0);
    WithoutAt(starts, c, |starts| - 2);
  }

  /** Removing the bounds on both sides of a gap merges the ranges around it. */
  lemma LaidWithout(d: seq<int>, d': seq<int>, s: seq<int>, starts: seq<int>, c: int)
    requires Starts(starts, |s|) && Laid(d, 0, s, starts) && 1 <= c < |starts| && 2 * |starts| - 2 <= |d'|
    requires forall k :: 0 <= k < 2 * c - 1 ==> d'[k] == d[k]
    requires forall k :: 2 * c - 1 <= k < 2 * |starts| - 2 ==> d'[k] == d[k+2]
    ensures Laid(d', 0, s, Without(starts, c))
  {
    WithoutStarts(starts, c, |s|);
    var x := Without(starts, c);
    forall k | 0 <= k < |x| ensures LaidAt(d', 0, s, x, k) {
      StartBounds(x, |s|, k);
      WithoutAt(starts, c, k);
      WithoutLast(starts, c, k, |s|);
      assert LaidAt(d, 0, s, starts, k) && LaidAt(d, 0, s, starts, k + 1);
    }
  }

  /** The gap between two ranges is a gap of the list. */
  lemma LaidGap(d: seq<int>, s: seq<int>, starts: seq<int>, c: int)
    requires Starts(starts, |s|) && Laid(d, 0, s, starts) && 1 <= c < |starts|
    ensures 1 <= starts[c] < |s| && d[2 * c] - d[2 * c - 1] == Gap(s, starts[c])
  {
    assert LaidAt(d, 0, s, starts, c) && LaidAt(d, 0, s, starts, c - 1);
  }

  /** Merging over the narrowest open gap keeps the widest gaps open. */
  lemma NarrowestThreshold(d: seq<int>, s: seq<int>, starts: seq<int>, t: int, c: int)
    requires Packed(d, s, starts, t) && 1 <= c < |starts|
    requires forall k :: 1 <= k < |starts| ==> d[2 * k] - d[2 * k - 1] >= d[2 * c] - d[2 * c - 1]
    ensures 1 <= starts[c] < |s| && Threshold(s, Opened(starts) - {starts[c]}, Gap(s, starts[c]))
  {
    LaidGap(d, s, starts, c);
    var g := Gap(s, starts[c]);
    assert starts[c] in Opened(starts);
    forall i | 1 <= i < |s| ensures if i in Opened(starts) - {starts[c]} then Gap(s, i) >= g else Gap(s, i) <= g {
      if i in Opened(starts) {
        var k :| 1 <= k < |starts| && starts[k] == i;
        LaidGap(d, s, starts, k);
      }
    }
  }

  /** The elements in use are elements of the list. */
  lemma LaidInt32(d: seq<int>, s: seq<int>, starts: seq<int>, k: int)
    requires Laid(d, 0, s, starts) && 0 <= k < 2 * |starts| && forall i :: 0 <= i < |s| ==> IsInt32(s[i])
    ensures IsInt32(d[k])
  {
    assert LaidAt(d, 0, s, starts, k / 2);
  }

  /** `memmove` of the elements from `src` up to `end` down to `dst`. */
  method MoveDown(dr: array<int>, dst: int, src: int, end: int)
    requires 0 <= dst <= src <= end <= dr.Length
    modifies dr
    ensures forall k :: 0 <= k < dst ==> dr[k] == old(dr[k])
    ensures forall k :: dst <= k < dst + end - src ==> dr[k] == old(dr[k + (src - dst)])
  {
    var off := src - dst;
    forall k | dst <= k < dst + end - src {
      dr[k] := dr[k + off];
    }
  }

  /** One round of the loop that merges ranges. */
  method MergeNarrowest(dr: array<int>, len: int, ghost s: seq<int>, ghost starts: seq<int>, ghost t: int)
    returns (ghost starts': seq<int>, ghost t': int)
    requires len == 2 * |starts| && 4 <= len <= dr.Length && Packed(dr[..], s, starts, t)
    requires forall i :: 0 <= i < |s| ==> IsInt32(s[i])
    modifies dr
    ensures |starts'| == |starts| - 1 && Packed(dr[..], s, starts', t')
  {
    ghost var before := dr[..];
    forall k | 0 <= k < len ensures IsInt32(dr[k]) { LaidInt32(before, s, starts, k); }
    var cand := NarrowestGap(dr, len);
    ghost var c := cand / 2;
    NarrowestThreshold(before, s, starts, t, c);
    MoveDown(dr, cand - 1, cand + 1, len);
    LaidWithout(before, dr[..], s, starts, c);
    WithoutStarts(starts, c, |s|);
    WithoutOpened(starts, c);
    starts', t' := Without(starts, c), Gap(s, starts[c]);
  }

  /** The list as ranges at the front of the array, consecutive integers merged. */
  method PackRuns(dr: array<int>, len: int, ghost s: seq<int>) returns (len': int, ghost starts: seq<int>)
    requires len == |s| >= MAXNUMRANGE && dr.Length == 2 * len && dr[..len] == s && Ascending(s)
    modifies dr
    ensures len' == 2 * |starts| && 2 * MAXNUMRANGE <= len' <= dr.Length && Packed(dr[..], s, starts, 1)
  {
    var j;
    j, starts := ExpandRanges(dr, len, s);
    ghost var before := dr[..];
    MoveDown(dr, 0, 2 * j, 2 * len);
    ExpandedIsPacked(before, 2 * j, dr[..], s, starts);
    len' := 2 * (len - j);
  }

  lemma PackedPrefix(d: seq<int>, s: seq<int>, starts: seq<int>, t: int)
    requires Packed(d, s, starts, t) && 2 * |starts| <= |d|
    ensures Packed(d[..2 * |starts|], s, starts, t)
  {
    forall k | 0 <= k < |starts| ensures LaidAt(d[..2 * |starts|], 0, s, starts, k) {
      assert LaidAt(d, 0, s, starts, k);
    }
  }

  /** The range compression of `g_int_compress`, without its size check: exactly `MAXNUMRANGE` ranges,
      with the widest gaps of the list between them. */
  method CompressRanges(r: seq<int>) returns (res: seq<int>, ghost starts: seq<int>, ghost t: int)
    requires |r| >= 2 * MAXNUMRANGE && Ascending(r) && forall i :: 0 <= i < |r| ==> IsInt32(r[i])
    ensures |res| == 200 && |starts| == 100 && Packed(res, r, starts, t)
  {
    var len := |r|;
    var dr := new int[2 * len](k => if 0 <= k < |r| then r[k] else 0);
    assert dr[..len] == r;
    len, starts := PackRuns(dr, len, r);
    t := 1;
    while len > 2 * MAXNUMRANGE
      invariant len == 2 * |starts| && 2 * MAXNUMRANGE <= len <= dr.Length && Packed(dr[..], r, starts, t)
    {
      starts, t := MergeNarrowest(dr, len, r, starts, t);
      len := len - 2;
    }
    res := dr[..len];
    PackedPrefix(dr[..], r, starts, t);
  }

  // ----- What the compressed key means -----

  /** The pairs of a compressed key as ranges. */
  ghost function PairRanges(d: seq<int>): seq<Range>
    requires |d| % 2 == 0
  {
    seq(|d| / 2, k requires 0 <= k < |d| / 2 => Range(d[2 * k], d[2 * k + 1]))
  }

  lemma PackedRanges(d: seq<int>, s: seq<int>, starts: seq<int>, t: int)
    requires Packed(d, s, starts, t) && |d| == 2 * |starts|
    ensures PairRanges(d) == RangesOf(s, starts)
  {
    forall k | 0 <= k < |starts| ensures PairRanges(d)[k] == RangesOf(s, starts)[k] {
      assert LaidAt(d, 0, s, starts, k);
    }
  }

  lemma PackedApart(d: seq<int>, s: seq<int>, starts: seq<int>, t: int)
    requires Packed(d, s, starts, t) && |d| == 2 * |starts|
    ensures Apart(PairRanges(d))
  {
    var rs := PairRanges(d);
    forall k | 0 <= k < |rs| ensures rs[k].lo <= rs[k].hi {
      assert LaidAt(d, 0, s, starts, k);
    }
    forall k, m | 0 <= k < m < |rs| ensures rs[k].hi < rs[m].lo {
      assert LaidAt(d, 0, s, starts, k) && LaidAt(d, 0, s, starts, m);
      assert LastOf(starts, k, |s|) < starts[k+1] <= starts[m];
    }
  }

  /** Range compression is optimal: the compressed key stands for exactly `MAXNUMRANGE` disjoint ascending
      ranges, covers every element, and no cover by as many ranges holds fewer integers. */
  lemma CompressionIsOptimal(res: seq<int>, r: seq<int>, starts: seq<int>, t: int, c: set<int>, rs: seq<Range>, d: set<int>)
    requires |res| == 200 && |starts| == 100 && Packed(res, r, starts, t) && UnionOf(c, PairRanges(res))
    requires |rs| <= 100 && UnionOf(d, rs) && forall i :: 0 <= i < |r| ==> r[i] in d
    ensures Apart(PairRanges(res)) && (forall i :: 0 <= i < |r| ==> r[i] in c) && |c| <= |d|
  {
    PackedRanges(res, r, starts, t);
    PackedApart(res, r, starts, t);
    forall i | 0 <= i < |r| ensures r[i] in c { RangesCover(r, starts, i, 0); }
    RangesAreOptimal(r, starts, t, c, rs, d);
  }
}
