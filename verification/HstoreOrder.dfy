/** `hstore_cmp`: a total order on values in which only a value equals itself. */
module HstoreOrder {
  import opened Bytes
  import opened HstoreFormat
  import opened HstoreMap
  import opened HstoreOps

  // ----- Lexicographic order -----

  ghost function Lex(a: seq<int>, b: seq<int>): int {
    if a == [] && b == [] then 0
    else if a == [] then -1
    else if b == [] then 1
    else if a[0] < b[0] then -1
    else if a[0] > b[0] then 1
    else Lex(a[1..], b[1..])
  }

  lemma {:induction false} LexOrder(a: seq<int>, b: seq<int>)
    ensures Lex(a, b) == -Lex(b, a) && (Lex(a, b) == 0 <==> a == b)
  {
    if a != [] && b != [] && a[0] == b[0] {
      LexOrder(a[1..], b[1..]);
      assert a == [a[0]] + a[1..] && b == [b[0]] + b[1..];
    }
  }

  lemma {:induction false} LexTransitive(a: seq<int>, b: seq<int>, c: seq<int>)
    requires Lex(a, b) <= 0 && Lex(b, c) <= 0
    ensures Lex(a, c) <= 0
  {
    if a != [] && b != [] && c != [] && a[0] == b[0] == c[0] {
      LexTransitive(a[1..], b[1..], c[1..]);
    }
  }

  /** The first difference decides. */
  lemma {:induction false} LexAt(a: seq<int>, b: seq<int>, k: nat)
    requires k < |a| && k < |b| && a[..k] == b[..k] && a[k] != b[k]
    ensures Lex(a, b) == if a[k] < b[k] then -1 else 1
  {
    if k > 0 {
      assert a[..k][0] == b[..k][0];
      assert a[1..][..k-1] == a[..k][1..] && b[1..][..k-1] == b[..k][1..];
      LexAt(a[1..], b[1..], k - 1);
    }
  }

  // ----- Ranks -----

  function EntryRank(e: HEntry): int {
    2 * e.end + if e.isnull then 1 else 0
  }

  ghost function EntryRanks(es: seq<HEntry>): seq<int> {
    seq(|es|, k requires 0 <= k < |es| => EntryRank(es[k]))
  }

  /** What is compared, in order: the strings, with an end mark below every byte, the count, the entries. */
  ghost function Rank(hs: HStore): seq<int> {
    if Count(hs) == 0 then [] else hs.strings + ([-1, Count(hs)] + EntryRanks(hs.entries))
  }

  lemma StringsDiffer(s: seq<int>, t: seq<int>, x: seq<int>, y: seq<int>, k: nat)
    requires k <= |s| && k <= |t| && s[..k] == t[..k] && x != [] && y != [] && x[0] == y[0] == -1
    requires (k < |s| ==> s[k] >= 0) && (k < |t| ==> t[k] >= 0)
    ensures k < |s| && k < |t| && s[k] != t[k] ==> Lex(s + x, t + y) == if s[k] < t[k] then -1 else 1
    ensures k == |s| < |t| ==> Lex(s + x, t + y) == -1
    ensures k == |t| < |s| ==> Lex(s + x, t + y) == 1
  {
    var a, b := s + x, t + y;
    assert a[..k] == s[..k] && b[..k] == t[..k];
    if a[k] != b[k] { LexAt(a, b, k); }
  }

  lemma TailsDiffer(s: seq<int>, x: seq<int>, y: seq<int>, k: nat)
    requires k < |x| && k < |y| && x[..k] == y[..k] && x[k] != y[k]
    ensures Lex(s + x, s + y) == if x[k] < y[k] then -1 else 1
  {
    var a, b := s + x, s + y;
    assert a[..|s| + k] == s + x[..k] && b[..|s| + k] == s + y[..k];
    LexAt(a, b, |s| + k);
  }

  /** Values of the same strings, count and entries up to `i`. */
  lemma EntriesDiffer(a: HStore, b: HStore, i: nat)
    requires Count(a) == Count(b) != 0 && a.strings == b.strings && i < |a.entries| == |b.entries|
    requires forall k :: 0 <= k < i ==> EntryRank(a.entries[k]) == EntryRank(b.entries[k])
    requires EntryRank(a.entries[i]) != EntryRank(b.entries[i])
    ensures Lex(Rank(a), Rank(b)) == if EntryRank(a.entries[i]) < EntryRank(b.entries[i]) then -1 else 1
  {
    var x, y := [-1, Count(a)] + EntryRanks(a.entries), [-1, Count(b)] + EntryRanks(b.entries);
    assert x[..i+2] == y[..i+2];
    TailsDiffer(a.strings, x, y, i + 2);
  }

  // ----- The order by fields -----

  /** The smaller end comes first, and with equal ends a null comes last. */
  ghost predicate EntryBefore(e: HEntry, f: HEntry) {
    e.end < f.end || (e.end == f.end && !e.isnull && f.isnull)
  }

  /** The first entry that differs decides. */
  ghost predicate EntriesBefore(es: seq<HEntry>, fs: seq<HEntry>) {
    exists i: nat :: i < |es| && i < |fs| && es[..i] == fs[..i] && EntryBefore(es[i], fs[i])
  }

  /** The empty value comes before every other. Otherwise the strings are compared, then the counts, then the
      entries. */
  ghost predicate ComesBefore(a: HStore, b: HStore) {
    if Count(a) == 0 || Count(b) == 0 then Count(a) < Count(b)
    else if a.strings != b.strings then Precedes(a.strings, b.strings)
    else if Count(a) != Count(b) then Count(a) < Count(b)
    else EntriesBefore(a.entries, b.entries)
  }

  lemma FirstDifference(es: seq<HEntry>, fs: seq<HEntry>) returns (i: nat)
    requires |es| == |fs| && es != fs
    ensures i < |es| && es[..i] == fs[..i] && es[i] != fs[i]
  {
    i := 0;
    while i < |es| && es[i] == fs[i]
      invariant i <= |es| && es[..i] == fs[..i]
    {
      i := i + 1;
    }
  }

  lemma StringsDecide(a: HStore, b: HStore)
    requires Count(a) != 0 && Count(b) != 0 && a.strings != b.strings
    ensures Lex(Rank(a), Rank(b)) < 0 <==> Precedes(a.strings, b.strings)
  {
    var k := CommonPrefix(a.strings, b.strings);
    BelowPrecedes(a.strings, b.strings);
    CompareAntisymmetric(a.strings, b.strings);
    assert a.strings[..k] == b.strings[..k];
    StringsDiffer(a.strings, b.strings, [-1, Count(a)] + EntryRanks(a.entries), [-1, Count(b)] + EntryRanks(b.entries), k);
  }

  lemma EntriesDecide(a: HStore, b: HStore)
    requires Structured(a) && Structured(b) && Count(a) == Count(b) != 0 && a.strings == b.strings
    ensures Lex(Rank(a), Rank(b)) < 0 <==> EntriesBefore(a.entries, b.entries)
  {
    var es, fs := a.entries, b.entries;
    if es == fs {
      LexOrder(Rank(a), Rank(b));
    } else {
      var i := FirstDifference(es, fs);
      assert es[i].first == fs[i].first;
      forall k | 0 <= k < i ensures es[k] == fs[k] { assert es[..i][k] == fs[..i][k]; }
      EntriesDiffer(a, b, i);
      if EntriesBefore(es, fs) {
        var j: nat :| j < |es| && j < |fs| && es[..j] == fs[..j] && EntryBefore(es[j], fs[j]);
        forall k | 0 <= k < j ensures es[k] == fs[k] { assert es[..j][k] == fs[..j][k]; }
        assert j == i;
      }
    }
  }

  lemma BelowIsBefore(a: HStore, b: HStore)
    requires Structured(a) && Structured(b)
    ensures Cmp(a, b) < 0 <==> ComesBefore(a, b)
  {
    if Count(a) != 0 && Count(b) != 0 {
      if a.strings != b.strings {
        StringsDecide(a, b);
      } else if Count(a) != Count(b) {
        CountDecides(a, b);
      } else {
        EntriesDecide(a, b);
      }
    }
  }

  lemma {:induction false} LexSign(a: seq<int>, b: seq<int>)
    ensures -1 <= Lex(a, b) <= 1
  {
    if a != [] && b != [] { LexSign(a[1..], b[1..]); }
  }

  /** The sign of a comparison, told by the fields of both values. */
  lemma CmpSign(a: HStore, b: HStore)
    requires Structured(a) && Structured(b)
    ensures Cmp(a, b) == if ComesBefore(a, b) then -1 else if ComesBefore(b, a) then 1 else 0
  {
    BelowIsBefore(a, b);
    BelowIsBefore(b, a);
    LexOrder(Rank(a), Rank(b));
    LexSign(Rank(a), Rank(b));
  }

  /** `hstore_cmp`. */
  method HstoreCmp(hs1: HStore, hs2: HStore) returns (res: int)
    requires Structured(hs1) && Structured(hs2)
    ensures res == Cmp(hs1, hs2)
    ensures res == if ComesBefore(hs1, hs2) then -1 else if ComesBefore(hs2, hs1) then 1 else 0
  {
    CmpSign(hs1, hs2);
    var hcount1, hcount2 := Count(hs1), Count(hs2);
    if hcount1 == 0 || hcount2 == 0 {
      res := 0;
      if hcount1 > 0 {
        res := 1;
      } else if hcount2 > 0 {
        res := -1;
      }
    } else {
      var str1, str2 := hs1.strings, hs2.strings;
      var len1, len2 := hs1.entries[2 * hcount1 - 1].end, hs2.entries[2 * hcount2 - 1].end;
      var min := if len1 < len2 then len1 else len2;
      res := Compare(str1[..min], str2[..min]);
      MemcmpDecides(hs1, hs2, min);
      if res == 0 {
        if len1 > len2 {
          res := 1;
        } else if len1 < len2 {
          res := -1;
        } else if hcount1 > hcount2 {
          CountDecides(hs1, hs2);
          res := 1;
        } else if hcount2 > hcount1 {
          CountDecides(hs1, hs2);
          res := -1;
        } else {
          res := CmpEntries(hs1, hs2);
        }
      } else {
        res := if res > 0 then 1 else -1;
      }
    }
  }

  lemma MemcmpDecides(a: HStore, b: HStore, min: nat)
    requires Count(a) != 0 && Count(b) != 0 && min == if |a.strings| < |b.strings| then |a.strings| else |b.strings|
    ensures var res := Compare(a.strings[..min], b.strings[..min]);
      && (res != 0 ==> Lex(Rank(a), Rank(b)) == if res > 0 then 1 else -1)
      && (res == 0 && |a.strings| > |b.strings| ==> Lex(Rank(a), Rank(b)) == 1)
      && (res == 0 && |a.strings| < |b.strings| ==> Lex(Rank(a), Rank(b)) == -1)
      && (res == 0 && |a.strings| == |b.strings| ==> a.strings == b.strings)
  {
    var s, t := a.strings[..min], b.strings[..min];
    CompareAntisymmetric(s, t);
    var k := CommonPrefix(s, t);
    assert a.strings[..k] == s[..k] && b.strings[..k] == t[..k];
    assert s[..k] == t[..k];
    StringsDiffer(a.strings, b.strings, [-1, Count(a)] + EntryRanks(a.entries), [-1, Count(b)] + EntryRanks(b.entries), k);
  }

  lemma CountDecides(a: HStore, b: HStore)
    requires Count(a) != 0 && Count(b) != 0 && a.strings == b.strings && Count(a) != Count(b)
    ensures Lex(Rank(a), Rank(b)) == if Count(a) < Count(b) then -1 else 1
  {
    var x, y := [-1, Count(a)] + EntryRanks(a.entries), [-1, Count(b)] + EntryRanks(b.entries);
    assert x[..1] == [-1] == y[..1];
    TailsDiffer(a.strings, x, y, 1);
  }

  /** The comparison of the entries. */
  method CmpEntries(hs1: HStore, hs2: HStore) returns (res: int)
    requires Structured(hs1) && Structured(hs2) && Count(hs1) == Count(hs2) != 0 && hs1.strings == hs2.strings
    ensures res == Lex(Rank(hs1), Rank(hs2))
  {
    var ent1, ent2, count := hs1.entries, hs2.entries, 2 * Count(hs1);
    var i := 0;
    while i < count && ent1[i].end == ent2[i].end && ent1[i].isnull == ent2[i].isnull
      invariant 0 <= i <= count && forall k :: 0 <= k < i ==> EntryRank(ent1[k]) == EntryRank(ent2[k])
    {
      i := i + 1;
    }
    res := 0;
    if i < count {
      EntriesDiffer(hs1, hs2, i);
      if ent1[i].end < ent2[i].end {
        res := -1;
      } else if ent1[i].end > ent2[i].end {
        res := 1;
      } else if ent1[i].isnull {
        res := 1;
      } else if ent2[i].isnull {
        res := -1;
      }
    } else {
      assert EntryRanks(ent1) == EntryRanks(ent2);
      LexOrder(Rank(hs1), Rank(hs2));
    }
  }

  // ----- The order -----

  /** The rank tells the value. */
  lemma RankUnique(a: HStore, b: HStore)
    requires Structured(a) && Structured(b) && Rank(a) == Rank(b)
    ensures a == b
  {
    LexOrder(Rank(a), Rank(b));
    if Count(a) == 0 || Count(b) == 0 {
      assert Count(a) == Count(b) == 0;
      PackedUnique(a, b);
    } else {
      MemcmpDecides(a, b, if |a.strings| < |b.strings| then |a.strings| else |b.strings|);
      assert a.strings == b.strings;
      if Count(a) != Count(b) { CountDecides(a, b); }
      forall k | 0 <= k < |a.entries| ensures a.entries[k] == b.entries[k] {
        assert EntryRank(a.entries[k]) == Rank(a)[|a.strings| + 2 + k] == Rank(b)[|b.strings| + 2 + k] == EntryRank(b.entries[k]);
      }
    }
  }

  /** What `hstore_cmp` returns. */
  ghost function Cmp(a: HStore, b: HStore): int {
    Lex(Rank(a), Rank(b))
  }

  /** It is a total order on well-formed values; it is 0 exactly if they mean the same map, and then they are
      the same value, with the same hash. */
  lemma CmpIsTotalOrder(a: HStore, b: HStore, c: HStore)
    requires WellFormed(a) && WellFormed(b) && WellFormed(c)
    ensures Cmp(a, b) == -Cmp(b, a)
    ensures Cmp(a, b) <= 0 && Cmp(b, c) <= 0 ==> Cmp(a, c) <= 0
    ensures Cmp(a, b) == 0 <==> Meaning(a) == Meaning(b)
    ensures Cmp(a, b) == 0 <==> a == b
  {
    LexOrder(Rank(a), Rank(b));
    if Cmp(a, b) <= 0 && Cmp(b, c) <= 0 { LexTransitive(Rank(a), Rank(b), Rank(c)); }
    if Cmp(a, b) == 0 { RankUnique(a, b); }
    if Meaning(a) == Meaning(b) {
      SortedUnique(Decode(a), Decode(b));
      PackedUnique(a, b);
    }
  }
}
