/** What sorted lists of pairs mean: finite maps, and how merges of lists act on maps. */
module HstoreMap {
  import opened Bytes
  import opened HstoreFormat

  type Dict = map<seq<byte>, Value>

  ghost function MapOf(ps: seq<Pair>): Dict {
    if ps == [] then map[] else var n := |ps| - 1; MapOf(ps[..n])[ps[n].key := ps[n].value]
  }

  lemma MapOfAppend(ps: seq<Pair>, p: Pair)
    ensures MapOf(ps + [p]) == MapOf(ps)[p.key := p.value]
  {
    assert (ps + [p])[..|ps|] == ps;
  }

  lemma MapOfNext(ps: seq<Pair>, i: nat)
    requires i < |ps|
    ensures MapOf(ps[..i+1]) == MapOf(ps[..i])[ps[i].key := ps[i].value]
  {
    assert ps[..i+1] == ps[..i] + [ps[i]];
    MapOfAppend(ps[..i], ps[i]);
  }

  /** Every key comes before `key`. */
  ghost predicate Below(ps: seq<Pair>, key: seq<byte>) {
    forall i :: 0 <= i < |ps| ==> KeyCmp(ps[i].key, key) < 0
  }

  lemma {:induction false} MapKeys(ps: seq<Pair>, key: seq<byte>)
    ensures key in MapOf(ps) <==> exists i :: 0 <= i < |ps| && ps[i].key == key
  {
    if ps != [] {
      var n := |ps| - 1;
      MapKeys(ps[..n], key);
      if i :| 0 <= i < |ps| && ps[i].key == key {
        if i < n { assert ps[..n][i].key == key; }
      }
    }
  }

  /** In a sorted list each pair is what the map says. */
  lemma {:induction false} MapAt(ps: seq<Pair>, i: nat)
    requires SortedKeys(ps) && i < |ps|
    ensures ps[i].key in MapOf(ps) && MapOf(ps)[ps[i].key] == ps[i].value
  {
    var n := |ps| - 1;
    if i < n {
      MapAt(ps[..n], i);
      KeyCmpOrder(ps[i].key, ps[n].key);
    }
  }

  lemma BelowFresh(ps: seq<Pair>, key: seq<byte>)
    requires Below(ps, key)
    ensures key !in MapOf(ps)
  {
    MapKeys(ps, key);
    KeyCmpOrder(key, key);
  }

  /** A key that a sorted list holds at `i` is neither among the pairs before nor in another place. */
  lemma SortedBelow(ps: seq<Pair>, i: nat)
    requires SortedKeys(ps) && i < |ps|
    ensures Below(ps[..i], ps[i].key)
  {}

  lemma BelowStep(acc: seq<Pair>, p: Pair, key: seq<byte>)
    requires Below(acc, p.key) && KeyCmp(p.key, key) < 0
    ensures Below(acc + [p], key)
  {
    forall i | 0 <= i < |acc| ensures KeyCmp(acc[i].key, key) < 0 { KeyCmpTransitive(acc[i].key, p.key, key); }
  }

  lemma SortedStep(acc: seq<Pair>, p: Pair)
    requires SortedKeys(acc) && Below(acc, p.key)
    ensures SortedKeys(acc + [p])
  {}

  lemma DropLast(ps: seq<Pair>)
    requires SortedKeys(ps) && ps != []
    ensures var p := ps[|ps| - 1]; p.key in MapOf(ps) && MapOf(ps)[p.key] == p.value && MapOf(ps[..|ps| - 1]) == MapOf(ps) - {p.key}
  {
    var n := |ps| - 1;
    SortedBelow(ps, n);
    BelowFresh(ps[..n], ps[n].key);
    RemoveAdded(MapOf(ps[..n]), ps[n].key, ps[n].value);
  }

  lemma RemoveAdded(m: Dict, k: seq<byte>, v: Value)
    requires k !in m
    ensures m[k := v] - {k} == m
  {}

  /** Sorted lists with the same map are the same list. */
  lemma {:induction false} SortedUnique(ps: seq<Pair>, qs: seq<Pair>)
    requires SortedKeys(ps) && SortedKeys(qs) && MapOf(ps) == MapOf(qs)
    ensures ps == qs
    decreases |ps|
  {
    if ps != [] && qs != [] {
      var n, m := |ps| - 1, |qs| - 1;
      LastSame(ps, qs);
      DropLast(ps);
      DropLast(qs);
      SortedUnique(ps[..n], qs[..m]);
      assert ps == ps[..n] + [ps[n]] && qs == qs[..m] + [qs[m]];
    } else {
      if ps != [] { DropLast(ps); }
      if qs != [] { DropLast(qs); }
    }
  }

  lemma LastSame(ps: seq<Pair>, qs: seq<Pair>)
    requires SortedKeys(ps) && SortedKeys(qs) && MapOf(ps) == MapOf(qs) && ps != [] && qs != []
    ensures ps[|ps| - 1].key == qs[|qs| - 1].key
  {
    var p, q := ps[|ps| - 1], qs[|qs| - 1];
    MapAt(ps, |ps| - 1);
    MapAt(qs, |qs| - 1);
    MapKeys(ps, q.key);
    MapKeys(qs, p.key);
    KeyCmpOrder(p.key, q.key);
  }

  // ----- Union -----

  lemma UnionStep(m: Dict, d: Dict, k: seq<byte>, v: Value, w: Value)
    ensures (m + d)[k := v] == m + d[k := v] == m[k := w] + d[k := v]
    ensures k !in m + d ==> (m + d)[k := v] == m[k := v] + d
  {
    if k !in m + d { assert k !in d; }
  }

  /** The first `i` pairs of `ps` and `j` pairs of `qs` are merged into `acc`, the latter winning. */
  ghost predicate Merged(acc: seq<Pair>, ps: seq<Pair>, i: nat, qs: seq<Pair>, j: nat) {
    && i <= |ps| && j <= |qs| && SortedKeys(acc) && MapOf(acc) == MapOf(ps[..i]) + MapOf(qs[..j])
    && (i < |ps| ==> Below(acc, ps[i].key)) && (j < |qs| ==> Below(acc, qs[j].key))
  }

  /** What comes after a pair of `acc + [p]`. */
  ghost predicate MergeBounds(p: Pair, ps: seq<Pair>, i: nat, qs: seq<Pair>, j: nat) {
    (i < |ps| ==> KeyCmp(p.key, ps[i].key) < 0) && (j < |qs| ==> KeyCmp(p.key, qs[j].key) < 0)
  }

  lemma MergeStep(acc: seq<Pair>, p: Pair, ps: seq<Pair>, i: nat, qs: seq<Pair>, j: nat)
    requires SortedKeys(acc) && Below(acc, p.key) && i <= |ps| && j <= |qs| && MergeBounds(p, ps, i, qs, j)
    requires MapOf(acc)[p.key := p.value] == MapOf(ps[..i]) + MapOf(qs[..j])
    ensures Merged(acc + [p], ps, i, qs, j)
  {
    MapOfAppend(acc, p);
    SortedStep(acc, p);
    if i < |ps| { BelowStep(acc, p, ps[i].key); }
    if j < |qs| { BelowStep(acc, p, qs[j].key); }
  }

  lemma TakeLeft(acc: seq<Pair>, ps: seq<Pair>, i: nat, qs: seq<Pair>, j: nat)
    requires Merged(acc, ps, i, qs, j) && SortedKeys(ps) && i < |ps|
    requires j < |qs| ==> KeyCmp(ps[i].key, qs[j].key) < 0
    ensures Merged(acc + [ps[i]], ps, i + 1, qs, j)
  {
    var p := ps[i];
    MapOfNext(ps, i);
    BelowFresh(acc, p.key);
    UnionStep(MapOf(ps[..i]), MapOf(qs[..j]), p.key, p.value, p.value);
    MergeStep(acc, p, ps, i + 1, qs, j);
  }

  lemma TakeRight(acc: seq<Pair>, ps: seq<Pair>, i: nat, qs: seq<Pair>, j: nat)
    requires Merged(acc, ps, i, qs, j) && SortedKeys(qs) && j < |qs|
    requires i < |ps| ==> KeyCmp(ps[i].key, qs[j].key) > 0
    ensures Merged(acc + [qs[j]], ps, i, qs, j + 1)
  {
    var q := qs[j];
    MapOfNext(qs, j);
    if i < |ps| { KeyCmpOrder(ps[i].key, q.key); }
    UnionStep(MapOf(ps[..i]), MapOf(qs[..j]), q.key, q.value, q.value);
    MergeStep(acc, q, ps, i, qs, j + 1);
  }

  lemma TakeBoth(acc: seq<Pair>, ps: seq<Pair>, i: nat, qs: seq<Pair>, j: nat)
    requires Merged(acc, ps, i, qs, j) && SortedKeys(ps) && SortedKeys(qs) && i < |ps| && j < |qs|
    requires KeyCmp(ps[i].key, qs[j].key) == 0
    ensures Merged(acc + [qs[j]], ps, i + 1, qs, j + 1)
  {
    var q := qs[j];
    KeyCmpOrder(ps[i].key, q.key);
    MapOfNext(ps, i);
    MapOfNext(qs, j);
    UnionStep(MapOf(ps[..i]), MapOf(qs[..j]), q.key, q.value, ps[i].value);
    MergeStep(acc, q, ps, i + 1, qs, j + 1);
  }

  // ----- Restriction -----

  /** The pairs of a map that stay. */
  ghost function Kept(m: Dict, keep: Pair -> bool): Dict {
    map k | k in m && keep(Pair(k, m[k])) :: m[k]
  }

  /** The pairs of the first `i` that stay are in `acc`. */
  ghost predicate Filtered(acc: seq<Pair>, ps: seq<Pair>, i: nat, keep: Pair -> bool) {
    && i <= |ps| && SortedKeys(acc) && MapOf(acc) == Kept(MapOf(ps[..i]), keep)
    && (i < |ps| ==> Below(acc, ps[i].key))
  }

  lemma KeptStep(m: Dict, p: Pair, keep: Pair -> bool)
    requires p.key !in m
    ensures Kept(m[p.key := p.value], keep) == if keep(p) then Kept(m, keep)[p.key := p.value] else Kept(m, keep)
  {
    var m' := m[p.key := p.value];
    forall k | k in m ensures k in m' && m'[k] == m[k] {}
  }

  lemma BelowLater(acc: seq<Pair>, key: seq<byte>, later: seq<byte>)
    requires Below(acc, key) && KeyCmp(key, later) < 0
    ensures Below(acc, later)
  {
    forall k | 0 <= k < |acc| ensures KeyCmp(acc[k].key, later) < 0 { KeyCmpTransitive(acc[k].key, key, later); }
  }

  lemma FilterStep(acc: seq<Pair>, ps: seq<Pair>, i: nat, keep: Pair -> bool)
    requires Filtered(acc, ps, i, keep) && SortedKeys(ps) && i < |ps|
    ensures keep(ps[i]) ==> Filtered(acc + [ps[i]], ps, i + 1, keep)
    ensures !keep(ps[i]) ==> Filtered(acc, ps, i + 1, keep)
  {
    SortedBelow(ps, i);
    BelowFresh(ps[..i], ps[i].key);
    MapOfNext(ps, i);
    KeptStep(MapOf(ps[..i]), ps[i], keep);
    MapOfAppend(acc, ps[i]);
    SortedStep(acc, ps[i]);
    if i + 1 < |ps| {
      BelowStep(acc, ps[i], ps[i+1].key);
      BelowLater(acc, ps[i].key, ps[i+1].key);
    }
  }

  // ----- Two sorted lists side by side -----

  /** The first `j` keys of `qs` come before what is next in `ps`. */
  ghost predicate Passed(qs: seq<Pair>, j: nat, ps: seq<Pair>, i: nat) {
    i <= |ps| && j <= |qs| && (i < |ps| ==> Below(qs[..j], ps[i].key))
  }

  /** If the next key of `ps` also comes before what is next in `qs`, it is not in `qs`. */
  lemma PassedAbsent(qs: seq<Pair>, j: nat, ps: seq<Pair>, i: nat)
    requires Passed(qs, j, ps, i) && SortedKeys(ps) && SortedKeys(qs) && i < |ps|
    requires j < |qs| ==> KeyCmp(ps[i].key, qs[j].key) < 0
    ensures ps[i].key !in MapOf(qs) && Passed(qs, j, ps, i + 1)
  {
    var key := ps[i].key;
    MapKeys(qs, key);
    forall q | 0 <= q < |qs| ensures qs[q].key != key {
      KeyCmpOrder(key, qs[q].key);
      if q < j {
        assert KeyCmp(qs[..j][q].key, key) < 0;
      } else if q > j {
        KeyCmpTransitive(key, qs[j].key, qs[q].key);
      }
    }
    if i + 1 < |ps| { BelowLater(qs[..j], key, ps[i+1].key); }
  }

  lemma BelowNext(qs: seq<Pair>, j: nat, key: seq<byte>)
    requires SortedKeys(qs) && j < |qs| && KeyCmp(qs[j].key, key) < 0
    ensures Below(qs[..j+1], key)
  {
    SortedBelow(qs, j);
    BelowStep(qs[..j], qs[j], key);
    assert qs[..j+1] == qs[..j] + [qs[j]];
  }

  lemma PassedFound(qs: seq<Pair>, j: nat, ps: seq<Pair>, i: nat)
    requires Passed(qs, j, ps, i) && SortedKeys(ps) && SortedKeys(qs) && i < |ps| && j < |qs|
    requires KeyCmp(ps[i].key, qs[j].key) == 0
    ensures ps[i].key in MapOf(qs) && MapOf(qs)[ps[i].key] == qs[j].value && Passed(qs, j + 1, ps, i + 1)
  {
    KeyCmpOrder(ps[i].key, qs[j].key);
    MapAt(qs, j);
    if i + 1 < |ps| { BelowNext(qs, j, ps[i+1].key); }
  }

  lemma PassedSkip(qs: seq<Pair>, j: nat, ps: seq<Pair>, i: nat)
    requires Passed(qs, j, ps, i) && SortedKeys(qs) && i < |ps| && j < |qs| && KeyCmp(ps[i].key, qs[j].key) > 0
    ensures Passed(qs, j + 1, ps, i)
  {
    KeyCmpOrder(ps[i].key, qs[j].key);
    BelowNext(qs, j, ps[i].key);
  }
}
