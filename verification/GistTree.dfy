/** Generalized search trees: what a scan returns when the keys tell the truth about what is below them. */
module GistTree {

  /** A row on a leaf page: its key and the indexed value. */
  datatype Row<K, V> = Row(key: K, value: V)

  datatype Tree<K, V> = LeafPage(rows: seq<Row<K, V>>) | InnerPage(entries: Entries<K, V>)

  /** The entries of an internal page, each a key and the page below it. */
  datatype Entries<K, V> = End | Entry(key: K, sub: Tree<K, V>, rest: Entries<K, V>)

  /** Every row, in scan order. */
  ghost function Rows<K, V>(t: Tree<K, V>): seq<Row<K, V>> {
    match t
    case LeafPage(rows) => rows
    case InnerPage(es) => EntryRows(es)
  }

  ghost function EntryRows<K, V>(es: Entries<K, V>): seq<Row<K, V>> {
    if es.End? then [] else Rows(es.sub) + EntryRows(es.rest)
  }

  /** An index scan: descend where `consistent` holds of the key, and return the rows of a leaf page whose
      key is consistent and whose value passes the recheck. */
  ghost function Search<K, V>(t: Tree<K, V>, consistent: (K, bool) -> bool, recheck: V -> bool): seq<Row<K, V>> {
    match t
    case LeafPage(rows) => SearchLeaf(rows, consistent, recheck)
    case InnerPage(es) => SearchEntries(es, consistent, recheck)
  }

  ghost function SearchLeaf<K, V>(rows: seq<Row<K, V>>, consistent: (K, bool) -> bool, recheck: V -> bool): seq<Row<K, V>> {
    if rows == [] then []
    else (if consistent(rows[0].key, true) && recheck(rows[0].value) then [rows[0]] else [])
         + SearchLeaf(rows[1..], consistent, recheck)
  }

  ghost function SearchEntries<K, V>(es: Entries<K, V>, consistent: (K, bool) -> bool, recheck: V -> bool): seq<Row<K, V>> {
    if es.End? then []
    else (if consistent(es.key, false) then Search(es.sub, consistent, recheck) else [])
         + SearchEntries(es.rest, consistent, recheck)
  }

  /** A sequential scan: every row whose value satisfies the operator. */
  ghost function Matching<K, V>(rows: seq<Row<K, V>>, sat: V -> bool): seq<Row<K, V>> {
    if rows == [] then [] else (if sat(rows[0].value) then [rows[0]] else []) + Matching(rows[1..], sat)
  }

  lemma Regroup<T>(a: seq<T>, b: seq<T>, c: seq<T>)
    ensures a + (b + c) == a + b + c
  {}

  lemma {:induction false} MatchingConcat<K, V>(a: seq<Row<K, V>>, b: seq<Row<K, V>>, sat: V -> bool)
    ensures Matching(a + b, sat) == Matching(a, sat) + Matching(b, sat)
  {
    if a == [] {
      assert a + b == b;
    } else {
      assert (a + b)[0] == a[0] && (a + b)[1..] == a[1..] + b;
      MatchingConcat(a[1..], b, sat);
      Regroup(if sat(a[0].value) then [a[0]] else [], Matching(a[1..], sat), Matching(b, sat));
    }
  }

  lemma {:induction false} MatchingIn<K, V>(rows: seq<Row<K, V>>, sat: V -> bool, r: Row<K, V>)
    ensures r in Matching(rows, sat) <==> r in rows && sat(r.value)
  {
    if rows != [] {
      MatchingIn(rows[1..], sat, r);
      assert rows == [rows[0]] + rows[1..];
    }
  }

  /** Operators that are each other's negation share the rows out between them. */
  lemma {:induction false} MatchingPartition<K, V>(rows: seq<Row<K, V>>, sat: V -> bool, unsat: V -> bool)
    requires forall v: V :: unsat(v) <==> !sat(v)
    ensures multiset(Matching(rows, sat)) + multiset(Matching(rows, unsat)) == multiset(rows)
  {
    if rows != [] {
      MatchingPartition(rows[1..], sat, unsat);
      assert rows == [rows[0]] + rows[1..];
    }
  }

  /** Leaf keys are in relation `leafKey` to their values, and the key above a page is in relation `covers`
      to every value below it. */
  ghost predicate WellFormed<K, V>(t: Tree<K, V>, leafKey: (K, V) -> bool, covers: (K, V) -> bool) {
    match t
    case LeafPage(rows) => forall r :: r in rows ==> leafKey(r.key, r.value)
    case InnerPage(es) => EntriesWellFormed(es, leafKey, covers)
  }

  ghost predicate EntriesWellFormed<K, V>(es: Entries<K, V>, leafKey: (K, V) -> bool, covers: (K, V) -> bool) {
    es.Entry? ==>
      && WellFormed(es.sub, leafKey, covers) && EntriesWellFormed(es.rest, leafKey, covers)
      && forall r :: r in Rows(es.sub) ==> covers(es.key, r.value)
  }

  /** The tests are exact on leaf keys. */
  ghost predicate LeafTruthful<K(!new), V(!new)>(leafKey: (K, V) -> bool, consistent: (K, bool) -> bool, recheck: V -> bool, sat: V -> bool) {
    forall k: K, v: V :: leafKey(k, v) ==> (sat(v) <==> consistent(k, true) && recheck(v))
  }

  /** The tests are exact on leaf keys, and on internal keys they hide nothing that satisfies the operator. */
  ghost predicate Truthful<K(!new), V(!new)>(leafKey: (K, V) -> bool, covers: (K, V) -> bool,
                                             consistent: (K, bool) -> bool, recheck: V -> bool, sat: V -> bool) {
    && LeafTruthful(leafKey, consistent, recheck, sat)
    && (forall k: K, v: V :: covers(k, v) && sat(v) ==> consistent(k, false))
  }

  lemma {:induction false} LeafSearch<K(!new), V(!new)>(rows: seq<Row<K, V>>, leafKey: (K, V) -> bool,
                                                        consistent: (K, bool) -> bool, recheck: V -> bool, sat: V -> bool)
    requires LeafTruthful(leafKey, consistent, recheck, sat)
    requires forall r :: r in rows ==> leafKey(r.key, r.value)
    ensures SearchLeaf(rows, consistent, recheck) == Matching(rows, sat)
  {
    if rows != [] {
      assert rows[0] in rows;
      LeafSearch(rows[1..], leafKey, consistent, recheck, sat);
    }
  }

  // ----- What a scan misses -----

  /** A row that satisfies the operator lies below an internal key that fails the test. */
  ghost predicate Hides<K, V>(t: Tree<K, V>, consistent: (K, bool) -> bool, sat: V -> bool) {
    t.InnerPage? && EntriesHide(t.entries, consistent, sat)
  }

  ghost predicate EntriesHide<K, V>(es: Entries<K, V>, consistent: (K, bool) -> bool, sat: V -> bool) {
    es.Entry? &&
      ((!consistent(es.key, false) && exists r :: r in Rows(es.sub) && sat(r.value))
       || Hides(es.sub, consistent, sat) || EntriesHide(es.rest, consistent, sat))
  }

  lemma {:induction false} SomeMatching<K, V>(rows: seq<Row<K, V>>, sat: V -> bool)
    ensures |Matching(rows, sat)| > 0 <==> exists r :: r in rows && sat(r.value)
  {
    if rows != [] {
      SomeMatching(rows[1..], sat);
      assert rows == [rows[0]] + rows[1..];
    }
  }

  lemma {:induction false} NothingHidden<K, V>(t: Tree<K, V>, consistent: (K, bool) -> bool, sat: V -> bool)
    requires forall r :: r in Rows(t) ==> !sat(r.value)
    ensures !Hides(t, consistent, sat)
  {
    if t.InnerPage? { NothingHiddenBelow(t.entries, consistent, sat); }
  }

  lemma {:induction false} NothingHiddenBelow<K, V>(es: Entries<K, V>, consistent: (K, bool) -> bool, sat: V -> bool)
    requires forall r :: r in EntryRows(es) ==> !sat(r.value)
    ensures !EntriesHide(es, consistent, sat)
  {
    if es.Entry? {
      NothingHidden(es.sub, consistent, sat);
      NothingHiddenBelow(es.rest, consistent, sat);
    }
  }

  /** The scan is no longer than the sequential one, as long exactly if nothing is hidden, and then the same. */
  ghost predicate Compares<K, V>(found: seq<Row<K, V>>, all: seq<Row<K, V>>, hides: bool) {
    |found| <= |all| && (|found| == |all| <==> !hides) && (!hides ==> found == all)
  }

  lemma {:induction false} SearchCompares<K(!new), V(!new)>(t: Tree<K, V>, leafKey: (K, V) -> bool, covers: (K, V) -> bool,
                                                            consistent: (K, bool) -> bool, recheck: V -> bool, sat: V -> bool)
    requires WellFormed(t, leafKey, covers) && LeafTruthful(leafKey, consistent, recheck, sat)
    ensures Compares(Search(t, consistent, recheck), Matching(Rows(t), sat), Hides(t, consistent, sat))
  {
    match t
    case LeafPage(rows) => LeafSearch(rows, leafKey, consistent, recheck, sat);
    case InnerPage(es) => EntriesCompare(es, leafKey, covers, consistent, recheck, sat);
  }

  lemma {:induction false} EntriesCompare<K(!new), V(!new)>(es: Entries<K, V>, leafKey: (K, V) -> bool, covers: (K, V) -> bool,
                                                            consistent: (K, bool) -> bool, recheck: V -> bool, sat: V -> bool)
    requires EntriesWellFormed(es, leafKey, covers) && LeafTruthful(leafKey, consistent, recheck, sat)
    ensures Compares(SearchEntries(es, consistent, recheck), Matching(EntryRows(es), sat), EntriesHide(es, consistent, sat))
  {
    if es.Entry? {
      SearchCompares(es.sub, leafKey, covers, consistent, recheck, sat);
      EntriesCompare(es.rest, leafKey, covers, consistent, recheck, sat);
      MatchingConcat(Rows(es.sub), EntryRows(es.rest), sat);
      SomeMatching(Rows(es.sub), sat);
      if !consistent(es.key, false) && |Matching(Rows(es.sub), sat)| == 0 {
        NothingHidden(es.sub, consistent, sat);
      }
    }
  }

  /** The index scan returns what the sequential scan returns if and only if no row that satisfies the operator
      lies below an internal key that fails the test. */
  lemma SearchExactIff<K(!new), V(!new)>(t: Tree<K, V>, leafKey: (K, V) -> bool, covers: (K, V) -> bool,
                                         consistent: (K, bool) -> bool, recheck: V -> bool, sat: V -> bool)
    requires WellFormed(t, leafKey, covers) && LeafTruthful(leafKey, consistent, recheck, sat)
    ensures Search(t, consistent, recheck) == Matching(Rows(t), sat) <==> !Hides(t, consistent, sat)
  {
    SearchCompares(t, leafKey, covers, consistent, recheck, sat);
  }

  /** Which keys hide rows, and which rows, may be told in other words. */
  lemma {:induction false} HidesSame<K(!new), V(!new)>(t: Tree<K, V>, leafKey: (K, V) -> bool, covers: (K, V) -> bool,
                                                       consistent: (K, bool) -> bool, sat: V -> bool, sat': V -> bool)
    requires WellFormed(t, leafKey, covers)
    requires forall k: K, v: V :: covers(k, v) && !consistent(k, false) ==> (sat(v) <==> sat'(v))
    ensures Hides(t, consistent, sat) <==> Hides(t, consistent, sat')
  {
    if t.InnerPage? { EntriesHideSame(t.entries, leafKey, covers, consistent, sat, sat'); }
  }

  lemma {:induction false} EntriesHideSame<K(!new), V(!new)>(es: Entries<K, V>, leafKey: (K, V) -> bool, covers: (K, V) -> bool,
                                                             consistent: (K, bool) -> bool, sat: V -> bool, sat': V -> bool)
    requires EntriesWellFormed(es, leafKey, covers)
    requires forall k: K, v: V :: covers(k, v) && !consistent(k, false) ==> (sat(v) <==> sat'(v))
    ensures EntriesHide(es, consistent, sat) <==> EntriesHide(es, consistent, sat')
  {
    if es.Entry? {
      HidesSame(es.sub, leafKey, covers, consistent, sat, sat');
      EntriesHideSame(es.rest, leafKey, covers, consistent, sat, sat');
    }
  }

  lemma {:induction false} HidesByKey<K, V>(t: Tree<K, V>, consistent: (K, bool) -> bool, consistent': (K, bool) -> bool, sat: V -> bool)
    requires forall k: K :: consistent(k, false) == consistent'(k, false)
    ensures Hides(t, consistent, sat) <==> Hides(t, consistent', sat)
  {
    if t.InnerPage? { EntriesHideByKey(t.entries, consistent, consistent', sat); }
  }

  lemma {:induction false} EntriesHideByKey<K, V>(es: Entries<K, V>, consistent: (K, bool) -> bool, consistent': (K, bool) -> bool, sat: V -> bool)
    requires forall k: K :: consistent(k, false) == consistent'(k, false)
    ensures EntriesHide(es, consistent, sat) <==> EntriesHide(es, consistent', sat)
  {
    if es.Entry? {
      HidesByKey(es.sub, consistent, consistent', sat);
      EntriesHideByKey(es.rest, consistent, consistent', sat);
    }
  }

  /** The index scan returns what the sequential scan returns. */
  lemma SearchIsExact<K(!new), V(!new)>(t: Tree<K, V>, leafKey: (K, V) -> bool, covers: (K, V) -> bool,
                                        consistent: (K, bool) -> bool, recheck: V -> bool, sat: V -> bool)
    requires WellFormed(t, leafKey, covers) && Truthful(leafKey, covers, consistent, recheck, sat)
    ensures Search(t, consistent, recheck) == Matching(Rows(t), sat)
  {
    SearchExactIff(t, leafKey, covers, consistent, recheck, sat);
    HidesSame(t, leafKey, covers, consistent, sat, (v: V) => false);
    NothingHidden(t, consistent, (v: V) => false);
  }

  // ----- Rows that are promised -----

  /** The rows of a scan that pass another test are the rows of a scan that tests both. */
  lemma {:induction false} LeafRechecked<K, V>(rows: seq<Row<K, V>>, consistent: (K, bool) -> bool, recheck: V -> bool, promised: V -> bool)
    ensures Matching(SearchLeaf(rows, consistent, recheck), promised) == SearchLeaf(rows, consistent, (v: V) => recheck(v) && promised(v))
  {
    if rows != [] {
      var first := if consistent(rows[0].key, true) && recheck(rows[0].value) then [rows[0]] else [];
      LeafRechecked(rows[1..], consistent, recheck, promised);
      MatchingConcat(first, SearchLeaf(rows[1..], consistent, recheck), promised);
    }
  }

  lemma {:induction false} SearchRechecked<K, V>(t: Tree<K, V>, consistent: (K, bool) -> bool, recheck: V -> bool, promised: V -> bool)
    ensures Matching(Search(t, consistent, recheck), promised) == Search(t, consistent, (v: V) => recheck(v) && promised(v))
  {
    match t
    case LeafPage(rows) => LeafRechecked(rows, consistent, recheck, promised);
    case InnerPage(es) => EntriesRechecked(es, consistent, recheck, promised);
  }

  lemma {:induction false} EntriesRechecked<K, V>(es: Entries<K, V>, consistent: (K, bool) -> bool, recheck: V -> bool, promised: V -> bool)
    ensures Matching(SearchEntries(es, consistent, recheck), promised) == SearchEntries(es, consistent, (v: V) => recheck(v) && promised(v))
  {
    if es.Entry? {
      var first := if consistent(es.key, false) then Search(es.sub, consistent, recheck) else [];
      SearchRechecked(es.sub, consistent, recheck, promised);
      EntriesRechecked(es.rest, consistent, recheck, promised);
      MatchingConcat(first, SearchEntries(es.rest, consistent, recheck), promised);
    }
  }

  lemma {:induction false} MatchingTwice<K, V>(rows: seq<Row<K, V>>, sat: V -> bool, promised: V -> bool)
    ensures Matching(Matching(rows, sat), promised) == Matching(rows, (v: V) => sat(v) && promised(v))
  {
    if rows != [] {
      var first := if sat(rows[0].value) then [rows[0]] else [];
      MatchingTwice(rows[1..], sat, promised);
      MatchingConcat(first, Matching(rows[1..], sat), promised);
    }
  }

  /** If the tests hide none of the promised values, both scans return the same promised rows. */
  lemma PromisedAreFound<K(!new), V(!new)>(t: Tree<K, V>, leafKey: (K, V) -> bool, covers: (K, V) -> bool,
                                           consistent: (K, bool) -> bool, recheck: V -> bool, sat: V -> bool, promised: V -> bool)
    requires WellFormed(t, leafKey, covers) && LeafTruthful(leafKey, consistent, recheck, sat)
    requires forall k: K, v: V :: covers(k, v) && sat(v) && promised(v) ==> consistent(k, false)
    ensures Matching(Search(t, consistent, recheck), promised) == Matching(Matching(Rows(t), sat), promised)
  {
    var both, recheckBoth := (v: V) => sat(v) && promised(v), (v: V) => recheck(v) && promised(v);
    SearchRechecked(t, consistent, recheck, promised);
    MatchingTwice(Rows(t), sat, promised);
    assert LeafTruthful(leafKey, consistent, recheckBoth, both);
    SearchIsExact(t, leafKey, covers, consistent, recheckBoth, both);
  }
}
