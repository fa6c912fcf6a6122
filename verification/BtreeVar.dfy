/** `btree_utils_var.c` for `bytea`: GiST keys that are truncated, yet lose no row.

    An internal key is a pair of bounds cut off two bytes past their common prefix, so a value below
    the node can be larger than the stored upper bound. `Covers` is the invariant that makes the
    search sound all the same: such a value extends the upper bound, and then the upper bound is at
    least two bytes longer than the common prefix. */
module BtreeVar {
  import opened Basics
  import opened Bytes
  import opened Sorting
  import G = GistTree

  /** A leaf key is one value; an internal key is a lower and an upper bound. */
  datatype VarKey = Leaf(v: seq<byte>) | Node(lo: seq<byte>, up: seq<byte>) {
    function Lower(): seq<byte> { if Leaf? then v else lo }
    function Upper(): seq<byte> { if Leaf? then v else up }
  }

  function Take(s: seq<byte>, n: nat): seq<byte> {
    s[..Min(|s|, n)]
  }

  // ----- Key functions -----

  /** `gbt_var_node_cp_len` for single-byte data. */
  method NodeCpLen(key: VarKey) returns (n: nat)
    ensures n == CommonPrefix(key.Lower(), key.Upper())
  {
    var p1, p2 := key.Lower(), key.Upper();
    var i, ml := 0, Min(|p1|, |p2|);
    while i < ml
      invariant 0 <= i <= ml
      invariant forall k :: 0 <= k < i ==> p1[k] == p2[k]
    {
      if p1[i] != p2[i] {
        break;
      }
      i := i + 1;
    }
    KnownPrefix(p1, p2, i);
    return i;
  }

  /** `gbt_bytea_pf_match`: `pf` is a prefix of the query. */
  predicate PrefixMatch(pf: seq<byte>, query: seq<byte>) {
    |pf| <= |query| && query[..|pf|] == pf
  }

  /** `gbt_var_node_pf_match`. */
  predicate NodePrefixMatch(key: VarKey, query: seq<byte>) {
    PrefixMatch(key.Lower(), query) || PrefixMatch(key.Upper(), query)
  }

  /** `gbt_var_node_truncate`: keeps one byte more than `cpf` of each bound. */
  function Truncate(key: VarKey, cpf: nat): VarKey {
    Node(Take(key.Lower(), cpf + 1), Take(key.Upper(), cpf + 1))
  }

  function Join(r: VarKey, e: VarKey): VarKey {
    Node(if Compare(r.Lower(), e.Lower()) > 0 then e.Lower() else r.Lower(),
         if Compare(r.Upper(), e.Upper()) < 0 then e.Upper() else r.Upper())
  }

  /** The bounds of the hull enclose those of the first `n` keys, and are themselves bounds of some. */
  ghost predicate IsHull(hull: VarKey, keys: seq<VarKey>, n: nat)
    requires n <= |keys|
  {
    && (forall i :: 0 <= i < n ==> Encloses(hull, keys[i]))
    && (exists i :: 0 <= i < n && keys[i].Lower() == hull.Lower())
    && (exists i :: 0 <= i < n && keys[i].Upper() == hull.Upper())
  }

  ghost predicate Encloses(hull: VarKey, e: VarKey) {
    LessEq(hull.Lower(), e.Lower()) && LessEq(e.Upper(), hull.Upper())
  }

  lemma JoinEncloses(hull: VarKey, e: VarKey)
    ensures Encloses(Join(hull, e), e) && Encloses(Join(hull, e), hull)
  {
    CompareAntisymmetric(hull.Lower(), e.Lower());
    CompareAntisymmetric(hull.Upper(), e.Upper());
    LessEqReflexive(e);
    LessEqReflexive(hull);
  }

  lemma LessEqReflexive(e: VarKey)
    ensures Encloses(e, e)
  {
    CompareAntisymmetric(e.Lower(), e.Lower());
    CompareAntisymmetric(e.Upper(), e.Upper());
  }

  lemma EnclosesTransitive(a: VarKey, b: VarKey, c: VarKey)
    requires Encloses(a, b) && Encloses(b, c)
    ensures Encloses(a, c)
  {
    Between(a.Lower(), b.Lower(), c.Lower());
    Between(c.Upper(), b.Upper(), a.Upper());
  }

  lemma SingleHull(keys: seq<VarKey>)
    requires keys != []
    ensures IsHull(Node(keys[0].Lower(), keys[0].Upper()), keys, 1)
  {
    LessEqReflexive(Node(keys[0].Lower(), keys[0].Upper()));
  }

  lemma JoinHull(hull: VarKey, keys: seq<VarKey>, n: nat)
    requires n < |keys| && IsHull(hull, keys, n)
    ensures IsHull(Join(hull, keys[n]), keys, n + 1)
  {
    var u := Join(hull, keys[n]);
    JoinEncloses(hull, keys[n]);
    forall i | 0 <= i < n + 1 ensures Encloses(u, keys[i]) {
      if i < n { EnclosesTransitive(u, hull, keys[i]); }
    }
    var a :| 0 <= a < n && keys[a].Lower() == hull.Lower();
    var b :| 0 <= b < n && keys[b].Upper() == hull.Upper();
  }

  // ----- The invariant -----

  /** `v` may live below a key. The upper bound may be exceeded only by a value that extends it, and
      only if it is at least two bytes longer than the common prefix of the bounds. */
  ghost predicate Covers(key: VarKey, v: seq<byte>) {
    && LessEq(key.Lower(), v)
    && (LessEq(v, key.Upper())
        || (key.Upper() <= v && |key.Upper()| >= CommonPrefix(key.Lower(), key.Upper()) + 2))
  }

  /** A leaf key covers its own value and nothing else. */
  lemma LeafCovers(x: seq<byte>, v: seq<byte>)
    ensures Covers(Leaf(x), v) <==> v == x
  {
    CompareAntisymmetric(x, v);
    CompareAntisymmetric(v, x);
    KnownPrefix(x, x, |x|);
  }

  /** Cutting the upper bound keeps every value up to it covered, or makes the value an extension. */
  lemma CutUpper(up: seq<byte>, n: nat, v: seq<byte>)
    requires LessEq(v, up)
    ensures LessEq(v, Take(up, n)) || Take(up, n) <= v
  {
    var k := CommonPrefix(v, up);
    var u := Take(up, n);
    if k >= |u| {
      assert u == v[..|u|];
    } else {
      KnownPrefix(v, u, k);
    }
  }

  lemma CutLower(lo: seq<byte>, n: nat, v: seq<byte>)
    requires LessEq(lo, v)
    ensures LessEq(Take(lo, n), v)
  {
    PrefixFirst(Take(lo, n), lo);
    Between(Take(lo, n), lo, v);
  }

  /** Cutting at least two bytes past the common prefix keeps the common prefix. */
  lemma CutCommonPrefix(lo: seq<byte>, up: seq<byte>, n: nat)
    requires n >= CommonPrefix(lo, up) + 1
    ensures CommonPrefix(Take(lo, n), Take(up, n)) == CommonPrefix(lo, up)
  {
    KnownPrefix(Take(lo, n), Take(up, n), CommonPrefix(lo, up));
  }

  /** A value beyond the upper bound of a covering key shows that the key's bounds are in order and
      part within the upper bound. */
  lemma BeyondUpper(key: VarKey, v: seq<byte>)
    requires Covers(key, v) && !LessEq(v, key.Upper())
    ensures LessEq(key.Lower(), key.Upper())
  {
    var lo, up := key.Lower(), key.Upper();
    var k := CommonPrefix(lo, up);
    assert k < |up|;
    if k < |lo| {
      KnownPrefix(lo, v, k);
    }
  }

  /** If `e` is below a hull and its upper bound is a prefix of the hull's, the hull's common prefix is
      no longer than its own. */
  lemma HullCommonPrefix(hull: VarKey, e: VarKey)
    requires LessEq(hull.Lower(), e.Lower()) && LessEq(e.Lower(), e.Upper())
    requires e.Upper() <= hull.Upper() && CommonPrefix(e.Lower(), e.Upper()) < |e.Upper()|
    ensures CommonPrefix(hull.Lower(), hull.Upper()) <= CommonPrefix(e.Lower(), e.Upper())
  {
    PrefixFirst(e.Upper(), hull.Upper());
    Between(e.Lower(), e.Upper(), hull.Upper());
    Between(hull.Lower(), e.Lower(), hull.Upper());
    KnownPrefix(e.Lower(), hull.Upper(), CommonPrefix(e.Lower(), e.Upper()));
  }

  /** What happens to one value when the hull of some keys is cut to `n` bytes: it stays covered unless
      it exceeds an upper bound that the cut leaves too long. */
  lemma CutHullCovers(hull: VarKey, e: VarKey, v: seq<byte>, n: nat)
    requires Encloses(hull, e) && Covers(e, v)
    requires n >= CommonPrefix(hull.Lower(), hull.Upper()) + 2
    requires LessEq(v, e.Upper()) || n <= |e.Upper()| || !(e.Upper() <= hull.Upper())
    ensures Covers(Node(Take(hull.Lower(), n), Take(hull.Upper(), n)), v)
  {
    var lo, up := hull.Lower(), hull.Upper();
    Between(lo, e.Lower(), v);
    CutLower(lo, n, v);
    CutCommonPrefix(lo, up, n);
    if LessEq(v, e.Upper()) {
      Between(v, e.Upper(), up);
      CutUpper(up, n, v);
      if Take(up, n) <= v { ShortUpperIsExact(up, n, v, CommonPrefix(lo, up)); }
    } else if e.Upper() <= up {
      BeyondUpper(e, v);
      HullCommonPrefix(hull, e);
      assert Take(up, n) == e.Upper()[..n] <= v;
    } else {
      Diverges(e.Upper(), up, v);
      CutUpper(up, n, v);
      if Take(up, n) <= v { ShortUpperIsExact(up, n, v, CommonPrefix(lo, up)); }
    }
  }

  /** If a value up to `up` extends a cut of it, then it equals `up` or the cut was a real one. */
  lemma ShortUpperIsExact(up: seq<byte>, n: nat, v: seq<byte>, cp: nat)
    requires LessEq(v, up) && Take(up, n) <= v && n >= cp + 2
    ensures LessEq(v, Take(up, n)) || |Take(up, n)| >= cp + 2
  {
    if |up| <= n {
      assert Take(up, n) == up;
    }
  }

  /** Extensions of a string that parts from `up` before its end stay on the same side of `up`. */
  lemma Diverges(e: seq<byte>, up: seq<byte>, v: seq<byte>)
    requires LessEq(e, up) && !(e <= up) && e <= v
    ensures LessEq(v, up)
  {
    var k := CommonPrefix(e, up);
    assert e[..k] == up[..k];
    KnownPrefix(v, up, k);
  }

  /** A covered value beyond an entry's upper bound leaves room for the cut of the hull. */
  lemma RoomForCut(hull: VarKey, e: VarKey, v: seq<byte>)
    requires Encloses(hull, e) && Covers(e, v) && !LessEq(v, e.Upper()) && e.Upper() <= hull.Upper()
    ensures CommonPrefix(hull.Lower(), hull.Upper()) + 2 <= |e.Upper()|
  {
    BeyondUpper(e, v);
    HullCommonPrefix(hull, e);
  }

  // ----- Union -----

  /** The hull of the entries, cut two bytes past its common prefix. */
  ghost predicate IsUnion(out: VarKey, entries: seq<VarKey>) {
    exists h: VarKey :: IsHull(h, entries, |entries|) && out == CutHull(h)
  }

  ghost function CutHull(h: VarKey): VarKey {
    Truncate(h, CommonPrefix(h.Lower(), h.Upper()) + 1)
  }

  /** `gbt_var_bin_union`: widens the accumulator, which starts out empty, by one key. */
  method BinUnion(u: Option<VarKey>, e: VarKey, ghost keys: seq<VarKey>, ghost i: nat) returns (r: VarKey)
    requires i < |keys| && e == keys[i]
    requires if i == 0 then u == None else u.Some? && IsHull(u.value, keys, i)
    ensures IsHull(r, keys, i + 1)
  {
    match u {
      case None =>
        SingleHull(keys);
        r := Node(e.Lower(), e.Upper());
      case Some(ro) =>
        JoinHull(ro, keys, i);
        r := Join(ro, e);
    }
  }

  method HullOf(entries: seq<VarKey>) returns (h: VarKey)
    requires entries != []
    ensures IsHull(h, entries, |entries|)
  {
    h := BinUnion(None, entries[0], entries, 0);
    var i := 1;
    while i < |entries|
      invariant 1 <= i <= |entries| && IsHull(h, entries, i)
    {
      h := BinUnion(Some(h), entries[i], entries, i);
      i := i + 1;
    }
  }

  /** `gbt_var_union`. */
  method Union(entries: seq<VarKey>) returns (out: VarKey)
    requires entries != []
    ensures IsUnion(out, entries)
  {
    var h := HullOf(entries);
    var plen := NodeCpLen(h);
    out := Truncate(h, plen + 1);
    assert out == CutHull(h);
  }

  /** The entries determine the hull, and with it the union. */
  lemma HullUnique(h: VarKey, g: VarKey, entries: seq<VarKey>)
    requires IsHull(h, entries, |entries|) && IsHull(g, entries, |entries|)
    ensures h.Lower() == g.Lower() && h.Upper() == g.Upper()
  {
    var i :| 0 <= i < |entries| && entries[i].Lower() == h.Lower();
    var j :| 0 <= j < |entries| && entries[j].Lower() == g.Lower();
    assert h.Lower() == g.Lower() by {
      assert Encloses(g, entries[i]) && Encloses(h, entries[j]);
      CompareAntisymmetric(h.Lower(), g.Lower());
    }
    i :| 0 <= i < |entries| && entries[i].Upper() == h.Upper();
    j :| 0 <= j < |entries| && entries[j].Upper() == g.Upper();
    assert Encloses(g, entries[i]) && Encloses(h, entries[j]);
    CompareAntisymmetric(h.Upper(), g.Upper());
  }

  lemma RoomOrReach(h: VarKey, e: VarKey, v: seq<byte>)
    requires Encloses(h, e) && Covers(e, v)
    ensures LessEq(v, e.Upper()) || CommonPrefix(h.Lower(), h.Upper()) + 2 <= |e.Upper()| || !(e.Upper() <= h.Upper())
  {
    if !LessEq(v, e.Upper()) && e.Upper() <= h.Upper() {
      RoomForCut(h, e, v);
    }
  }

  lemma CutHullCoversEntry(h: VarKey, e: VarKey, v: seq<byte>)
    requires Encloses(h, e) && Covers(e, v)
    ensures Covers(CutHull(h), v)
  {
    var n := CommonPrefix(h.Lower(), h.Upper()) + 2;
    RoomOrReach(h, e, v);
    CutHullCovers(h, e, v, n);
    assert CutHull(h) == Node(Take(h.Lower(), n), Take(h.Upper(), n));
  }

  /** A union covers whatever one of its entries covers. */
  lemma UnionCovers(out: VarKey, entries: seq<VarKey>, k: nat, v: seq<byte>)
    requires IsUnion(out, entries) && k < |entries| && Covers(entries[k], v)
    ensures Covers(out, v)
  {
    var h: VarKey :| IsHull(h, entries, |entries|) && out == CutHull(h);
    CutHullCoversEntry(h, entries[k], v);
  }

  // ----- Picksplit -----

  function Max(a: int, b: int): int {
    if a < b then b else a
  }

  function CutTo(h: VarKey, n: nat): VarKey {
    Node(Take(h.Lower(), n), Take(h.Upper(), n))
  }

  /** An upper bound that admits values beyond it. */
  ghost predicate Open(e: VarKey) {
    |e.Upper()| >= CommonPrefix(e.Lower(), e.Upper()) + 2
  }

  /** The cut upper bound runs past the open upper bound of an entry by bytes that are not all 255. */
  ghost predicate Overruns(up: seq<byte>, e: VarKey) {
    Open(e) && e.Upper() <= up && exists i :: |e.Upper()| <= i < |up| && up[i] != 255
  }

  /** The largest string of its length that extends `e`. */
  ghost function Largest(e: seq<byte>, n: nat): seq<byte>
    requires |e| <= n
  {
    e + seq(n - |e|, _ => 255)
  }

  /** The largest extension is covered by the entry, but lies beyond the bound that overruns it. */
  lemma LargestLost(h: VarKey, e: VarKey, n: nat, v: seq<byte>)
    requires Encloses(h, e) && LessEq(e.Lower(), e.Upper())
    requires Overruns(CutTo(h, n).Upper(), e) && v == Largest(e.Upper(), |CutTo(h, n).Upper()|)
    ensures Covers(e, v) && !LessEq(v, CutTo(h, n).Upper()) && !(CutTo(h, n).Upper() <= v)
  {
    var up := CutTo(h, n).Upper();
    PrefixFirst(e.Upper(), v);
    Between(e.Lower(), e.Upper(), v);
    var i :| |e.Upper()| <= i < |up| && up[i] != 255;
    assert v[i] == 255;
    var k := CommonPrefix(v, up);
    assert k < |v|;
    assert v[..|e.Upper()|] == up[..|e.Upper()|];
    assert k >= |e.Upper()|;
  }

  lemma HalfKeeps(h: VarKey, e: VarKey, n: nat, v: seq<byte>)
    requires Encloses(h, e) && Covers(e, v) && n >= CommonPrefix(h.Lower(), h.Upper()) + 2
    requires !Overruns(CutTo(h, n).Upper(), e)
    ensures Covers(CutTo(h, n), v)
  {
    var up := Take(h.Upper(), n);
    if LessEq(v, e.Upper()) || n <= |e.Upper()| || !(e.Upper() <= h.Upper()) {
      CutHullCovers(h, e, v, n);
    } else {
      RoomForCut(h, e, v);
      CutCommonPrefix(h.Lower(), h.Upper(), n);
      Between(h.Lower(), e.Lower(), v);
      CutLower(h.Lower(), n, v);
      assert e.Upper() <= up;
      assert forall i :: |e.Upper()| <= i < |up| ==> up[i] == 255;
      TopOrExtension(e.Upper(), up, v);
    }
  }

  /** Past `e` the bound holds only the largest byte, so an extension of `e` stays below or extends it. */
  lemma TopOrExtension(e: seq<byte>, up: seq<byte>, v: seq<byte>)
    requires e <= up && e <= v && forall i :: |e| <= i < |up| ==> up[i] == 255
    ensures LessEq(v, up) || up <= v
  {
    var k := CommonPrefix(v, up);
    if k == |up| {
      assert up == v[..k];
    } else {
      assert k < |v| ==> k >= |e|;
    }
  }

  /** Leaf entries are never open. */
  lemma LeafNotOpen(x: seq<byte>)
    ensures !Open(Leaf(x))
  {
    KnownPrefix(x, x, |x|);
  }

  datatype Vsrt = Vsrt(i: nat, t: VarKey)

  /** `gbt_vsrt_cmp`: by lower bound, then by upper bound. */
  predicate VsrtLe(a: Vsrt, b: Vsrt) {
    var res := Compare(a.t.Lower(), b.t.Lower());
    if res == 0 then Compare(a.t.Upper(), b.t.Upper()) <= 0 else res < 0
  }

  lemma VsrtOrder()
    ensures TotalPreorder(VsrtLe)
  {
    forall x: Vsrt, y: Vsrt ensures VsrtLe(x, y) || VsrtLe(y, x) {
      CompareAntisymmetric(x.t.Lower(), y.t.Lower());
      CompareAntisymmetric(x.t.Upper(), y.t.Upper());
    }
    forall x: Vsrt, y: Vsrt, z: Vsrt | VsrtLe(x, y) && VsrtLe(y, z) ensures VsrtLe(x, z) {
      VsrtTransitive(x, y, z);
    }
  }

  lemma VsrtTransitive(x: Vsrt, y: Vsrt, z: Vsrt)
    requires VsrtLe(x, y) && VsrtLe(y, z)
    ensures VsrtLe(x, z)
  {
    Between(x.t.Lower(), y.t.Lower(), z.t.Lower());
    CompareAntisymmetric(x.t.Lower(), y.t.Lower());
    CompareAntisymmetric(y.t.Lower(), z.t.Lower());
    CompareAntisymmetric(x.t.Lower(), z.t.Lower());
    if x.t.Lower() == y.t.Lower() == z.t.Lower() {
      Between(x.t.Upper(), y.t.Upper(), z.t.Upper());
    }
  }

  function KeysOf(arr: seq<Vsrt>): seq<VarKey> {
    seq(|arr|, k requires 0 <= k < |arr| => arr[k].t)
  }

  /** A split of a page: the sorted entries are halved, and the hulls of both halves are cut at the length
      that suits the one with the longer common prefix. */
  ghost predicate IsSplit(arr: seq<Vsrt>, nleft: nat, lh: VarKey, rh: VarKey, left: VarKey, right: VarKey) {
    && Sorted(arr, VsrtLe) && 0 < nleft == |arr| / 2 < |arr|
    && IsHull(lh, KeysOf(arr[..nleft]), nleft) && IsHull(rh, KeysOf(arr[nleft..]), |arr| - nleft)
    && var n := Max(CommonPrefix(lh.Lower(), lh.Upper()), CommonPrefix(rh.Lower(), rh.Upper())) + 2;
       left == CutTo(lh, n) && right == CutTo(rh, n)
  }

  /** `gbt_var_picksplit`. */
  method PickSplit(arr0: seq<Vsrt>) returns (arr: seq<Vsrt>, nleft: nat, left: VarKey, right: VarKey, ghost lh: VarKey, ghost rh: VarKey)
    requires |arr0| >= 2
    ensures multiset(arr) == multiset(arr0) && IsSplit(arr, nleft, lh, rh, left, right)
  {
    VsrtOrder();
    arr := Sort(arr0, VsrtLe);
    assert |multiset(arr)| == |multiset(arr0)|;
    nleft := |arr| / 2;
    var l := HullOf(KeysOf(arr[..nleft]));
    var r := HullOf(KeysOf(arr[nleft..]));
    lh, rh := l, r;
    var ll := NodeCpLen(l);
    var lr := NodeCpLen(r);
    ll := Max(ll, lr);
    ll := ll + 1;
    left := Truncate(l, ll);
    right := Truncate(r, ll);
  }

  /** A split of a leaf page loses nothing: each half covers the values that went into it. */
  lemma LeafSplitKeeps(arr: seq<Vsrt>, nleft: nat, lh: VarKey, rh: VarKey, left: VarKey, right: VarKey, k: nat)
    requires IsSplit(arr, nleft, lh, rh, left, right) && k < |arr| && arr[k].t.Leaf?
    ensures Covers(if k < nleft then left else right, arr[k].t.v)
  {
    var e := arr[k].t;
    LeafNotOpen(e.v);
    LeafCovers(e.v, e.v);
    var n := Max(CommonPrefix(lh.Lower(), lh.Upper()), CommonPrefix(rh.Lower(), rh.Upper())) + 2;
    if k < nleft {
      assert KeysOf(arr[..nleft])[k] == e;
      HalfKeeps(lh, e, n, e.v);
    } else {
      assert KeysOf(arr[nleft..])[k - nleft] == e;
      HalfKeeps(rh, e, n, e.v);
    }
  }

  // ----- Search -----

  datatype Strategy = LessThan | LessEqual | Equal | GreaterEqual | GreaterThan | NotEqual | Other

  /** The indexed operator: `value op query`. */
  predicate Satisfies(st: Strategy, v: seq<byte>, query: seq<byte>) {
    match st
    case LessThan => Compare(v, query) < 0
    case LessEqual => Compare(v, query) <= 0
    case Equal => v == query
    case GreaterEqual => Compare(v, query) >= 0
    case GreaterThan => Compare(v, query) > 0
    case NotEqual => v != query
    case Other => false
  }

  /** `gbt_var_consistent`. */
  predicate Consistent(key: VarKey, query: seq<byte>, st: Strategy, isLeaf: bool) {
    match st
    case LessEqual =>
      if isLeaf then Compare(query, key.Lower()) >= 0
      else Compare(query, key.Lower()) >= 0 || NodePrefixMatch(key, query)
    case LessThan =>
      if isLeaf then Compare(query, key.Lower()) > 0
      else Compare(query, key.Lower()) >= 0 || NodePrefixMatch(key, query)
    case Equal =>
      if isLeaf then Compare(query, key.Lower()) == 0
      else (Compare(key.Lower(), query) <= 0 && Compare(query, key.Upper()) <= 0) || NodePrefixMatch(key, query)
    case GreaterThan =>
      if isLeaf then Compare(query, key.Upper()) < 0
      else Compare(query, key.Upper()) <= 0 || NodePrefixMatch(key, query)
    case GreaterEqual =>
      if isLeaf then Compare(query, key.Upper()) <= 0
      else Compare(query, key.Upper()) <= 0 || NodePrefixMatch(key, query)
    case NotEqual => !(query == key.Lower() && query == key.Upper())
    case Other => false
  }

  /** On a leaf page the test is exact, which is why no recheck is asked for. */
  lemma LeafExact(v: seq<byte>, query: seq<byte>, st: Strategy)
    ensures Consistent(Leaf(v), query, st, true) <==> Satisfies(st, v, query)
  {
    CompareAntisymmetric(v, query);
  }

  /** On an internal page no subtree with a match is skipped. */
  lemma NodeSound(key: VarKey, v: seq<byte>, query: seq<byte>, st: Strategy)
    requires Covers(key, v) && Satisfies(st, v, query)
    ensures Consistent(key, query, st, false)
  {
    CompareAntisymmetric(v, query);
    match st
    case LessThan => Between(key.Lower(), v, query); CompareAntisymmetric(key.Lower(), query);
    case LessEqual => Between(key.Lower(), v, query); CompareAntisymmetric(key.Lower(), query);
    case Equal => UpperReaches(key, v, query);
    case GreaterEqual => UpperReaches(key, v, query);
    case GreaterThan => UpperReaches(key, v, query);
    case NotEqual => if key.Lower() == key.Upper() { PointKeyIsExact(key, v); }
  }

  /** A query up to a covered value is up to the upper bound or extends it. */
  lemma UpperReaches(key: VarKey, v: seq<byte>, query: seq<byte>)
    requires Covers(key, v) && LessEq(query, v)
    ensures LessEq(query, key.Upper()) || PrefixMatch(key.Upper(), query)
  {
    var up := key.Upper();
    if LessEq(v, up) {
      Between(query, v, up);
    } else if !LessEq(query, up) {
      PrefixFirst(up, v);
      CompareAntisymmetric(query, up);
      Between(up, query, v);
      assert CommonPrefix(up, v) == |up|;
      assert query[..|up|] == up;
    }
  }

  /** Equal bounds leave room for one value only. */
  lemma PointKeyIsExact(key: VarKey, v: seq<byte>)
    requires Covers(key, v) && key.Lower() == key.Upper()
    ensures v == key.Lower()
  {
    CompareAntisymmetric(key.Lower(), v);
    KnownPrefix(key.Lower(), key.Lower(), |key.Lower()|);
  }

  // ----- What a split hides -----

  /** The lower bound is a prefix of the upper one. */
  predicate Prefixed(key: VarKey) {
    key.Lower() <= key.Upper()
  }

  /** The key with an upper bound no longer than a union would leave it. */
  ghost function Stub(e: VarKey): VarKey {
    Node(e.Lower(), Take(e.Upper(), CommonPrefix(e.Lower(), e.Upper()) + 2))
  }

  lemma StubBounds(e: VarKey)
    ensures CommonPrefix(Stub(e).Lower(), Stub(e).Upper()) == CommonPrefix(e.Lower(), e.Upper())
    ensures LessEq(Stub(e).Upper(), e.Upper())
  {
    KnownPrefix(Stub(e).Lower(), Stub(e).Upper(), CommonPrefix(e.Lower(), e.Upper()));
    PrefixFirst(Stub(e).Upper(), e.Upper());
  }

  lemma StubEnclosed(h: VarKey, e: VarKey)
    requires Encloses(h, e)
    ensures Encloses(h, Stub(e))
  {
    StubBounds(e);
    Between(Stub(e).Upper(), e.Upper(), h.Upper());
  }

  /** A search finds a value below a key that covers it, or whose lower bound is a prefix of the upper one and
      whose stub covers it. */
  ghost predicate Sees(key: VarKey, v: seq<byte>) {
    Covers(key, v) || (Prefixed(key) && Covers(Stub(key), v))
  }

  lemma SeenIsFound(key: VarKey, v: seq<byte>, query: seq<byte>, st: Strategy)
    requires Sees(key, v) && Satisfies(st, v, query)
    ensures Consistent(key, query, st, false)
  {
    if Covers(key, v) {
      NodeSound(key, v, query, st);
    } else {
      PrefixedSound(key, v, query, st);
    }
  }

  /** Under a lower bound that is a prefix of the upper one, whatever extends the lower bound is found. */
  lemma PrefixedSound(key: VarKey, v: seq<byte>, query: seq<byte>, st: Strategy)
    requires !Covers(key, v) && Prefixed(key) && Covers(Stub(key), v) && Satisfies(st, v, query)
    ensures Consistent(key, query, st, false)
  {
    var lo := key.Lower();
    BeyondStub(key, v);
    CompareAntisymmetric(v, query);
    match st
    case LessThan => Between(lo, v, query); CompareAntisymmetric(lo, query);
    case LessEqual => Between(lo, v, query); CompareAntisymmetric(lo, query);
    case Equal =>
    case GreaterEqual => PrefixReaches(key, v, query);
    case GreaterThan => PrefixReaches(key, v, query);
    case NotEqual =>
  }

  /** A value that the stub covers and the key does not extends the lower bound, and the bounds differ. */
  lemma BeyondStub(key: VarKey, v: seq<byte>)
    requires !Covers(key, v) && Prefixed(key) && Covers(Stub(key), v)
    ensures PrefixMatch(key.Lower(), v) && LessEq(key.Lower(), v) && key.Lower() != key.Upper()
  {
    var lo, up := key.Lower(), key.Upper();
    KnownPrefix(lo, up, |lo|);
    StubBounds(key);
    if LessEq(v, Stub(key).Upper()) {
      Between(v, Stub(key).Upper(), up);
    }
  }

  lemma PrefixReaches(key: VarKey, v: seq<byte>, query: seq<byte>)
    requires Prefixed(key) && PrefixMatch(key.Lower(), v) && LessEq(query, v)
    ensures LessEq(query, key.Upper()) || PrefixMatch(key.Lower(), query)
  {
    var lo := key.Lower();
    PrefixFirst(lo, key.Upper());
    CompareAntisymmetric(lo, query);
    if LessEq(lo, query) {
      PrefixFirst(lo, v);
      Between(lo, query, v);
      assert query[..|lo|] == lo;
    } else {
      Between(query, lo, key.Upper());
    }
  }

  lemma StubOfCut(h: VarKey, n: nat)
    requires n >= CommonPrefix(h.Lower(), h.Upper()) + 2
    ensures Stub(CutTo(h, n)) == Node(Take(h.Lower(), n), CutHull(h).Upper())
    ensures CommonPrefix(Stub(CutTo(h, n)).Lower(), Stub(CutTo(h, n)).Upper()) == CommonPrefix(CutHull(h).Lower(), CutHull(h).Upper())
  {
    var lo, up, cp := h.Lower(), h.Upper(), CommonPrefix(h.Lower(), h.Upper());
    CutCommonPrefix(lo, up, n);
    CutCommonPrefix(lo, up, cp + 2);
    StubBounds(CutTo(h, n));
    assert Take(Take(up, n), cp + 2) == Take(up, cp + 2);
  }

  /** Cutting a hull leaves its stub covering what an entry covers. */
  lemma HalfStubCovers(h: VarKey, e: VarKey, n: nat, v: seq<byte>)
    requires Encloses(h, e) && Covers(e, v) && n >= CommonPrefix(h.Lower(), h.Upper()) + 2
    ensures Covers(Stub(CutTo(h, n)), v)
  {
    CutHullCoversEntry(h, e, v);
    StubOfCut(h, n);
    Between(h.Lower(), e.Lower(), v);
    CutLower(h.Lower(), n, v);
  }

  lemma CutPrefixed(h: VarKey, n: nat)
    requires n >= CommonPrefix(h.Lower(), h.Upper()) + 2 && Prefixed(h)
    ensures Prefixed(CutTo(h, n))
  {
    KnownPrefix(h.Lower(), h.Upper(), |h.Lower()|);
    assert Take(h.Lower(), n) == h.Lower();
  }

  /** A half hides no value that an entry covers from any query if and only if its bound does not overrun that
      entry's, or the lower bound of its hull is a prefix of the upper one. */
  lemma HalfHidesIff(h: VarKey, e: VarKey, n: nat)
    requires Encloses(h, e) && LessEq(e.Lower(), e.Upper()) && n >= CommonPrefix(h.Lower(), h.Upper()) + 2
    ensures (forall v, query, st :: Covers(e, v) && Satisfies(st, v, query) ==> Consistent(CutTo(h, n), query, st, false))
       <==> !(Overruns(CutTo(h, n).Upper(), e) && !Prefixed(h))
  {
    var up := CutTo(h, n).Upper();
    if Overruns(up, e) && !Prefixed(h) {
      var v := Largest(e.Upper(), |up|);
      LostToEqual(h, e, n, v);
    } else {
      forall v, query, st | Covers(e, v) && Satisfies(st, v, query) ensures Consistent(CutTo(h, n), query, st, false) {
        HalfSees(h, e, n, v);
        SeenIsFound(CutTo(h, n), v, query, st);
      }
    }
  }

  /** A half sees what an entry covers, unless it overruns and the lower bound is no prefix. */
  lemma HalfSees(h: VarKey, e: VarKey, n: nat, v: seq<byte>)
    requires Encloses(h, e) && Covers(e, v) && n >= CommonPrefix(h.Lower(), h.Upper()) + 2
    requires !(Overruns(CutTo(h, n).Upper(), e) && !Prefixed(h))
    ensures Sees(CutTo(h, n), v)
  {
    if Prefixed(h) {
      CutPrefixed(h, n);
      HalfStubCovers(h, e, n, v);
    } else {
      HalfKeeps(h, e, n, v);
    }
  }

  /** The largest extension of the entry's bound is not found even by a search for itself. */
  lemma LostToEqual(h: VarKey, e: VarKey, n: nat, v: seq<byte>)
    requires Encloses(h, e) && LessEq(e.Lower(), e.Upper()) && n >= CommonPrefix(h.Lower(), h.Upper()) + 2
    requires Overruns(CutTo(h, n).Upper(), e) && !Prefixed(h) && v == Largest(e.Upper(), |CutTo(h, n).Upper()|)
    ensures Covers(e, v) && Satisfies(Equal, v, v) && !Consistent(CutTo(h, n), v, Equal, false)
  {
    LargestLost(h, e, n, v);
    var lo, up, cp := h.Lower(), h.Upper(), CommonPrefix(h.Lower(), h.Upper());
    assert e.Upper() <= up;
    HullCommonPrefix(h, e);
    Between(lo, e.Lower(), e.Upper());
    Between(lo, e.Upper(), up);
    assert cp < |lo| && cp < |e.Upper()|;
    assert v[cp] == e.Upper()[cp] == up[cp] != lo[cp] == Take(lo, n)[cp];
  }

  // ----- Whole trees -----

  /** How a key came about: from one value, by union (of a page, or of an old key with a new one), or as
      a half of a split that hides none of its entries. */
  datatype Origin =
    | Exact(v: seq<byte>)
    | UnionOf(key: VarKey, parts: seq<Origin>)
    | HalfOf(hull: VarKey, n: nat, parts: seq<Origin>)
  {
    ghost function Key(): VarKey {
      match this
      case Exact(x) => Leaf(x)
      case UnionOf(k, _) => k
      case HalfOf(h, m, _) => CutTo(h, m)
    }

    /** The key covers its values: it is no half that overruns an entry. */
    ghost predicate Tight()
      decreases this, 0
    {
      HalfOf? ==> forall i :: 0 <= i < |parts| ==> !Overruns(Key().Upper(), parts[i].Reach())
    }

    /** The key, or if that may not cover its values, its stub, which does. */
    ghost function Reach(): VarKey
      decreases this, 1
    {
      if Tight() then Key() else Stub(Key())
    }

    ghost predicate Built() {
      match this
      case Exact(_) => true
      case UnionOf(k, ps) =>
        IsUnion(k, PartKeys(ps)) && forall i :: 0 <= i < |ps| ==> ps[i].Built()
      case HalfOf(h, m, ps) =>
        && m >= CommonPrefix(h.Lower(), h.Upper()) + 2 && (Tight() || Prefixed(h))
        && forall i :: 0 <= i < |ps| ==> ps[i].Built() && Encloses(h, ps[i].Key())
    }

    ghost predicate Mentions(x: seq<byte>) {
      match this
      case Exact(y) => x == y
      case UnionOf(_, ps) => exists i :: 0 <= i < |ps| && ps[i].Mentions(x)
      case HalfOf(_, _, ps) => exists i :: 0 <= i < |ps| && ps[i].Mentions(x)
    }
  }

  ghost function PartKeys(ps: seq<Origin>): seq<VarKey> {
    seq(|ps|, i requires 0 <= i < |ps| => ps[i].Key())
  }

  /** However a key came about, it sees every value that went into it, and its reach covers it. */
  lemma {:induction false} BuiltSees(o: Origin, v: seq<byte>)
    requires o.Built() && o.Mentions(v)
    ensures Covers(o.Reach(), v) && Sees(o.Key(), v)
  {
    match o
    case Exact(x) => LeafCovers(x, v);
    case UnionOf(k, ps) =>
      var i :| 0 <= i < |ps| && ps[i].Mentions(v);
      BuiltSees(ps[i], v);
      UnionCoversReach(k, PartKeys(ps), i, ps[i].Reach(), v);
    case HalfOf(h, m, ps) =>
      var i :| 0 <= i < |ps| && ps[i].Mentions(v);
      BuiltSees(ps[i], v);
      ReachEnclosed(h, ps[i]);
      if o.Tight() {
        HalfKeeps(h, ps[i].Reach(), m, v);
      } else {
        HalfStubCovers(h, ps[i].Reach(), m, v);
        CutPrefixed(h, m);
      }
  }

  lemma ReachEnclosed(h: VarKey, o: Origin)
    requires Encloses(h, o.Key())
    ensures Encloses(h, o.Reach())
  {
    StubEnclosed(h, o.Key());
  }

  lemma UnionCoversReach(out: VarKey, entries: seq<VarKey>, k: nat, reach: VarKey, v: seq<byte>)
    requires IsUnion(out, entries) && k < |entries| && (reach == entries[k] || reach == Stub(entries[k])) && Covers(reach, v)
    ensures Covers(out, v)
  {
    var h: VarKey :| IsHull(h, entries, |entries|) && out == CutHull(h);
    StubEnclosed(h, entries[k]);
    CutHullCoversEntry(h, reach, v);
  }

  /** The key came about in one of these ways, and the value went into it. */
  ghost predicate Accounts(key: VarKey, v: seq<byte>) {
    exists o: Origin :: o.Built() && o.Key() == key && o.Mentions(v)
  }

  /** The scan of a tree whose keys came about in these ways returns exactly the stored values that satisfy
      the operator, without any recheck. */
  lemma SearchIsExact(t: G.Tree<VarKey, seq<byte>>, query: seq<byte>, st: Strategy)
    requires G.WellFormed(t, (k: VarKey, v: seq<byte>) => k == Leaf(v), Accounts)
    ensures G.Search(t, (k: VarKey, leaf: bool) => Consistent(k, query, st, leaf), (v: seq<byte>) => true)
         == G.Matching(G.Rows(t), (v: seq<byte>) => Satisfies(st, v, query))
  {
    var leafKey := (k: VarKey, v: seq<byte>) => k == Leaf(v);
    var consistent := (k: VarKey, leaf: bool) => Consistent(k, query, st, leaf);
    var recheck := (v: seq<byte>) => true;
    var sat := (v: seq<byte>) => Satisfies(st, v, query);
    forall k: VarKey, v: seq<byte> | leafKey(k, v) ensures sat(v) <==> consistent(k, true) && recheck(v) {
      LeafExact(v, query, st);
    }
    forall k: VarKey, v: seq<byte> | Accounts(k, v) && sat(v) ensures consistent(k, false) {
      var o: Origin :| o.Built() && o.Key() == k && o.Mentions(v);
      BuiltSees(o, v);
      SeenIsFound(k, v, query, st);
    }
    G.SearchIsExact(t, leafKey, Accounts, consistent, recheck, sat);
  }

  /** What the operators mean, by the bytes of both strings. */
  ghost predicate Means(st: Strategy, v: seq<byte>, query: seq<byte>) {
    match st
    case LessThan => Precedes(v, query)
    case LessEqual => v == query || Precedes(v, query)
    case Equal => v == query
    case GreaterEqual => v == query || Precedes(query, v)
    case GreaterThan => Precedes(query, v)
    case NotEqual => v != query
    case Other => false
  }

  /** Every operator is what it means; exactly one of less, equal and greater holds, and the other three are the
      negations of these. */
  lemma StrategyLaws(v: seq<byte>, query: seq<byte>)
    ensures forall st :: Satisfies(st, v, query) <==> Means(st, v, query)
    ensures Satisfies(LessThan, v, query) || Satisfies(Equal, v, query) || Satisfies(GreaterThan, v, query)
    ensures !(Satisfies(LessThan, v, query) && Satisfies(Equal, v, query))
    ensures !(Satisfies(LessThan, v, query) && Satisfies(GreaterThan, v, query))
    ensures !(Satisfies(Equal, v, query) && Satisfies(GreaterThan, v, query))
    ensures Satisfies(GreaterEqual, v, query) <==> !Satisfies(LessThan, v, query)
    ensures Satisfies(LessEqual, v, query) <==> !Satisfies(GreaterThan, v, query)
    ensures Satisfies(NotEqual, v, query) <==> !Satisfies(Equal, v, query)
  {
    CompareSign(v, query);
    CompareAntisymmetric(v, query);
  }

  /** The index scan for an operator. */
  ghost function Scan(t: G.Tree<VarKey, seq<byte>>, query: seq<byte>, st: Strategy): seq<G.Row<VarKey, seq<byte>>> {
    G.Search(t, (k: VarKey, leaf: bool) => Consistent(k, query, st, leaf), (v: seq<byte>) => true)
  }

  /** The keys of the tree came about in these ways. */
  ghost predicate Indexed(t: G.Tree<VarKey, seq<byte>>) {
    G.WellFormed(t, (k: VarKey, v: seq<byte>) => k == Leaf(v), Accounts)
  }

  /** A scan returns a row if and only if the tree has it and the bytes of its value say so. */
  lemma ScanReturns(t: G.Tree<VarKey, seq<byte>>, query: seq<byte>, st: Strategy, r: G.Row<VarKey, seq<byte>>)
    requires Indexed(t)
    ensures r in Scan(t, query, st) <==> r in G.Rows(t) && Means(st, r.value, query)
  {
    SearchIsExact(t, query, st);
    G.MatchingIn(G.Rows(t), (v: seq<byte>) => Satisfies(st, v, query), r);
    StrategyLaws(r.value, query);
  }

  /** The operator that holds exactly where the other does not. */
  function Negated(st: Strategy): Strategy {
    match st
    case LessThan => GreaterEqual
    case LessEqual => GreaterThan
    case Equal => NotEqual
    case GreaterEqual => LessThan
    case GreaterThan => LessEqual
    case NotEqual => Equal
    case Other => Other
  }

  /** The scans for an operator and for its negation share the rows of the tree out between them. */
  lemma ScansPartition(t: G.Tree<VarKey, seq<byte>>, query: seq<byte>, st: Strategy)
    requires Indexed(t) && st != Other
    ensures multiset(Scan(t, query, st)) + multiset(Scan(t, query, Negated(st))) == multiset(G.Rows(t))
  {
    SearchIsExact(t, query, st);
    SearchIsExact(t, query, Negated(st));
    forall v: seq<byte> ensures Satisfies(Negated(st), v, query) <==> !Satisfies(st, v, query) { StrategyLaws(v, query); }
    G.MatchingPartition(G.Rows(t), (v: seq<byte>) => Satisfies(st, v, query), (v: seq<byte>) => Satisfies(Negated(st), v, query));
  }

  // ----- What the test of an internal key admits -----

  /** A value from the lower bound on, up to the upper bound or extending either bound. */
  ghost predicate Admitted(key: VarKey, v: seq<byte>) {
    LessEq(key.Lower(), v) && (LessEq(v, key.Upper()) || NodePrefixMatch(key, v))
  }

  /** The internal test for an operator holds exactly if a value between the bounds, or one that extends a bound,
      satisfies it; for strict operators a value equal to the query counts too, and for inequality one between
      the bounds is asked for. */
  lemma NodeAdmitsIff(key: VarKey, query: seq<byte>)
    requires LessEq(key.Lower(), key.Upper())
    ensures Consistent(key, query, LessEqual, false) <==> exists v :: Admitted(key, v) && Means(LessEqual, v, query)
    ensures Consistent(key, query, Equal, false) <==> Admitted(key, query)
    ensures Consistent(key, query, GreaterEqual, false) <==> exists v :: Admitted(key, v) && Means(GreaterEqual, v, query)
    ensures Consistent(key, query, LessThan, false) <==> Consistent(key, query, LessEqual, false)
    ensures Consistent(key, query, GreaterThan, false) <==> Consistent(key, query, GreaterEqual, false)
    ensures Consistent(key, query, NotEqual, false) <==>
      exists v :: LessEq(key.Lower(), v) && LessEq(v, key.Upper()) && Means(NotEqual, v, query)
  {
    AdmitsBelow(key, query);
    AdmitsAbove(key, query);
    AdmitsOther(key, query);
    CompareAntisymmetric(key.Lower(), query);
    if NodePrefixMatch(key, query) { MatchReaches(key, query); }
  }

  lemma AdmitsBelow(key: VarKey, query: seq<byte>)
    requires LessEq(key.Lower(), key.Upper())
    ensures Consistent(key, query, LessEqual, false) <==> exists v :: Admitted(key, v) && Means(LessEqual, v, query)
  {
    var lo := key.Lower();
    CompareSign(lo, query);
    CompareSign(query, lo);
    SelfPrefix(lo);
    if Consistent(key, query, LessEqual, false) {
      if NodePrefixMatch(key, query) { MatchReaches(key, query); }
      assert Admitted(key, lo) && Means(LessEqual, lo, query);
    }
    forall v | Admitted(key, v) && Means(LessEqual, v, query) ensures Consistent(key, query, LessEqual, false) {
      CompareSign(v, query);
      Between(lo, v, query);
    }
  }

  lemma AdmitsAbove(key: VarKey, query: seq<byte>)
    requires LessEq(key.Lower(), key.Upper())
    ensures Consistent(key, query, GreaterEqual, false) <==> exists v :: Admitted(key, v) && Means(GreaterEqual, v, query)
  {
    var up := key.Upper();
    CompareSign(query, up);
    SelfPrefix(up);
    if Consistent(key, query, GreaterEqual, false) {
      if NodePrefixMatch(key, query) {
        MatchReaches(key, query);
        assert Admitted(key, query) && Means(GreaterEqual, query, query);
      } else {
        assert Admitted(key, up) && Means(GreaterEqual, up, query);
      }
    }
    forall v | Admitted(key, v) && Means(GreaterEqual, v, query) ensures Consistent(key, query, GreaterEqual, false) {
      CompareSign(query, v);
      AdmittedReaches(key, v, query);
    }
  }

  lemma AdmitsOther(key: VarKey, query: seq<byte>)
    requires LessEq(key.Lower(), key.Upper())
    ensures Consistent(key, query, NotEqual, false) <==>
      exists v :: LessEq(key.Lower(), v) && LessEq(v, key.Upper()) && Means(NotEqual, v, query)
  {
    var lo, up := key.Lower(), key.Upper();
    SelfPrefix(lo);
    SelfPrefix(up);
    if query != lo { assert LessEq(lo, lo) && LessEq(lo, up) && Means(NotEqual, lo, query); }
    if query != up { assert LessEq(lo, up) && LessEq(up, up) && Means(NotEqual, up, query); }
    forall v | query == lo == up && LessEq(lo, v) && LessEq(v, up) ensures v == query { CompareAntisymmetric(lo, v); }
  }

  /** A query up to an admitted value is up to the upper bound or extends a bound. */
  lemma AdmittedReaches(key: VarKey, v: seq<byte>, query: seq<byte>)
    requires LessEq(key.Lower(), key.Upper()) && Admitted(key, v) && LessEq(query, v)
    ensures LessEq(query, key.Upper()) || NodePrefixMatch(key, query)
  {
    var lo, up := key.Lower(), key.Upper();
    CompareAntisymmetric(lo, query);
    CompareAntisymmetric(up, query);
    if LessEq(v, up) {
      Between(query, v, up);
    } else if LessEq(query, lo) {
      Between(query, lo, up);
    } else if PrefixMatch(lo, v) {
      PrefixFirst(lo, v);
      Between(lo, query, v);
      assert query[..|lo|] == lo;
    } else if !LessEq(query, up) {
      PrefixFirst(up, v);
      Between(up, query, v);
      assert query[..|up|] == up;
    }
  }

  /** What extends a bound is not below the lower one. */
  lemma MatchReaches(key: VarKey, v: seq<byte>)
    requires LessEq(key.Lower(), key.Upper()) && NodePrefixMatch(key, v)
    ensures LessEq(key.Lower(), v)
  {
    if PrefixMatch(key.Lower(), v) {
      PrefixFirst(key.Lower(), v);
    } else {
      PrefixFirst(key.Upper(), v);
      Between(key.Lower(), key.Upper(), v);
    }
  }

  // ----- A split that loses a row -----

  /** The first difference decides comparison and common prefix. */
  lemma Parts(a: seq<byte>, b: seq<byte>, k: nat)
    requires k < |a| && k < |b| && a[..k] == b[..k] && a[k] < b[k]
    ensures CommonPrefix(a, b) == k && Compare(a, b) == -1 && Compare(b, a) == 1
  {
    KnownPrefix(a, b, k);
    CompareAntisymmetric(a, b);
  }

  lemma SelfPrefix(a: seq<byte>)
    ensures CommonPrefix(a, a) == |a| && Compare(a, a) == 0
  {
    KnownPrefix(a, a, |a|);
  }

  /** The key above two leaves is cut two bytes behind their common prefix. */
  lemma PairUnion(a: seq<byte>, b: seq<byte>, k: nat, lo: seq<byte>, up: seq<byte>)
    requires k < |a| && k < |b| && a[..k] == b[..k] && a[k] < b[k] && lo <= a && up <= b && |lo| == |up| == k + 2
    ensures IsUnion(Node(lo, up), LeafKeys([a, b]))
  {
    var leaves, top := LeafKeys([a, b]), Node(a, b);
    Parts(a, b, k);
    SelfPrefix(a);
    SelfPrefix(b);
    assert leaves[0] == Leaf(a) && leaves[1] == Leaf(b);
    TwoKeyHull(leaves, top);
    assert CutHull(top) == Node(lo, up);
  }

  /** The key above a single leaf. */
  lemma SingleUnion(a: seq<byte>)
    ensures IsUnion(Node(a, a), LeafKeys([a]))
  {
    SelfPrefix(a);
    assert LeafKeys([a])[0] == Leaf(a);
    SingleHull(LeafKeys([a]));
    assert CutHull(Node(a, a)) == Node(a, a);
  }

  ghost function LeafKeys(vs: seq<seq<byte>>): seq<VarKey> {
    seq(|vs|, i requires 0 <= i < |vs| => Leaf(vs[i]))
  }

  ghost function Page(vs: seq<seq<byte>>): G.Tree<VarKey, seq<byte>> {
    G.LeafPage(seq(|vs|, i requires 0 <= i < |vs| => G.Row(Leaf(vs[i]), vs[i])))
  }

  ghost function TwoPages(k: VarKey, s: G.Tree<VarKey, seq<byte>>, l: VarKey, t: G.Tree<VarKey, seq<byte>>): G.Tree<VarKey, seq<byte>> {
    G.InnerPage(G.Entry(k, s, G.Entry(l, t, G.End)))
  }

  lemma FirstPageRows(k: VarKey, s: G.Tree<VarKey, seq<byte>>, l: VarKey, t: G.Tree<VarKey, seq<byte>>, r: G.Row<VarKey, seq<byte>>)
    requires r in G.Rows(s)
    ensures r in G.Rows(TwoPages(k, s, l, t))
  {}

  lemma NeitherPage(k: VarKey, s: G.Tree<VarKey, seq<byte>>, l: VarKey, t: G.Tree<VarKey, seq<byte>>,
                    consistent: (VarKey, bool) -> bool, recheck: seq<byte> -> bool)
    requires !consistent(k, false) && !consistent(l, false)
    ensures G.Search(TwoPages(k, s, l, t), consistent, recheck) == []
  {
    assert G.SearchEntries(G.Entry(l, t, G.End), consistent, recheck) == [];
  }

  /** The tree after a page of four keys above leaf pages was split. */
  ghost function SplitTree(arr: seq<Vsrt>, leaves: seq<seq<seq<byte>>>, left: VarKey, right: VarKey): G.Tree<VarKey, seq<byte>>
    requires |arr| == |leaves| == 4
  {
    TwoPages(left, TwoPages(arr[0].t, Page(leaves[0]), arr[1].t, Page(leaves[1])),
             right, TwoPages(arr[2].t, Page(leaves[2]), arr[3].t, Page(leaves[3])))
  }

  /** The keys are unions of the leaves below them. */
  ghost predicate AreUnions(arr: seq<Vsrt>, leaves: seq<seq<seq<byte>>>) {
    |arr| == |leaves| && forall i :: 0 <= i < |arr| ==> IsUnion(arr[i].t, LeafKeys(leaves[i]))
  }

  /** The example: four keys in order, their leaves, and the hulls of the two halves. */
  ghost predicate Example(arr: seq<Vsrt>, leaves: seq<seq<seq<byte>>>, lh: VarKey, rh: VarKey) {
    && |arr| == |leaves| == 4 && lh == Node([1, 1], [2, 2, 1]) && rh == Node([3, 3, 3], [3, 3, 5])
    && arr[0].t == Node([1, 1], [2, 2]) && leaves[0] == [[1, 1, 9], [2, 2, 2]]
    && arr[1].t == Node([2, 2, 1], [2, 2, 1]) && leaves[1] == [[2, 2, 1]]
    && arr[2].t == Node([3, 3, 3], [3, 3, 3]) && leaves[2] == [[3, 3, 3]]
    && arr[3].t == Node([3, 3, 5], [3, 3, 5]) && leaves[3] == [[3, 3, 5]]
  }

  lemma ExampleUnions(arr: seq<Vsrt>, leaves: seq<seq<seq<byte>>>, lh: VarKey, rh: VarKey)
    requires Example(arr, leaves, lh, rh)
    ensures AreUnions(arr, leaves)
  {
    forall i | 0 <= i < |arr| ensures IsUnion(arr[i].t, LeafKeys(leaves[i])) {
      if i == 0 {
        PairUnion([1, 1, 9], [2, 2, 2], 0, [1, 1], [2, 2]);
      } else {
        SingleUnion(leaves[i][0]);
        assert leaves[i] == [leaves[i][0]];
      }
    }
  }

  lemma ExampleSorted(arr: seq<Vsrt>, leaves: seq<seq<seq<byte>>>, lh: VarKey, rh: VarKey)
    requires Example(arr, leaves, lh, rh)
    ensures Sorted(arr, VsrtLe)
  {
    Parts([1, 1], [2, 2, 1], 0);
    Parts([1, 1], [3, 3, 3], 0);
    Parts([1, 1], [3, 3, 5], 0);
    Parts([2, 2, 1], [3, 3, 3], 0);
    Parts([2, 2, 1], [3, 3, 5], 0);
    Parts([3, 3, 3], [3, 3, 5], 2);
    forall i, j | 0 <= i < j < |arr| ensures VsrtLe(arr[i], arr[j]) {}
  }

  lemma TwoKeyHull(keys: seq<VarKey>, h: VarKey)
    requires |keys| == 2 && Encloses(h, keys[0]) && Encloses(h, keys[1])
    requires keys[0].Lower() == h.Lower() && keys[1].Upper() == h.Upper()
    ensures IsHull(h, keys, 2)
  {}

  lemma ExampleHulls(arr: seq<Vsrt>, leaves: seq<seq<seq<byte>>>, lh: VarKey, rh: VarKey)
    requires Example(arr, leaves, lh, rh)
    ensures IsHull(lh, KeysOf(arr[..2]), 2) && CommonPrefix(lh.Lower(), lh.Upper()) == 0
    ensures IsHull(rh, KeysOf(arr[2..]), 2) && CommonPrefix(rh.Lower(), rh.Upper()) == 2
  {
    Parts([1, 1], [2, 2, 1], 0);
    SelfPrefix([1, 1]);
    SelfPrefix([2, 2, 1]);
    PrefixFirst([2, 2], [2, 2, 1]);
    TwoKeyHull(KeysOf(arr[..2]), lh);
    Parts([3, 3, 3], [3, 3, 5], 2);
    SelfPrefix([3, 3, 3]);
    SelfPrefix([3, 3, 5]);
    TwoKeyHull(KeysOf(arr[2..]), rh);
  }

  lemma ShortCut(k: VarKey, n: nat)
    requires k.Node? && |k.lo| <= n && |k.up| <= n
    ensures CutTo(k, n) == k
  {}

  lemma ExampleMisses(lh: VarKey, rh: VarKey, v: seq<byte>)
    requires lh == Node([1, 1], [2, 2, 1]) && rh == Node([3, 3, 3], [3, 3, 5]) && v == [2, 2, 2]
    ensures !Consistent(lh, v, Equal, false) && !Consistent(rh, v, Equal, false)
  {
    Parts([2, 2, 1], [2, 2, 2], 2);
    Parts([2, 2, 2], [3, 3, 3], 0);
  }

  lemma LostRow(arr: seq<Vsrt>, leaves: seq<seq<seq<byte>>>, left: VarKey, right: VarKey, v: seq<byte>)
    requires |arr| == |leaves| == 4 && |leaves[0]| == 2 && leaves[0][1] == v
    ensures G.Row(Leaf(v), v) in G.Rows(SplitTree(arr, leaves, left, right))
  {
    var r, page := G.Row(Leaf(v), v), Page(leaves[0]);
    assert page.rows[1] == r;
    var s := TwoPages(arr[0].t, page, arr[1].t, Page(leaves[1]));
    FirstPageRows(arr[0].t, page, arr[1].t, Page(leaves[1]), r);
    FirstPageRows(left, s, right, TwoPages(arr[2].t, Page(leaves[2]), arr[3].t, Page(leaves[3])), r);
  }

  /** The row of `v` is in the tree, and a search for it returns nothing. */
  ghost predicate Loses(t: G.Tree<VarKey, seq<byte>>, v: seq<byte>) {
    && G.Row(Leaf(v), v) in G.Rows(t)
    && G.Search(t, (k: VarKey, leaf: bool) => Consistent(k, v, Equal, leaf), (x: seq<byte>) => true) == []
  }

  lemma SplitLoses(arr: seq<Vsrt>, leaves: seq<seq<seq<byte>>>, left: VarKey, right: VarKey, v: seq<byte>)
    requires |arr| == |leaves| == 4 && |leaves[0]| == 2 && leaves[0][1] == v
    requires !Consistent(left, v, Equal, false) && !Consistent(right, v, Equal, false)
    ensures Loses(SplitTree(arr, leaves, left, right), v)
  {
    LostRow(arr, leaves, left, right, v);
    NeitherPage(left, TwoPages(arr[0].t, Page(leaves[0]), arr[1].t, Page(leaves[1])),
                right, TwoPages(arr[2].t, Page(leaves[2]), arr[3].t, Page(leaves[3])),
                (k: VarKey, leaf: bool) => Consistent(k, v, Equal, leaf), (x: seq<byte>) => true);
  }

  lemma ExampleIsSplit(arr: seq<Vsrt>, leaves: seq<seq<seq<byte>>>, lh: VarKey, rh: VarKey)
    requires Example(arr, leaves, lh, rh)
    ensures IsSplit(arr, 2, lh, rh, lh, rh)
  {
    ExampleSorted(arr, leaves, lh, rh);
    ExampleHulls(arr, leaves, lh, rh);
    ShortCut(lh, 4);
    ShortCut(rh, 4);
  }

  lemma ExampleLoses(arr: seq<Vsrt>, leaves: seq<seq<seq<byte>>>, lh: VarKey, rh: VarKey)
    requires Example(arr, leaves, lh, rh)
    ensures Loses(SplitTree(arr, leaves, lh, rh), [2, 2, 2])
  {
    ExampleMisses(lh, rh, leaves[0][1]);
    SplitLoses(arr, leaves, lh, rh, leaves[0][1]);
  }

  lemma MakeExample() returns (arr: seq<Vsrt>, leaves: seq<seq<seq<byte>>>, lh: VarKey, rh: VarKey)
    ensures Example(arr, leaves, lh, rh)
  {
    arr := [Vsrt(1, Node([1, 1], [2, 2])), Vsrt(2, Node([2, 2, 1], [2, 2, 1])),
            Vsrt(3, Node([3, 3, 3], [3, 3, 3])), Vsrt(4, Node([3, 3, 5], [3, 3, 5]))];
    leaves := [[[1, 1, 9], [2, 2, 2]], [[2, 2, 1]], [[3, 3, 3]], [[3, 3, 5]]];
    lh, rh := Node([1, 1], [2, 2, 1]), Node([3, 3, 3], [3, 3, 5]);
  }

  /** A split of an internal page can lose a row: there are four keys, each the union of leaves, and a split of
      them, after which a row is in the tree and a search for it returns nothing. */
  lemma SplitLosesRow() returns (arr: seq<Vsrt>, leaves: seq<seq<seq<byte>>>, lh: VarKey, rh: VarKey, left: VarKey, right: VarKey)
    ensures |arr| == 4 && AreUnions(arr, leaves) && IsSplit(arr, 2, lh, rh, left, right)
    ensures Loses(SplitTree(arr, leaves, left, right), [2, 2, 2])
  {
    arr, leaves, lh, rh := MakeExample();
    left, right := lh, rh;
    ExampleUnions(arr, leaves, lh, rh);
    ExampleIsSplit(arr, leaves, lh, rh);
    ExampleLoses(arr, leaves, lh, rh);
  }
}
