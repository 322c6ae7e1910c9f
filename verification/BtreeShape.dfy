/** The shape of a B-tree held in an address-indexed cache, without its byte layout: every
    node has a level, a key interval and a map (leaf: values, inner: routing entries). */
module BtreeShape {
  import opened Records

  type Addr = nat
  /** Address 0 is never handed out by the cache; here it stands for the root. */
  const ROOT: Addr := 0

  datatype Span = Span(level: nat, lo: nat, hi: nat, m: map<Key, BchVal>)
  type Forest = map<Addr, Span>

  ghost predicate SpanOk(s: Span) {
    && s.lo < s.hi <= KEY_SPACE
    && forall k :: k in s.m ==> s.lo <= k < s.hi
  }

  /** The routing entry k of node a leads to a node one level lower that covers exactly
      the keys from k up to the next routing key, or to the end of a. */
  ghost predicate ChildOk(f: Forest, a: Addr, k: Key)
    requires a in f && k in f[a].m
  {
    var c := f[a].m[k].paddr;
    && c in f && c != ROOT
    && f[c].level + 1 == f[a].level
    && f[c].lo == k
    && f[c].hi <= f[a].hi
    && (f[c].hi == f[a].hi || (f[c].hi < KEY_SPACE && f[c].hi in f[a].m))
    && (forall x :: x in f[a].m ==> x <= k || f[c].hi <= x)
  }

  ghost predicate InnerOk(f: Forest, a: Addr)
    requires a in f
  {
    f[a].level > 0 ==>
      && f[a].lo < KEY_SPACE && f[a].lo in f[a].m
      && forall k {:trigger ChildOk(f, a, k)} :: k in f[a].m ==> ChildOk(f, a, k)
  }

  ghost predicate Apart(s: Span, t: Span) {
    s.level == t.level ==> s.hi <= t.lo || t.hi <= s.lo
  }

  ghost predicate RootOk(f: Forest, depth: nat) {
    ROOT in f && f[ROOT].level == depth && f[ROOT].lo == 0 && f[ROOT].hi == KEY_SPACE
  }

  /** The B-tree invariant. */
  ghost predicate Inv(f: Forest, depth: nat) {
    && RootOk(f, depth)
    && (forall a :: a in f ==> SpanOk(f[a]) && f[a].level <= depth)
    && (forall a :: a in f ==> InnerOk(f, a))
    && (forall a, b :: a in f && b in f && a != b ==> Apart(f[a], f[b]))
  }

  // ---- what the tree holds ----

  ghost predicate Holds(f: Forest, k: Key) {
    exists a :: a in f && f[a].level == 0 && k in f[a].m
  }

  ghost function LeafWith(f: Forest, k: Key): (a: Addr)
    requires Holds(f, k)
    ensures a in f && f[a].level == 0 && k in f[a].m
  {
    var a :| a in f && f[a].level == 0 && k in f[a].m;
    a
  }

  ghost function LeafKeys(f: Forest): set<Key> {
    set a, k | a in f && f[a].level == 0 && k in f[a].m :: k
  }

  /** The key-value map of the tree: the union of its leaves. */
  ghost function Contents(f: Forest): map<Key, BchVal> {
    map k | k in LeafKeys(f) :: f[LeafWith(f, k)].m[k]
  }

  lemma ApartIfDistinct(f: Forest, depth: nat, a: Addr, b: Addr)
    requires Inv(f, depth) && a in f && b in f
    ensures a == b || Apart(f[a], f[b])
  {}

  lemma ContentsAt(f: Forest, depth: nat, a: Addr, k: Key)
    requires Inv(f, depth) && a in f && f[a].level == 0 && f[a].lo <= k < f[a].hi
    ensures k in Contents(f) <==> k in f[a].m
    ensures k in f[a].m ==> Contents(f)[k] == f[a].m[k]
  {
    if k in Contents(f) {
      var b := LeafWith(f, k);
      assert SpanOk(f[b]);
      ApartIfDistinct(f, depth, a, b);
    }
  }

  /** Every key has a leaf: the node covering it on each level down from the root. */
  lemma {:induction false} Covered(f: Forest, depth: nat, level: nat, k: Key)
    requires Inv(f, depth) && level <= depth
    ensures exists a :: a in f && f[a].level == level && f[a].lo <= k < f[a].hi
    decreases depth - level
  {
    if level == depth {
      assert f[ROOT].lo <= k < f[ROOT].hi;
    } else {
      Covered(f, depth, level + 1, k);
      var a :| a in f && f[a].level == level + 1 && f[a].lo <= k < f[a].hi;
      assert InnerOk(f, a) && SpanOk(f[a]);
      var r := FloorKey(f[a].m.Keys, k, f[a].lo);
      ChildCovers(f, depth, a, r, k);
    }
  }

  /** The leaf that covers a key. */
  ghost predicate CoversKey(f: Forest, a: Addr, key: Key) {
    a in f && f[a].level == 0 && f[a].lo <= key < f[a].hi
  }

  lemma CoveredLeaf(f: Forest, depth: nat, k: Key) returns (a: Addr)
    requires Inv(f, depth)
    ensures CoversKey(f, a, k)
  {
    Covered(f, depth, 0, k);
    a :| a in f && f[a].level == 0 && f[a].lo <= k < f[a].hi;
  }

  /** Trees whose leaves for a key say the same about it do so themselves. */
  lemma SameLeaf(f: Forest, depth: nat, a: Addr, g: Forest, depth': nat, b: Addr, k: Key)
    requires Inv(f, depth) && CoversKey(f, a, k) && Inv(g, depth') && CoversKey(g, b, k) && SameAt(g[b].m, f[a].m, k)
    ensures SameAt(Contents(g), Contents(f), k)
  {
    hide Inv, Contents;
    ContentsAt(f, depth, a, k);
    ContentsAt(g, depth', b, k);
  }

  /** The greatest of the keys not above k. */
  lemma {:induction false} FloorKey(s: set<Key>, k: Key, lo: Key) returns (r: Key)
    requires lo in s && lo <= k
    ensures r in s && r <= k
    ensures forall x :: x in s && x <= k ==> x <= r
    decreases |s|
  {
    r := lo;
    if above: Key :| above in s && lo < above <= k {
      r := FloorKey(s - {lo}, k, above);
      forall x | x in s && x <= k ensures x <= r {
        if x != lo { assert x in s - {lo}; }
      }
    }
  }

  /** The child under the greatest routing key not above k covers k. */
  lemma ChildCovers(f: Forest, depth: nat, a: Addr, r: Key, k: Key)
    requires Inv(f, depth) && a in f && f[a].level > 0
    requires f[a].lo <= k < f[a].hi && r in f[a].m && r <= k
    requires forall x :: x in f[a].m && x <= k ==> x <= r
    ensures var c := f[a].m[r].paddr;
            c in f && c != ROOT && f[c].level + 1 == f[a].level && f[c].lo <= k < f[c].hi
  {
    assert InnerOk(f, a) && ChildOk(f, a, r);
    var c := f[a].m[r].paddr;
    assert SpanOk(f[c]);
    var h := f[c].hi;
    assert h == f[a].hi || (h < KEY_SPACE && h in f[a].m);
  }

  /** The routing entry of p that leads to c. */
  ghost predicate Parent(f: Forest, p: Addr, c: Addr) {
    && p in f && c in f && c != ROOT
    && f[p].level == f[c].level + 1
    && f[c].lo < KEY_SPACE && f[c].lo in f[p].m && f[p].m[f[c].lo].paddr == c
  }

  lemma ParentUnique(f: Forest, depth: nat, p: Addr, q: Addr, c: Addr, k: Key)
    requires Inv(f, depth) && Parent(f, p, c)
    requires q in f && f[q].level > 0 && k in f[q].m && f[q].m[k].paddr == c
    ensures q == p && k == f[c].lo
  {
    assert InnerOk(f, q) && ChildOk(f, q, k);
    assert SpanOk(f[p]) && SpanOk(f[q]);
    ApartIfDistinct(f, depth, p, q);
  }

  /** Only the root is on the top level. */
  lemma TopIsRoot(f: Forest, depth: nat, a: Addr)
    requires Inv(f, depth) && a in f && f[a].level == depth
    ensures a == ROOT
  {
    assert SpanOk(f[a]);
    ApartIfDistinct(f, depth, a, ROOT);
  }

  // ---- changing one leaf ----

  ghost predicate WithinSpan(s: Span, m: map<Key, BchVal>) {
    forall k :: k in m ==> s.lo <= k < s.hi
  }

  lemma LeafUpdate(f: Forest, depth: nat, a: Addr, m: map<Key, BchVal>)
    requires Inv(f, depth) && a in f && f[a].level == 0 && WithinSpan(f[a], m)
    ensures Inv(f[a := f[a].(m := m)], depth)
  {
    var g := f[a := f[a].(m := m)];
    forall b | b in g ensures InnerOk(g, b) {
      assert InnerOk(f, b);
      forall k | g[b].level > 0 && k in g[b].m ensures ChildOk(g, b, k) {
        assert ChildOk(f, b, k);
      }
    }
    assert SpanOk(f[a]);
  }

  ghost predicate SameAt(m: map<Key, BchVal>, n: map<Key, BchVal>, k: Key) {
    (k in m <==> k in n) && (k in n ==> m[k] == n[k])
  }

  lemma MapsEqual(m: map<Key, BchVal>, n: map<Key, BchVal>)
    requires forall k: Key :: SameAt(m, n, k)
    ensures m == n
  {
    forall k: Key ensures (k in m <==> k in n) && (k in n ==> m[k] == n[k]) { assert SameAt(m, n, k); }
  }

  ghost predicate SameExcept(m: map<Key, BchVal>, n: map<Key, BchVal>, k: Key) {
    forall x :: x != k ==> (x in m <==> x in n) && (x in n ==> m[x] == n[x])
  }

  function WithKey(m: map<Key, BchVal>, n: map<Key, BchVal>, k: Key): map<Key, BchVal> {
    if k in n then m[k := n[k]] else m - {k}
  }

  lemma LeafUpdateAt(f: Forest, depth: nat, a: Addr, m: map<Key, BchVal>, k: Key, x: Key)
    requires Inv(f, depth) && a in f && f[a].level == 0 && WithinSpan(f[a], m)
    requires f[a].lo <= k < f[a].hi && SameExcept(m, f[a].m, k)
    ensures SameAt(Contents(f[a := f[a].(m := m)]), if x == k then m else Contents(f), x)
  {
    var g := f[a := f[a].(m := m)];
    LeafUpdate(f, depth, a, m);
    Covered(f, depth, 0, x);
    var b :| b in f && f[b].level == 0 && f[b].lo <= x < f[b].hi;
    ApartIfDistinct(f, depth, a, b);
    ContentsAt(f, depth, b, x);
    ContentsAt(g, depth, b, x);
    hide *;
  }

  /** Changing one key in the leaf covering it changes that key of the tree. */
  lemma LeafUpdateContents(f: Forest, depth: nat, a: Addr, m: map<Key, BchVal>, k: Key)
    requires Inv(f, depth) && a in f && f[a].level == 0 && WithinSpan(f[a], m)
    requires f[a].lo <= k < f[a].hi && SameExcept(m, f[a].m, k)
    ensures Contents(f[a := f[a].(m := m)]) == WithKey(Contents(f), m, k)
  {
    var g, r := f[a := f[a].(m := m)], WithKey(Contents(f), m, k);
    forall x: Key ensures SameAt(Contents(g), r, x) {
      LeafUpdateAt(f, depth, a, m, k, x);
    }
    MapsEqual(Contents(g), r);
  }

  // ---- splitting a node and linking its new right half ----

  function SplitLinked(f: Forest, p: Addr, a: Addr, med: Key, b: Addr): Forest
    requires a in f && p in f
  {
    f[a := Span(f[a].level, f[a].lo, med, Below(f[a].m, med))]
     [b := Span(f[a].level, med, f[a].hi, From(f[a].m, med))]
     [p := f[p].(m := f[p].m[med := BchVal(b, 0)])]
  }

  ghost predicate CanSplit(f: Forest, p: Addr, a: Addr, med: Key, b: Addr) {
    && Parent(f, p, a) && b !in f && b != ROOT
    && f[a].lo < med < f[a].hi
    && (f[a].level > 0 ==> med in f[a].m)
  }

  lemma SplitSpans(f: Forest, depth: nat, p: Addr, a: Addr, med: Key, b: Addr)
    requires Inv(f, depth) && CanSplit(f, p, a, med, b)
    ensures var g := SplitLinked(f, p, a, med, b);
            RootOk(g, depth) && forall x :: x in g ==> SpanOk(g[x]) && g[x].level <= depth
  {
    var ka: Key := f[a].lo;
    assert SpanOk(f[a]) && SpanOk(f[p]) && InnerOk(f, p) && ChildOk(f, p, ka);
  }

  lemma SplitApart(f: Forest, depth: nat, p: Addr, a: Addr, med: Key, b: Addr)
    requires Inv(f, depth) && CanSplit(f, p, a, med, b)
    ensures var g := SplitLinked(f, p, a, med, b);
            forall x, y :: x in g && y in g && x != y ==> Apart(g[x], g[y])
  {
    var g := SplitLinked(f, p, a, med, b);
    forall x, y | x in g && y in g && x != y ensures Apart(g[x], g[y]) {
      assert x == b || y == b || Apart(f[x], f[y]);
      assert y == b || y == a || Apart(f[a], f[y]);
      assert x == b || x == a || Apart(f[a], f[x]);
    }
  }

  /** Neither a, b nor p: routing entries keep leading to unchanged intervals. */
  lemma SplitOther(f: Forest, depth: nat, p: Addr, a: Addr, med: Key, b: Addr, x: Addr)
    requires Inv(f, depth) && CanSplit(f, p, a, med, b) && x in f && x != a && x != p
    ensures InnerOk(SplitLinked(f, p, a, med, b), x)
  {
    var g := SplitLinked(f, p, a, med, b);
    assert InnerOk(f, x);
    forall k | g[x].level > 0 && k in g[x].m ensures ChildOk(g, x, k) {
      assert ChildOk(f, x, k);
      if f[x].m[k].paddr == a { ParentUnique(f, depth, p, x, a, k); }
    }
  }

  lemma SplitParent(f: Forest, depth: nat, p: Addr, a: Addr, med: Key, b: Addr)
    requires Inv(f, depth) && CanSplit(f, p, a, med, b)
    ensures InnerOk(SplitLinked(f, p, a, med, b), p)
  {
    var g := SplitLinked(f, p, a, med, b);
    assert InnerOk(f, p);
    var ka: Key := f[a].lo;
    assert ChildOk(f, p, ka);
    forall k | k in g[p].m ensures ChildOk(g, p, k) {
      if k == med || k == ka {
      } else {
        assert ChildOk(f, p, k);
        var c := f[p].m[k].paddr;
        assert Apart(f[a], f[c]);
      }
    }
  }

  lemma SplitHalves(f: Forest, depth: nat, p: Addr, a: Addr, med: Key, b: Addr)
    requires Inv(f, depth) && CanSplit(f, p, a, med, b)
    ensures InnerOk(SplitLinked(f, p, a, med, b), a)
    ensures InnerOk(SplitLinked(f, p, a, med, b), b)
  {
    var g := SplitLinked(f, p, a, med, b);
    assert InnerOk(f, a);
    forall k | f[a].level > 0 && k in g[a].m ensures ChildOk(g, a, k) {
      assert ChildOk(f, a, k);
    }
    forall k | f[a].level > 0 && k in g[b].m ensures ChildOk(g, b, k) {
      assert ChildOk(f, a, k);
    }
  }

  lemma SplitKeepsInv(f: Forest, depth: nat, p: Addr, a: Addr, med: Key, b: Addr)
    requires Inv(f, depth) && CanSplit(f, p, a, med, b)
    ensures Inv(SplitLinked(f, p, a, med, b), depth)
  {
    var g := SplitLinked(f, p, a, med, b);
    SplitSpans(f, depth, p, a, med, b);
    SplitApart(f, depth, p, a, med, b);
    forall x | x in g ensures InnerOk(g, x) {
      if x == p { SplitParent(f, depth, p, a, med, b); }
      else if x == a || x == b { SplitHalves(f, depth, p, a, med, b); }
      else { SplitOther(f, depth, p, a, med, b, x); }
    }
  }

  lemma SplitLeaf(f: Forest, depth: nat, p: Addr, a: Addr, med: Key, b: Addr, c: Addr, q: Key)
    requires Inv(f, depth) && CanSplit(f, p, a, med, b) && CoversKey(f, c, q)
    ensures var g, d := SplitLinked(f, p, a, med, b), if c == a && q >= med then b else c;
            CoversKey(g, d, q) && SameAt(g[d].m, f[c].m, q)
  {
    hide Inv;
  }

  lemma SplitKeepsContentsAt(f: Forest, depth: nat, p: Addr, a: Addr, med: Key, b: Addr, q: Key)
    requires Inv(f, depth) && CanSplit(f, p, a, med, b)
    ensures SameAt(Contents(SplitLinked(f, p, a, med, b)), Contents(f), q)
  {
    hide Inv, SplitLinked, Contents, SameAt, CoversKey;
    SplitKeepsInv(f, depth, p, a, med, b);
    var c := CoveredLeaf(f, depth, q);
    SplitLeaf(f, depth, p, a, med, b, c, q);
    SameLeaf(f, depth, c, SplitLinked(f, p, a, med, b), depth, if c == a && q >= med then b else c, q);
  }

  lemma SplitKeepsContents(f: Forest, depth: nat, p: Addr, a: Addr, med: Key, b: Addr)
    requires Inv(f, depth) && CanSplit(f, p, a, med, b)
    ensures Contents(SplitLinked(f, p, a, med, b)) == Contents(f)
  {
    var g := SplitLinked(f, p, a, med, b);
    forall q: Key ensures SameAt(Contents(g), Contents(f), q) {
      SplitKeepsContentsAt(f, depth, p, a, med, b, q);
    }
    MapsEqual(Contents(g), Contents(f));
  }

  // ---- splitting the root ----

  function Grown(f: Forest, depth: nat, med: Key, l: Addr, r: Addr): Forest
    requires ROOT in f
  {
    f[l := Span(depth, 0, med, Below(f[ROOT].m, med))]
     [r := Span(depth, med, KEY_SPACE, From(f[ROOT].m, med))]
     [ROOT := Span(depth + 1, 0, KEY_SPACE, map[MIN_KEY := BchVal(l, 0), med := BchVal(r, 0)])]
  }

  ghost predicate CanGrow(f: Forest, depth: nat, med: Key, l: Addr, r: Addr) {
    && ROOT in f && l !in f && r !in f && l != r && l != ROOT && r != ROOT
    && 0 < med
    && (depth > 0 ==> med in f[ROOT].m)
  }

  lemma GrowInner(f: Forest, depth: nat, med: Key, l: Addr, r: Addr, x: Addr)
    requires Inv(f, depth) && CanGrow(f, depth, med, l, r) && x in Grown(f, depth, med, l, r)
    ensures InnerOk(Grown(f, depth, med, l, r), x)
  {
    var g := Grown(f, depth, med, l, r);
    if x == ROOT {
      forall k | k in g[x].m ensures ChildOk(g, x, k) {}
    } else {
      var o := if x == l || x == r then ROOT else x;
      assert InnerOk(f, o);
      forall k | g[x].level > 0 && k in g[x].m ensures ChildOk(g, x, k) {
        assert ChildOk(f, o, k);
      }
    }
  }

  lemma GrowKeepsInv(f: Forest, depth: nat, med: Key, l: Addr, r: Addr)
    requires Inv(f, depth) && CanGrow(f, depth, med, l, r)
    ensures Inv(Grown(f, depth, med, l, r), depth + 1)
  {
    var g := Grown(f, depth, med, l, r);
    assert SpanOk(f[ROOT]);
    forall x | x in g ensures SpanOk(g[x]) && g[x].level <= depth + 1 {}
    forall x | x in g ensures InnerOk(g, x) { GrowInner(f, depth, med, l, r, x); }
    forall x, y | x in g && y in g && x != y ensures Apart(g[x], g[y]) {
      if x in f && x != ROOT { assert Apart(f[x], f[ROOT]); }
      if y in f && y != ROOT { assert Apart(f[y], f[ROOT]); }
      assert x !in f || y !in f || Apart(f[x], f[y]);
      if x in f && x != ROOT && f[x].level == depth { TopIsRoot(f, depth, x); }
      if y in f && y != ROOT && f[y].level == depth { TopIsRoot(f, depth, y); }
    }
  }

  lemma GrowLeaf(f: Forest, depth: nat, med: Key, l: Addr, r: Addr, c: Addr, q: Key)
    requires Inv(f, depth) && CanGrow(f, depth, med, l, r) && CoversKey(f, c, q)
    ensures var g, d := Grown(f, depth, med, l, r), if c != ROOT then c else if q < med then l else r;
            CoversKey(g, d, q) && SameAt(g[d].m, f[c].m, q)
  {}

  lemma GrowKeepsContentsAt(f: Forest, depth: nat, med: Key, l: Addr, r: Addr, q: Key)
    requires Inv(f, depth) && CanGrow(f, depth, med, l, r)
    ensures SameAt(Contents(Grown(f, depth, med, l, r)), Contents(f), q)
  {
    hide Inv, Grown, Contents, SameAt, CoversKey;
    GrowKeepsInv(f, depth, med, l, r);
    var c := CoveredLeaf(f, depth, q);
    GrowLeaf(f, depth, med, l, r, c, q);
    SameLeaf(f, depth, c, Grown(f, depth, med, l, r), depth + 1, if c != ROOT then c else if q < med then l else r, q);
  }

  lemma GrowKeepsContents(f: Forest, depth: nat, med: Key, l: Addr, r: Addr)
    requires Inv(f, depth) && CanGrow(f, depth, med, l, r)
    ensures Contents(Grown(f, depth, med, l, r)) == Contents(f)
  {
    var g := Grown(f, depth, med, l, r);
    forall q: Key ensures SameAt(Contents(g), Contents(f), q) {
      GrowKeepsContentsAt(f, depth, med, l, r, q);
    }
    MapsEqual(Contents(g), Contents(f));
  }

  // ---- merging two neighbours ----

  /** x and y are neighbours under p; s is the one of them that survives, t the other. */
  ghost predicate CanMerge(f: Forest, p: Addr, x: Addr, y: Addr, s: Addr, t: Addr) {
    && Parent(f, p, x) && Parent(f, p, y) && x != y && f[x].hi == f[y].lo
    && ((s == x && t == y) || (s == y && t == x))
  }

  /** The survivor covers both intervals and is routed to by the smaller of the two keys. */
  function Merged(f: Forest, p: Addr, x: Addr, y: Addr, s: Addr, t: Addr): Forest
    requires p in f && x in f && y in f && f[x].lo < KEY_SPACE && f[y].lo < KEY_SPACE
  {
    var kx: Key, ky: Key := f[x].lo, f[y].lo;
    (f - {t})[s := Span(f[x].level, f[x].lo, f[y].hi, f[x].m + f[y].m)]
             [p := f[p].(m := (f[p].m - {kx, ky})[kx := BchVal(s, 0)])]
  }

  lemma MergeFacts(f: Forest, depth: nat, p: Addr, x: Addr, y: Addr, s: Addr, t: Addr)
    requires Inv(f, depth) && CanMerge(f, p, x, y, s, t)
    ensures SpanOk(f[x]) && SpanOk(f[y]) && f[x].hi == f[y].lo && f[y].hi <= f[p].hi && f[p].lo <= f[x].lo
    ensures p != x && p != y && f[x].level == f[y].level
    ensures forall k :: k in f[p].m ==> k <= f[x].lo || k == f[y].lo || f[y].hi <= k
    ensures f[y].hi == f[p].hi || (f[y].hi < KEY_SPACE && f[y].hi in f[p].m)
  {
    var kx: Key, ky: Key := f[x].lo, f[y].lo;
    assert InnerOk(f, p) && ChildOk(f, p, kx) && ChildOk(f, p, ky);
    assert SpanOk(f[x]) && SpanOk(f[y]) && SpanOk(f[p]);
  }

  lemma MergeSpans(f: Forest, depth: nat, p: Addr, x: Addr, y: Addr, s: Addr, t: Addr)
    requires Inv(f, depth) && CanMerge(f, p, x, y, s, t)
    ensures var g := Merged(f, p, x, y, s, t);
            RootOk(g, depth) && forall z :: z in g ==> SpanOk(g[z]) && g[z].level <= depth
  {
    MergeFacts(f, depth, p, x, y, s, t);
    assert SpanOk(f[x]) && SpanOk(f[y]) && SpanOk(f[p]);
  }

  lemma MergeApart(f: Forest, depth: nat, p: Addr, x: Addr, y: Addr, s: Addr, t: Addr)
    requires Inv(f, depth) && CanMerge(f, p, x, y, s, t)
    ensures var g := Merged(f, p, x, y, s, t);
            forall u, v :: u in g && v in g && u != v ==> Apart(g[u], g[v])
  {
    var g := Merged(f, p, x, y, s, t);
    MergeFacts(f, depth, p, x, y, s, t);
    forall u, v | u in g && v in g && u != v ensures Apart(g[u], g[v]) {
      assert Apart(f[u], f[v]);
      if u == s && v != p { MergeApartOne(f, depth, p, x, y, s, t, v); }
      if v == s && u != p { MergeApartOne(f, depth, p, x, y, s, t, u); }
    }
  }

  lemma MergeApartOne(f: Forest, depth: nat, p: Addr, x: Addr, y: Addr, s: Addr, t: Addr, v: Addr)
    requires Inv(f, depth) && CanMerge(f, p, x, y, s, t) && v in f && v != x && v != y
    ensures f[v].level == f[x].level ==> f[v].hi <= f[x].lo || f[y].hi <= f[v].lo
  {
    MergeFacts(f, depth, p, x, y, s, t);
    assert SpanOk(f[v]);
    assert Apart(f[x], f[v]) && Apart(f[y], f[v]);
  }

  lemma MergeOther(f: Forest, depth: nat, p: Addr, x: Addr, y: Addr, s: Addr, t: Addr, z: Addr)
    requires Inv(f, depth) && CanMerge(f, p, x, y, s, t) && z in f && z != p && z != x && z != y
    ensures InnerOk(Merged(f, p, x, y, s, t), z)
  {
    var g := Merged(f, p, x, y, s, t);
    assert InnerOk(f, z);
    forall k | g[z].level > 0 && k in g[z].m ensures ChildOk(g, z, k) {
      assert ChildOk(f, z, k);
      var c := f[z].m[k].paddr;
      if c == x { ParentUnique(f, depth, p, z, x, k); }
      if c == y { ParentUnique(f, depth, p, z, y, k); }
    }
  }

  lemma MergeParent(f: Forest, depth: nat, p: Addr, x: Addr, y: Addr, s: Addr, t: Addr)
    requires Inv(f, depth) && CanMerge(f, p, x, y, s, t)
    ensures InnerOk(Merged(f, p, x, y, s, t), p)
  {
    var g := Merged(f, p, x, y, s, t);
    MergeFacts(f, depth, p, x, y, s, t);
    assert InnerOk(f, p);
    forall k | k in g[p].m ensures ChildOk(g, p, k) {
      if k != f[x].lo {
        assert ChildOk(f, p, k);
        var c := f[p].m[k].paddr;
        assert c != x && c != y;
        assert Apart(f[y], f[c]) && SpanOk(f[c]);
      }
    }
  }

  lemma MergeSurvivor(f: Forest, depth: nat, p: Addr, x: Addr, y: Addr, s: Addr, t: Addr)
    requires Inv(f, depth) && CanMerge(f, p, x, y, s, t)
    ensures InnerOk(Merged(f, p, x, y, s, t), s)
  {
    hide Inv;
    var g := Merged(f, p, x, y, s, t);
    MergeFacts(f, depth, p, x, y, s, t);
    HalvesInner(f, depth, p, x, y);
    forall k | g[s].level > 0 && k in g[s].m ensures ChildOk(g, s, k) {
      if k in f[y].m { assert ChildOk(f, y, k); } else { assert ChildOk(f, x, k); }
    }
  }

  lemma HalvesInner(f: Forest, depth: nat, p: Addr, x: Addr, y: Addr)
    requires Inv(f, depth) && Parent(f, p, x) && Parent(f, p, y)
    ensures InnerOk(f, x) && InnerOk(f, y)
  {}

  lemma MergeKeepsInv(f: Forest, depth: nat, p: Addr, x: Addr, y: Addr, s: Addr, t: Addr)
    requires Inv(f, depth) && CanMerge(f, p, x, y, s, t)
    ensures Inv(Merged(f, p, x, y, s, t), depth)
  {
    var g := Merged(f, p, x, y, s, t);
    MergeSpans(f, depth, p, x, y, s, t);
    MergeApart(f, depth, p, x, y, s, t);
    forall z | z in g ensures InnerOk(g, z) {
      if z == p { MergeParent(f, depth, p, x, y, s, t); }
      else if z == s { MergeSurvivor(f, depth, p, x, y, s, t); }
      else { MergeOther(f, depth, p, x, y, s, t, z); }
    }
  }

  lemma MergeLeaf(f: Forest, depth: nat, p: Addr, x: Addr, y: Addr, s: Addr, t: Addr, c: Addr, q: Key)
    requires Inv(f, depth) && CanMerge(f, p, x, y, s, t) && CoversKey(f, c, q)
    ensures var g, d := Merged(f, p, x, y, s, t), if c == t then s else c;
            CoversKey(g, d, q) && SameAt(g[d].m, f[c].m, q)
  {
    hide Inv;
    MergeFacts(f, depth, p, x, y, s, t);
  }

  lemma MergeKeepsContentsAt(f: Forest, depth: nat, p: Addr, x: Addr, y: Addr, s: Addr, t: Addr, q: Key)
    requires Inv(f, depth) && CanMerge(f, p, x, y, s, t)
    ensures SameAt(Contents(Merged(f, p, x, y, s, t)), Contents(f), q)
  {
    hide Inv, Merged, Contents, SameAt, CoversKey;
    MergeKeepsInv(f, depth, p, x, y, s, t);
    MergeFacts(f, depth, p, x, y, s, t);
    var c := CoveredLeaf(f, depth, q);
    MergeLeaf(f, depth, p, x, y, s, t, c, q);
    SameLeaf(f, depth, c, Merged(f, p, x, y, s, t), depth, if c == t then s else c, q);
  }

  lemma MergeKeepsContents(f: Forest, depth: nat, p: Addr, x: Addr, y: Addr, s: Addr, t: Addr)
    requires Inv(f, depth) && CanMerge(f, p, x, y, s, t)
    ensures Contents(Merged(f, p, x, y, s, t)) == Contents(f)
  {
    var g := Merged(f, p, x, y, s, t);
    forall q: Key ensures SameAt(Contents(g), Contents(f), q) {
      MergeKeepsContentsAt(f, depth, p, x, y, s, t, q);
    }
    MapsEqual(Contents(g), Contents(f));
  }

  // ---- lifting the only child into the root ----

  ghost predicate CanCollapse(f: Forest, depth: nat, c: Addr) {
    depth > 0 && ROOT in f && f[ROOT].m.Keys == {MIN_KEY} && f[ROOT].m[MIN_KEY].paddr == c
  }

  function Collapsed(f: Forest, c: Addr): Forest
    requires c in f
  {
    (f - {c})[ROOT := f[c]]
  }

  lemma CollapseFacts(f: Forest, depth: nat, c: Addr)
    requires Inv(f, depth) && CanCollapse(f, depth, c)
    ensures c in f && c != ROOT && f[ROOT].level == depth && f[c].level == depth - 1 && f[c].lo == 0 &&
            f[c].hi == KEY_SPACE
    ensures forall x :: x in f && x != c && x != ROOT ==> f[x].level < depth - 1
  {
    assert InnerOk(f, ROOT) && ChildOk(f, ROOT, MIN_KEY);
    forall x | x in f && x != c && x != ROOT ensures f[x].level < depth - 1 {
      assert Apart(f[x], f[c]) && Apart(f[x], f[ROOT]) && SpanOk(f[x]);
    }
  }

  lemma CollapseKeepsInv(f: Forest, depth: nat, c: Addr)
    requires Inv(f, depth) && CanCollapse(f, depth, c)
    ensures c in f && Inv(Collapsed(f, c), depth - 1)
  {
    CollapseFacts(f, depth, c);
    var g := Collapsed(f, c);
    forall x | x in g ensures SpanOk(g[x]) && g[x].level <= depth - 1 { assert SpanOk(f[c]); }
    forall x | x in g ensures InnerOk(g, x) {
      var o := if x == ROOT then c else x;
      assert InnerOk(f, o);
      forall k | g[x].level > 0 && k in g[x].m ensures ChildOk(g, x, k) {
        assert ChildOk(f, o, k);
      }
    }
    forall x, y | x in g && y in g && x != y ensures Apart(g[x], g[y]) {
      assert Apart(f[x], f[y]);
    }
  }

  lemma CollapseKeepsContentsAt(f: Forest, depth: nat, c: Addr, q: Key)
    requires Inv(f, depth) && CanCollapse(f, depth, c)
    ensures c in f && SameAt(Contents(Collapsed(f, c)), Contents(f), q)
  {
    hide Inv, Contents;
    CollapseFacts(f, depth, c);
    CollapseKeepsInv(f, depth, c);
    var a := CoveredLeaf(f, depth, q);
    SameLeaf(f, depth, a, Collapsed(f, c), depth - 1, if a == c then ROOT else a, q);
  }

  lemma CollapseKeepsContents(f: Forest, depth: nat, c: Addr)
    requires Inv(f, depth) && CanCollapse(f, depth, c)
    ensures c in f && Contents(Collapsed(f, c)) == Contents(f)
  {
    CollapseFacts(f, depth, c);
    var g := Collapsed(f, c);
    forall q: Key ensures SameAt(Contents(g), Contents(f), q) {
      CollapseKeepsContentsAt(f, depth, c, q);
    }
    MapsEqual(Contents(g), Contents(f));
  }
}
