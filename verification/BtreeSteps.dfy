/** Nodes and shape together: what each step of an insert or a delete does to the nodes by
    address, and that they still carry what the shape says. */
module BtreeSteps {
  import opened Wrappers
  import opened Numbers
  import opened Records
  import opened BtreeNodes
  import opened BtreeShape
  import opened Routing

  /** A node carries what its span says; routing nodes hold one live record per key. */
  ghost predicate Matches(n: Node, s: Span, size: nat) {
    && n.Wf() && n.Counted() && n.size == size && n.level == s.level
    && n.Map() == s.m
    && (s.level == 0 ==> Within(n.All(), s.lo, s.hi))
    && (s.level > 0 ==> Clean(n.All()) && n.keyCount == |n.All()|)
  }

  /** A node that still lacks one entry of its span's map. */
  ghost predicate Lacks(n: Node, s: Span, size: nat, k: Key, v: BchVal) {
    && n.Wf() && n.Counted() && n.size == size && n.level == s.level
    && n.Map()[k := v] == s.m
    && (s.level == 0 ==> Within(n.All(), s.lo, s.hi) && s.lo <= k < s.hi)
    && (s.level > 0 ==> Clean(n.All()) && n.keyCount == |n.All()| && k !in n.Map())
  }

  /** The node in which a key of the span's map is found by position. */
  lemma ChildForMap(rs: seq<Rec>, target: Key, lo: Key, i: nat)
    requires Clean(rs) && IsChildFor(rs, target, i) && lo in View(rs) && lo <= target
    ensures var m := View(rs);
            && rs[i].key in m && m[rs[i].key] == rs[i].val && rs[i].key <= target
            && forall x :: x in m && x <= target ==> x <= rs[i].key
  {
    CleanView(rs);
    var j :| 0 <= j < |rs| && rs[j].key == lo;
    assert rs[j] in rs;
    forall x | x in View(rs) && x <= target ensures x <= rs[i].key {
      var h :| 0 <= h < |rs| && rs[h].key == x;
      assert rs[h] in rs;
    }
  }

  /** Adding an entry to a node that has room gives it the missing key. */
  method AddEntry(n: Node, k: Key, v: BchVal, ghost s: Span) returns (ok: bool, n': Node)
    requires Lacks(n, s, n.size, k, v)
    ensures ok <==> n.Fits()
    ensures ok ==> Matches(n', s, n.size) && n'.All() == n.All() + [Rec(k, Normal, v)]
    ensures ok ==> Appended(n, n', Rec(k, Normal, v))
    ensures !ok ==> Lacks(n', s, n.size, k, v) && n'.All() == n.All()
  {
    ok, n' := Insert(n, k, v);
    if ok {
      ViewAppend(n.All(), Rec(k, Normal, v));
      if s.level > 0 { CleanAppend(n.All(), Rec(k, Normal, v)); }
    }
  }

  lemma CleanAppend(rs: seq<Rec>, r: Rec)
    requires Clean(rs) && r.kind.Normal? && r.key !in View(rs)
    ensures Clean(rs + [r])
  {
    CleanView(rs);
  }

  lemma CompactLacks(n: Node, n': Node, s: Span, k: Key, v: BchVal)
    requires Lacks(n, s, n.size, k, v)
    requires n'.Wf() && n'.size == n.size && n'.level == n.level
    requires n'.Counted() && n'.All() == Compacted(n.All()) && n'.keyCount == |n'.All()|
    ensures Lacks(n', s, n.size, k, v) && Clean(n'.All())
  {
    CompactMembers(n.All());
    CompactKeepsView(n.All());
  }

  /** A node without room for one more entry holds at least two keys. */
  lemma FullHasTwo(n: Node)
    requires n.Wf() && n.s1 == EMPTY_SET && n.s2 == EMPTY_SET && !n.CompactFits()
    ensures |n.All()| >= 2
  {
    assert n.s0.Limit() <= 57 * |n.s0.recs|;
    assert RoundUp8(57) == 64;
    assert RoundUp8(0) == 0;
    assert RoundUp8(32) == 32;
  }

  /** Both halves of a cut node, one of them extended by the missing entry, carry the two
      halves of the span's map. */
  lemma HalvesMatch(n: Node, s: Span, k: Key, v: BchVal, med: Key)
    requires n.Map()[k := v] == s.m
    ensures k < med ==> Below(n.Map(), med)[k := v] == Below(s.m, med) && From(n.Map(), med) == From(s.m, med)
    ensures k >= med ==> Below(n.Map(), med) == Below(s.m, med) && From(n.Map(), med)[k := v] == From(s.m, med)
  {}

  /** A node was cut where nodes are cut, and the missing entry put into its half. */
  ghost predicate CutInto(n: Node, k: Key, v: BchVal, mid: nat, left: Node, right: Node) {
    var live, e := Compacted(n.All()), [Rec(k, Normal, v)];
    && 1 <= mid < |live| && |live| / 5 <= mid <= |live| - |live| / 5 && CutAt(live, mid)
    && left.All() == live[..mid] + (if k < live[mid].key then e else [])
    && right.All() == live[mid..] + (if k < live[mid].key then [] else e)
  }

  /** Cuts a node that lacks an entry and puts the entry into the half it belongs to. */
  method SplitAndAdd(n: Node, k: Key, v: BchVal, ghost s: Span)
    returns (median: Option<Key>, left: Node, right: Node, ghost mid: nat)
    requires Lacks(n, s, n.size, k, v)
    ensures median.None? <==> |n.Map()| < 2
    ensures median.None? ==> left == n
    ensures median.Some? ==> CutInto(n, k, v, mid, left, right) && median.value == Compacted(n.All())[mid].key
    ensures median.Some? ==>
              && median.value in n.Map() && (exists x :: x in n.Map() && x < median.value)
              && Matches(left, Span(s.level, s.lo, median.value, Below(s.m, median.value)), n.size)
              && Matches(right, Span(s.level, median.value, s.hi, From(s.m, median.value)), n.size)
  {
    hide CutAt, CutInto, Strict, View, Compacted, SplitAt;
    mid := 0;
    median, left, right := Split(n);
    if median.None? { return; }
    var med := median.value;
    mid :| SplitAt(n, mid, med, left, right);
    SplitSized(n, mid, med, left, right);
    right := right.(size := n.size);
    ghost var l, r := left, right;
    SplitMeaning(n, mid, med, left, right);
    if s.level == 0 { SplitWithin(n, mid, med, left, right, s.lo, s.hi); }
    HalvesMatch(n, s, k, v, med);
    ghost var x :| x in left.Map();
    assert x in n.Map() && x < med;
    ghost var sl := Span(s.level, s.lo, med, Below(s.m, med));
    ghost var sr := Span(s.level, med, s.hi, From(s.m, med));
    var ok;
    if k >= med {
      assert Lacks(right, sr, n.size, k, v);
      ok, right := AddEntry(right, k, v, sr);
    } else {
      assert Lacks(left, sl, n.size, k, v);
      ok, left := AddEntry(left, k, v, sl);
    }
    CutIntoIs(n, k, v, mid, med, l, r, left, right);
  }

  lemma SplitSized(n: Node, mid: nat, med: Key, left: Node, right: Node)
    requires SplitAt(n, mid, med, left, right)
    ensures SplitAt(n, mid, med, left, right.(size := n.size))
  {}

  lemma CutIntoIs(n: Node, k: Key, v: BchVal, mid: nat, med: Key, l: Node, r: Node, left: Node, right: Node)
    requires SplitAt(n, mid, med, l, r)
    requires left.All() == l.All() + (if k < med then [Rec(k, Normal, v)] else [])
    requires right.All() == r.All() + (if k < med then [] else [Rec(k, Normal, v)])
    ensures CutInto(n, k, v, mid, left, right) && med == Compacted(n.All())[mid].key
  {
    hide CutAt, Compacted;
  }

  /** A node takes one more record: if it has room, or has it once it is compacted. The search
      array that compaction makes may stand in the way, unless it may be given up. */
  ghost predicate Takes(n: Node, keepAux: bool) {
    var live := |n.Map()|;
    || n.Fits()
    || (if keepAux && 0 < live && 57 * live <= n.size then RoundUp8(57 * live) else 32 * live) + 32 <= n.size
  }

  lemma FitsTakes(n: Node, keepAux: bool)
    ensures n.Fits() ==> Takes(n, keepAux)
  {}

  lemma TakesIs(n: Node, c: Node, keepAux: bool)
    requires n.Laid() && !n.Fits() && c.Wf() && c.size == n.size && c.s1 == EMPTY_SET && c.s2 == EMPTY_SET
    requires c.All() == Compacted(n.All()) && (c.s0.aux <==> c.All() != [] && 57 * |c.All()| <= n.size)
    ensures Takes(n, keepAux) <==> if keepAux then c.CompactFits() else c.Fits()
  {
    hide Compacted, View, RoundUp8, Strict, Node.FreeStart, Node.Wf, Node.Laid;
    CompactKeepsView(n.All());
    OneRunStart(c);
  }

  /** Where a single run ends, with and without its search array. */
  lemma OneRunStart(c: Node)
    requires c.Wf() && c.s1 == EMPTY_SET && c.s2 == EMPTY_SET
    ensures var l := |c.All()|;
            c.FreeStart() == (if c.s0.aux then RoundUp8(57 * l) else 32 * l) && c.DropAux().FreeStart() == 32 * l
  {
    hide RoundUp8, Strict;
    var l := |c.s0.recs|;
    assert c.All() == c.s0.recs;
    UpTo8(32 * l, 32 * l);
    assert Max(c.s0.Limit(), Max(c.s1.Limit(), c.s2.Limit())) == if c.s0.aux then 57 * l else 32 * l;
  }

  /** The record was put behind the others, or behind what compaction left of them. */
  ghost predicate Added(n: Node, k: Key, v: BchVal, n': Node) {
    n'.All() == (if n.Fits() then n.All() else Compacted(n.All())) + [Rec(k, Normal, v)]
  }

  // ---- nodes by address ----


  ghost predicate MatchAt(nodes: Nodes, f: Forest, size: nat, a: Addr) {
    a in nodes && a in f && Matches(nodes[a], f[a], size)
  }

  /** The nodes are exactly those of the shape, and each carries what its span says. */
  ghost predicate Good(nodes: Nodes, f: Forest, depth: nat, size: nat) {
    && nodes.Keys == f.Keys && Inv(f, depth)
    && forall a {:trigger MatchAt(nodes, f, size, a)} :: a in f ==> MatchAt(nodes, f, size, a)
  }

  /** Good but for node p, which still lacks entry k of its map. */
  ghost predicate GoodBut(nodes: Nodes, f: Forest, depth: nat, size: nat, p: Addr, k: Key, v: BchVal) {
    && nodes.Keys == f.Keys && Inv(f, depth)
    && p in f && Lacks(nodes[p], f[p], size, k, v)
    && forall a {:trigger MatchAt(nodes, f, size, a)} :: a in f && a != p ==> MatchAt(nodes, f, size, a)
  }

  /** One step of a descent: the child, and the interval it covers. */
  method ChildOf(n: Node, target: Key, ghost f: Forest, ghost depth: nat, ghost a: Addr) returns (c: Addr)
    requires Inv(f, depth) && a in f && f[a].level > 0 && Matches(n, f[a], n.size)
    requires f[a].lo <= target < f[a].hi
    ensures Parent(f, a, c) && f[c].lo <= target < f[c].hi
  {
    hide Inv, InnerOk, ChildOk, View, Strict, Within, IsChildFor;
    InnerFacts(f, depth, a);
    CleanView(n.All());
    var idx;
    c, idx := FindChildNode(n, target);
    ghost var lo: Key := f[a].lo;
    assert idx - 1 < |n.All()| by { ChildInRange(n.All(), target, idx - 1); }
    ChildForMap(n.All(), target, lo, idx - 1);
    ChildCovers(f, depth, a, n.All()[idx - 1].key, target);
    SiblingIsChild(f, depth, a, n.All()[idx - 1].key);
  }

  lemma InnerFacts(f: Forest, depth: nat, a: Addr)
    requires Inv(f, depth) && a in f && f[a].level > 0
    ensures f[a].lo < KEY_SPACE && f[a].lo in f[a].m
  {
    assert InnerOk(f, a);
  }

  /** From the root down: every node is a child of the one before it. */
  ghost predicate IsPath(f: Forest, path: seq<Addr>) {
    forall i {:trigger Step(f, path, i)} :: 0 <= i < |path| ==> Step(f, path, i)
  }

  ghost predicate Step(f: Forest, path: seq<Addr>, i: nat)
    requires i < |path|
  {
    Parent(f, if i == 0 then ROOT else path[i - 1], path[i])
  }

  /** The parent of a node given the inner nodes above it. */
  function Last(path: seq<Addr>): Addr {
    if path == [] then ROOT else path[|path| - 1]
  }

  lemma PathExtend(f: Forest, path: seq<Addr>, c: Addr)
    requires IsPath(f, path) && Parent(f, Last(path), c)
    ensures IsPath(f, path + [c]) && Last(path + [c]) == c
  {
    var q := path + [c];
    forall i | 0 <= i < |q| ensures Step(f, q, i) {
      if i < |path| { assert Step(f, path, i); }
    }
  }

  /** A node and its span that both stay as they are stay matched. */
  lemma Carry(nodes: Nodes, f: Forest, nodes': Nodes, g: Forest, size: nat, x: Addr)
    requires MatchAt(nodes, f, size, x)
    requires x in nodes' && x in g && nodes'[x] == nodes[x] && g[x] == f[x]
    ensures MatchAt(nodes', g, size, x)
  {}

  lemma PendLeaf(nodes: Nodes, f: Forest, depth: nat, size: nat, a: Addr, k: Key, v: BchVal)
    requires Good(nodes, f, depth, size) && a in f && f[a].level == 0 && f[a].lo <= k < f[a].hi
    ensures var g := f[a := f[a].(m := f[a].m[k := v])];
            GoodBut(nodes, g, depth, size, a, k, v) && Contents(g) == Contents(f)[k := v]
  {
    assert MatchAt(nodes, f, size, a);
    assert SpanOk(f[a]);
    var m := f[a].m[k := v];
    LeafUpdate(f, depth, a, m);
    LeafUpdateContents(f, depth, a, m, k);
    var g := f[a := f[a].(m := m)];
    forall b | b in g && b != a ensures MatchAt(nodes, g, size, b) {
      assert MatchAt(nodes, f, size, b);
    }
  }

  lemma Complete(nodes: Nodes, f: Forest, depth: nat, size: nat, p: Addr, k: Key, v: BchVal, n: Node)
    requires GoodBut(nodes, f, depth, size, p, k, v) && Matches(n, f[p], size)
    ensures Good(nodes[p := n], f, depth, size)
  {
    hide Matches, Lacks, Inv;
    var nodes' := nodes[p := n];
    assert MatchAt(nodes', f, size, p);
    forall b | b in f ensures MatchAt(nodes', f, size, b) {
      if b != p { Carry(nodes, f, nodes', f, size, b); }
    }
  }

  lemma Rewrite(nodes: Nodes, f: Forest, depth: nat, size: nat, p: Addr, k: Key, v: BchVal, n: Node)
    requires GoodBut(nodes, f, depth, size, p, k, v) && Lacks(n, f[p], size, k, v)
    ensures GoodBut(nodes[p := n], f, depth, size, p, k, v)
  {
    hide Matches, Lacks, Inv;
    forall b | b in f && b != p ensures MatchAt(nodes[p := n], f, size, b) {
      Carry(nodes, f, nodes[p := n], f, size, b);
    }
  }

  /** A cut node leaves its parent without the entry of the new right half. */
  lemma SplitPends(nodes: Nodes, f: Forest, depth: nat, size: nat, p: Addr, a: Addr, k: Key, v: BchVal,
                   med: Key, left: Node, b: Addr, right: Node)
    requires GoodBut(nodes, f, depth, size, a, k, v) && CanSplit(f, p, a, med, b) && b !in nodes
    requires Matches(left, Span(f[a].level, f[a].lo, med, Below(f[a].m, med)), size)
    requires Matches(right, Span(f[a].level, med, f[a].hi, From(f[a].m, med)), size)
    ensures var g := SplitLinked(f, p, a, med, b);
            GoodBut(nodes[b := right][a := left], g, depth, size, p, med, BchVal(b, 0)) && Contents(g) == Contents(f)
  {
    hide Matches, Lacks, Inv, Contents, Below, From;
    var g := SplitLinked(f, p, a, med, b);
    SplitKeepsInv(f, depth, p, a, med, b);
    SplitKeepsContents(f, depth, p, a, med, b);
    SplitMedianFresh(f, depth, p, a, med, b);
    var nodes' := nodes[b := right][a := left];
    MatchesLacks(nodes, f, size, p, med, b);
    assert MatchAt(nodes', g, size, a) && MatchAt(nodes', g, size, b);
    forall x | x in g && x != p ensures MatchAt(nodes', g, size, x) {
      if x != a && x != b { Carry(nodes, f, nodes', g, size, x); }
    }
  }

  /** Giving a matched node's span one more entry makes the node lack that entry. */
  lemma MatchesLacks(nodes: Nodes, f: Forest, size: nat, p: Addr, med: Key, b: Addr)
    requires MatchAt(nodes, f, size, p) && med !in f[p].m && f[p].level > 0
    ensures Lacks(nodes[p], f[p].(m := f[p].m[med := BchVal(b, 0)]), size, med, BchVal(b, 0))
  {}

  /** The separator is not yet a routing key of the parent. */
  lemma SplitMedianFresh(f: Forest, depth: nat, p: Addr, a: Addr, med: Key, b: Addr)
    requires Inv(f, depth) && CanSplit(f, p, a, med, b)
    ensures med !in f[p].m
  {
    var ka: Key := f[a].lo;
    assert InnerOk(f, p) && ChildOk(f, p, ka);
  }

  /** The separator of a cut node lies strictly inside its interval. */
  lemma MedianInside(f: Forest, depth: nat, a: Addr, med: Key, x: Key)
    requires Inv(f, depth) && a in f && med in f[a].m && x in f[a].m && x < med
    ensures f[a].lo < med < f[a].hi
  {
    assert SpanOk(f[a]);
  }

  /** Parents above a cut node stay parents. */
  lemma SplitKeepsPath(f: Forest, depth: nat, p: Addr, a: Addr, med: Key, b: Addr, path: seq<Addr>)
    requires Inv(f, depth) && CanSplit(f, p, a, med, b) && IsPath(f, path)
    requires Last(path) == p
    ensures IsPath(SplitLinked(f, p, a, med, b), path)
  {
    var g := SplitLinked(f, p, a, med, b);
    forall i | 0 <= i < |path| ensures Step(g, path, i) {
      assert Step(f, path, i);
      PathAbove(f, depth, path, i);
      if i > 0 { PathAbove(f, depth, path, i - 1); }
      SplitMedianFresh(f, depth, p, a, med, b);
    }
  }

  lemma {:induction false} PathAbove(f: Forest, depth: nat, path: seq<Addr>, i: nat)
    requires IsPath(f, path) && i < |path|
    ensures path[i] in f && Last(path) in f && f[path[i]].level >= f[Last(path)].level
    decreases |path| - i
  {
    assert Step(f, path, i);
    if i < |path| - 1 {
      PathAbove(f, depth, path, i + 1);
      assert Step(f, path, i + 1);
    }
  }

  lemma GrowGood(nodes: Nodes, f: Forest, depth: nat, size: nat, k: Key, v: BchVal, med: Key,
                 l: Addr, left: Node, r: Addr, right: Node, top: Node)
    requires GoodBut(nodes, f, depth, size, ROOT, k, v) && CanGrow(f, depth, med, l, r)
    requires Matches(left, Span(depth, 0, med, Below(f[ROOT].m, med)), size)
    requires Matches(right, Span(depth, med, KEY_SPACE, From(f[ROOT].m, med)), size)
    requires Matches(top, Grown(f, depth, med, l, r)[ROOT], size)
    ensures var g := Grown(f, depth, med, l, r);
            Good(nodes[l := left][r := right][ROOT := top], g, depth + 1, size) && Contents(g) == Contents(f)
  {
    hide Matches, Lacks, Inv;
    var g := Grown(f, depth, med, l, r);
    GrowKeepsInv(f, depth, med, l, r);
    GrowKeepsContents(f, depth, med, l, r);
    GrowMatches(nodes, f, g, nodes[l := left][r := right][ROOT := top], size, l, r);
  }

  lemma GrowMatches(nodes: Nodes, f: Forest, g: Forest, nodes': Nodes, size: nat, l: Addr, r: Addr)
    requires nodes.Keys == f.Keys && nodes'.Keys == g.Keys == f.Keys + {l, r} && ROOT in f
    requires forall x {:trigger MatchAt(nodes, f, size, x)} :: x in f && x != ROOT ==> MatchAt(nodes, f, size, x)
    requires forall x :: x in f && x != ROOT && x != l && x != r ==> nodes'[x] == nodes[x] && g[x] == f[x]
    requires MatchAt(nodes', g, size, l) && MatchAt(nodes', g, size, r) && MatchAt(nodes', g, size, ROOT)
    ensures forall x {:trigger MatchAt(nodes', g, size, x)} :: x in g ==> MatchAt(nodes', g, size, x)
  {
    forall x | x in g ensures MatchAt(nodes', g, size, x) {
      if x != l && x != r && x != ROOT { Carry(nodes, f, nodes', g, size, x); }
    }
  }

  /** The new root after a root split: two routing entries in one run. */
  function TopNode(level: nat, size: nat, l: Addr, med: Key, r: Addr): Node {
    Node(level, size, Bset(0, false, [Rec(MIN_KEY, Normal, BchVal(l, 0)), Rec(med, Normal, BchVal(r, 0))]),
         EMPTY_SET, EMPTY_SET, 2, 0)
  }

  lemma TopRecords(level: nat, size: nat, l: Addr, med: Key, r: Addr)
    ensures TopNode(level, size, l, med, r).All() ==
            [Rec(MIN_KEY, Normal, BchVal(l, 0)), Rec(med, Normal, BchVal(r, 0))]
  {}

  lemma TopNodeMatches(depth: nat, size: nat, l: Addr, med: Key, r: Addr)
    requires size >= MIN_NODE_SIZE && size % 8 == 0 && med > 0
    ensures Matches(TopNode(depth + 1, size, l, med, r),
                    Span(depth + 1, 0, KEY_SPACE, map[MIN_KEY := BchVal(l, 0), med := BchVal(r, 0)]), size)
  {
    var n := TopNode(depth + 1, size, l, med, r);
    var a, b := Rec(MIN_KEY, Normal, BchVal(l, 0)), Rec(med, Normal, BchVal(r, 0));
    assert n.All() == [a] + [b] == [a, b];
    OneRunFits(n, [a, b]);
    ViewAppend([], a);
    assert [] + [a] == [a];
    ViewAppend([a], b);
  }

  /** Whether an insert is stuck: the leaf is over the split threshold by records that
      overwrite one another, so that fewer than two keys are left to share out. */
  predicate Stuck(n: Node) { n.ShouldSplit() && |n.Map()| < 2 }

  /** A stuck leaf would have room once its records are merged, but it is not compacted. */
  lemma StuckHasRoom(n: Node)
    requires n.Wf() && Stuck(n)
    ensures 32 * |Compacted(n.All())| + 32 <= n.size && n.All() != []
  {
    CompactKeepsView(n.All());
  }

  lemma EmptyStart(n: Node)
    requires n.s0 == EMPTY_SET && n.s1 == EMPTY_SET && n.s2 == EMPTY_SET
    ensures n.FreeStart() == 0
  {}

  /** A leaf into which one record was inserted again and again. */
  function Filled(size: nat, r: Rec, m: nat): Node {
    if m == 0 then NewNode(0).(size := size) else Put(Filled(size, r, m - 1), r).(keyCount := m)
  }

  function Copies(r: Rec, m: nat): seq<Rec> { seq(m, _ => r) }

  /** The leaf as it then is: all records in the first incremental run. */
  function OneKey(size: nat, r: Rec, m: nat): Node {
    Node(0, size, EMPTY_SET, if m == 0 then EMPTY_SET else Bset(0, false, Copies(r, m)), EMPTY_SET, m, 0)
  }

  lemma OneKeyIs(size: nat, r: Rec, m: nat)
    requires size >= MIN_NODE_SIZE && size % 8 == 0
    ensures OneKey(size, r, m).All() == Copies(r, m) && OneKey(size, r, m).TotalBytes() == 32 * m
    ensures 32 * m <= size ==> OneKey(size, r, m).Wf() && OneKey(size, r, m).Counted()
    ensures 32 * m + 32 <= size ==> OneKey(size, r, m).Fits()
  {
    hide Node.Wf, Node.Fits, Node.FreeStart, Strict;
    var n := OneKey(size, r, m);
    assert n.All() == Copies(r, m);
    if 32 * m <= size { OneKeyWf(size, r, m); }
    if 32 * m + 32 <= size { OneKeyFits(size, r, m); }
  }

  lemma OneKeyWf(size: nat, r: Rec, m: nat)
    requires size >= MIN_NODE_SIZE && size % 8 == 0 && 32 * m <= size
    ensures OneKey(size, r, m).Wf()
  {}

  lemma OneKeyFits(size: nat, r: Rec, m: nat)
    requires size % 8 == 0 && 32 * m + 32 <= size
    ensures OneKey(size, r, m).Fits()
  {
    hide RoundUp8;
    var d := OneKey(size, r, m).DropAux();
    UpTo8(Max(d.s0.Limit(), Max(d.s1.Limit(), d.s2.Limit())), 32 * m);
  }

  lemma {:induction false} FilledIs(size: nat, r: Rec, m: nat)
    ensures Filled(size, r, m) == OneKey(size, r, m)
  {
    hide RoundUp8, Node.FreeStart;
    if m > 0 {
      FilledIs(size, r, m - 1);
      EmptyStart(NewNode(0).(size := size));
      PutCopy(size, r, m);
    }
  }

  lemma PutCopy(size: nat, r: Rec, m: nat)
    requires m > 0 && NewNode(0).(size := size).FreeStart() == 0
    ensures Put(OneKey(size, r, m - 1), r).(keyCount := m) == OneKey(size, r, m)
  {
    hide RoundUp8, Node.FreeStart;
    assert Copies(r, m) == Copies(r, m - 1) + [r];
    if m == 1 { assert OneKey(size, r, 0) == NewNode(0).(size := size); }
  }

  lemma {:induction false} CopiesView(r: Rec, m: nat)
    requires r.kind.Normal? && m > 0
    ensures View(Copies(r, m)) == map[r.key := r.val]
  {
    assert Copies(r, m) == Copies(r, m - 1) + [r];
    ViewAppend(Copies(r, m - 1), r);
    if m > 1 { CopiesView(r, m - 1); }
  }

  /** How many copies of one key take a leaf over the split threshold. */
  function Threshold(size: nat): nat { size / 8 * 3 / 4 / 4 + 1 }

  lemma ThresholdIs(size: nat)
    requires size >= MIN_NODE_SIZE && size % 8 == 0
    ensures var m := Threshold(size); 4 * (m - 1) <= size / 8 * 3 / 4 < 4 * m && 32 * m <= size
  {
    var q := size / 8;
    assert size == 8 * q && q >= 12;
  }

  /** In a leaf of any size, inserting one key until the threshold is passed gets it stuck;
      each of these inserts still had room and was below the threshold. */
  lemma StuckByOverwriting(size: nat, k: Key, v: BchVal)
    requires size >= MIN_NODE_SIZE && size % 8 == 0
    ensures var r, m := Rec(k, Normal, v), Threshold(size);
            && (forall i :: 0 <= i < m ==> !Filled(size, r, i).ShouldSplit() && Filled(size, r, i).Fits())
            && var n := Filled(size, r, m); n.Wf() && n.Counted() && Stuck(n) && n.Map() == map[k := v]
  {
    hide Filled, Node.Wf, Node.Fits, Threshold;
    var r, m := Rec(k, Normal, v), Threshold(size);
    ThresholdIs(size);
    FilledIs(size, r, m);
    OneKeyIs(size, r, m);
    CopiesView(r, m);
    forall i | 0 <= i < m ensures !Filled(size, r, i).ShouldSplit() && Filled(size, r, i).Fits() {
      FilledIs(size, r, i);
      OneKeyIs(size, r, i);
    }
  }

  /** Cached nodes have addresses already handed out; address 0 never is. */
  ghost predicate HandedOut(cache: Nodes, next: Addr) {
    next >= 1 && forall a :: a in cache ==> 1 <= a < next
  }

  lemma HandOut(cache: Nodes, next: Addr, n: Node)
    requires HandedOut(cache, next)
    ensures HandedOut(cache[next := n], next + 1) && next !in cache && next != ROOT
  {}

  lemma EmptyTree(size: nat)
    requires size >= MIN_NODE_SIZE && size % 8 == 0
    ensures var f := map[ROOT := Span(0, 0, KEY_SPACE, map[])];
            && Good(map[][ROOT := NewNode(0).(size := size)], f, 0, size)
            && Contents(f) == map[] && HandedOut(map[], 1)
  {
    var f: Forest := map[ROOT := Span(0, 0, KEY_SPACE, map[])];
    var n := NewNode(0).(size := size);
    assert NewNode(0).All() == n.All() == [];
    forall a | a in f ensures SpanOk(f[a]) && InnerOk(f, a) {}
    assert MatchAt(map[][ROOT := n], f, size, ROOT);
    assert Contents(f).Keys == {};
  }

  lemma LeafOfKey(f: Forest, depth: nat, a: Addr, key: Key)
    requires Inv(f, depth) && CoversKey(f, a, key)
    ensures forall b :: CoversKey(f, b, key) ==> b == a
  {
    forall b | CoversKey(f, b, key) ensures b == a { ApartIfDistinct(f, depth, a, b); }
  }

  lemma GoodFacts(nodes: Nodes, f: Forest, depth: nat, size: nat, a: Addr)
    requires Good(nodes, f, depth, size)
    ensures nodes.Keys == f.Keys && Inv(f, depth) && RootOk(f, depth)
    ensures a in f ==> Matches(nodes[a], f[a], size) && nodes[a].Map() == f[a].m
  {
    assert a in f ==> MatchAt(nodes, f, size, a);
  }

  /** Changing a leaf's map changes no path. */
  lemma PathKept(f: Forest, path: seq<Addr>, a: Addr, m: map<Key, BchVal>)
    requires IsPath(f, path) && Parent(f, Last(path), a) && f[a].level == 0
    ensures var g := f[a := f[a].(m := m)]; IsPath(g, path) && Parent(g, Last(path), a)
  {
    var g := f[a := f[a].(m := m)];
    forall i | 0 <= i < |path| ensures Step(g, path, i) { assert Step(f, path, i); }
  }

  ghost function Upto(path: seq<Addr>, pos: nat): seq<Addr> {
    if pos >= |path| then [] else path[..pos + 1]
  }

  lemma PathInit(f: Forest, path: seq<Addr>)
    requires IsPath(f, path) && path != []
    ensures IsPath(f, path[..|path| - 1]) && Parent(f, Last(path[..|path| - 1]), Last(path))
  {
    var q := path[..|path| - 1];
    assert Step(f, path, |path| - 1);
    forall i | 0 <= i < |q| ensures Step(f, q, i) { assert Step(f, path, i); }
  }

  /** The two halves of the root's map, cut at a key that is not its least one. */
  ghost predicate Halved(f: Forest, depth: nat, size: nat, left: Node, right: Node, med: Key) {
    && ROOT in f && 0 < med && med in f[ROOT].m
    && Matches(left, Span(depth, 0, med, Below(f[ROOT].m, med)), size)
    && Matches(right, Span(depth, med, KEY_SPACE, From(f[ROOT].m, med)), size)
  }

  lemma InstallKeepsGood(cache: Nodes, root: Node, next: Addr, f: Forest, depth: nat, size: nat, k: Key, v: BchVal,
                         left: Node, right: Node, med: Key)
    requires HandedOut(cache, next) && size >= MIN_NODE_SIZE
    requires GoodBut(cache[ROOT := root], f, depth, size, ROOT, k, v)
    requires Halved(f, depth, size, left, right, med)
    ensures var l, r := next, next + 1;
            && HandedOut(cache[l := left][r := right], next + 2)
            && Good(cache[l := left][r := right][ROOT := TopNode(root.level + 1, root.size, l, med, r)],
                    Grown(f, depth, med, l, r), depth + 1, size)
            && Contents(Grown(f, depth, med, l, r)) == Contents(f)
  {
    hide Good, GoodBut, Matches, Lacks, Contents, Inv, TopNode, HandedOut, Grown, Halved;
    InstallHandsOut(cache, next, left, right);
    InstallGood(cache, root, next, f, depth, size, k, v, left, right, med);
  }

  lemma InstallHandsOut(cache: Nodes, next: Addr, left: Node, right: Node)
    requires HandedOut(cache, next)
    ensures HandedOut(cache[next := left][next + 1 := right], next + 2)
    ensures next !in cache && next + 1 !in cache && next != ROOT && next + 1 != ROOT
  {
    hide HandedOut;
    HandOut(cache, next, left);
    HandOut(cache[next := left], next + 1, right);
  }

  lemma InstallGood(cache: Nodes, root: Node, next: Addr, f: Forest, depth: nat, size: nat, k: Key, v: BchVal,
                    left: Node, right: Node, med: Key)
    requires HandedOut(cache, next) && size >= MIN_NODE_SIZE
    requires GoodBut(cache[ROOT := root], f, depth, size, ROOT, k, v)
    requires Halved(f, depth, size, left, right, med)
    ensures var l, r := next, next + 1;
            && Good(cache[l := left][r := right][ROOT := TopNode(root.level + 1, root.size, l, med, r)],
                    Grown(f, depth, med, l, r), depth + 1, size)
            && Contents(Grown(f, depth, med, l, r)) == Contents(f)
  {
    hide Good, GoodBut, Matches, Lacks, Contents, Inv, TopNode, HandedOut;
    var l: Addr, r: Addr := next, next + 1;
    RootFacts(cache[ROOT := root], f, depth, size, k, v);
    InstallHandsOut(cache, next, left, right);
    var top := TopNode(depth + 1, size, l, med, r);
    TopNodeMatches(depth, size, l, med, r);
    GrowGood(cache[ROOT := root], f, depth, size, k, v, med, l, left, r, right, top);
    CacheUpdates(cache, root, l, left, r, right, top);
  }

  lemma CacheUpdates(cache: Nodes, root: Node, l: Addr, left: Node, r: Addr, right: Node, top: Node)
    ensures cache[ROOT := root][l := left][r := right][ROOT := top] == cache[l := left][r := right][ROOT := top]
  {
    var a, b := cache[ROOT := root][l := left][r := right][ROOT := top], cache[l := left][r := right][ROOT := top];
    assert a.Keys == b.Keys;
    assert forall x :: x in a ==> a[x] == b[x];
  }

  lemma PendingFacts(nodes: Nodes, f: Forest, depth: nat, size: nat, p: Addr, k: Key, v: BchVal)
    requires GoodBut(nodes, f, depth, size, p, k, v)
    ensures nodes.Keys == f.Keys && p in f && Inv(f, depth)
    ensures f[p].m == nodes[p].Map()[k := v] && Lacks(nodes[p], f[p], size, k, v) && nodes[p].size == size
  {}

  lemma RootFacts(nodes: Nodes, f: Forest, depth: nat, size: nat, k: Key, v: BchVal)
    requires GoodBut(nodes, f, depth, size, ROOT, k, v)
    ensures ROOT in nodes && ROOT in f && f[ROOT].level == depth && f[ROOT].lo == 0 && f[ROOT].hi == KEY_SPACE
    ensures f[ROOT].m == nodes[ROOT].Map()[k := v] && nodes[ROOT].level == depth && nodes[ROOT].size == size
    ensures Lacks(nodes[ROOT], f[ROOT], size, k, v) && size % 8 == 0
    ensures nodes.Keys == f.Keys && Inv(f, depth)
  {}

  lemma RootMedian(f: Forest, m: map<Key, BchVal>, k: Key, v: BchVal, med: Key)
    requires ROOT in f && f[ROOT].m == m[k := v] && med in m && exists x :: x in m && x < med
    ensures 0 < med && med in f[ROOT].m
  {}

  // ---- facts behind merging ----

  lemma SwapMatched(nodes: Nodes, f: Forest, depth: nat, size: nat, a: Addr, n: Node)
    requires Good(nodes, f, depth, size) && a in f && Matches(n, f[a], size)
    ensures Good(nodes[a := n], f, depth, size)
  {
    hide Matches, Inv;
    var nodes' := nodes[a := n];
    assert MatchAt(nodes', f, size, a);
    forall b | b in f ensures MatchAt(nodes', f, size, b) {
      if b != a { Carry(nodes, f, nodes', f, size, b); }
    }
  }

  method CompactMatched(n: Node, ghost s: Span) returns (n': Node)
    requires Matches(n, s, n.size)
    ensures Matches(n', s, n.size) && n'.TotalBytes() == 32 * |n.Map()| && n'.All() == Compacted(n.All())
  {
    CompactKeepsView(n.All());
    CompactMembers(n.All());
    n' := Compact(n);
  }

  /** An address stands under one routing key of its parent only. */
  lemma ChildIsOnce(f: Forest, depth: nat, p: Addr, a: Addr)
    requires Inv(f, depth) && Parent(f, p, a)
    ensures ChildOnce(f[p].m, f[a].lo)
  {
    forall x | x in f[p].m && f[p].m[x].paddr == a ensures x == f[a].lo {
      ParentUnique(f, depth, p, p, a, x);
    }
  }

  lemma SiblingIsChild(f: Forest, depth: nat, p: Addr, k: Key)
    requires Inv(f, depth) && p in f && f[p].level > 0 && k in f[p].m
    ensures Parent(f, p, f[p].m[k].paddr) && f[f[p].m[k].paddr].lo == k
  {
    assert InnerOk(f, p) && ChildOk(f, p, k);
  }

  /** Children under neighbouring routing keys cover neighbouring intervals. */
  lemma NeighboursMeet(f: Forest, depth: nat, p: Addr, x: Addr, y: Addr, ky: Key)
    requires Inv(f, depth) && Parent(f, p, x) && Parent(f, p, y) && f[y].lo == ky
    requires Next(f[p].m, f[x].lo, ky)
    ensures f[x].hi == ky && x != y
  {
    var kx: Key := f[x].lo;
    assert InnerOk(f, p) && ChildOk(f, p, kx) && ChildOk(f, p, ky);
    assert SpanOk(f[x]) && SpanOk(f[y]) && SpanOk(f[p]);
    var h := f[x].hi;
    assert h == f[p].hi || (h < KEY_SPACE && h in f[p].m);
  }

  /** The neighbour a child merges with: the right one, for the last child the left one. */
  ghost predicate Partner(f: Forest, p: Addr, a: Addr, b: Addr) {
    && Parent(f, p, a) && Parent(f, p, b)
    && (f[a].hi == f[b].lo || (f[a].hi == f[p].hi && f[b].hi == f[a].lo))
  }

  /** Node a is underfull, and its records together with its partner's fit one node. */
  ghost predicate CanTake(nodes: Nodes, f: Forest, size: nat, p: Addr, a: Addr, b: Addr) {
    && Partner(f, p, a, b) && a in nodes && b in nodes
    && 32 * |nodes[a].All()| < size / 3 && 32 * |nodes[a].Map()| + 32 * |nodes[b].All()| + 32 + 64 <= size
  }

  lemma CanTakeNeeds(nodes: Nodes, f: Forest, size: nat, p: Addr, a: Addr)
    requires a in nodes && nodes[a].size == size
    ensures forall b: Addr :: CanTake(nodes, f, size, p, a, b) ==> nodes[a].Underfull() && Partner(f, p, a, b)
  {}

  /** Whether it can be taken shows once it is compacted, and either way round. */
  lemma CanTakeIs(nodes: Nodes, f: Forest, size: nat, p: Addr, a: Addr, b: Addr, node: Node)
    requires Partner(f, p, a, b) && a in nodes && b in nodes && nodes[a].Underfull()
    requires nodes[a].size == nodes[b].size == node.size == size && node.TotalBytes() == 32 * |nodes[a].Map()|
    ensures CanTake(nodes, f, size, p, a, b) <==> nodes[b].CanAbsorb(node)
    ensures nodes[b].CanAbsorb(node) <==> node.CanAbsorb(nodes[b])
  {
    hide Partner;
  }

  /** The right one of the two nodes survives. */
  ghost function Joined(f: Forest, p: Addr, a: Addr, b: Addr): Forest
    requires Partner(f, p, a, b)
  {
    if f[a].hi == f[b].lo then Merged(f, p, a, b, b, a) else Merged(f, p, b, a, a, b)
  }

  lemma PartnerKnown(f: Forest, p: Addr, a: Addr, b: Addr)
    requires Partner(f, p, a, b)
    ensures a in f && b in f && p in f && Parent(f, p, b)
  {}

  lemma SpansOk(f: Forest, depth: nat, a: Addr, b: Addr)
    requires Inv(f, depth) && a in f && b in f
    ensures SpanOk(f[a]) && SpanOk(f[b])
  {}

  /** The partner is the neighbour that the search among the routing entries finds. */
  lemma PartnerIs(f: Forest, depth: nat, p: Addr, a: Addr, right: bool, o: Option<Key>)
    requires Inv(f, depth) && Parent(f, p, a)
    requires right ==> o.Some? && Next(f[p].m, f[a].lo, o.value)
    requires !right ==> forall x :: x in f[p].m ==> x <= f[a].lo
    requires !right && o.Some? ==> Next(f[p].m, o.value, f[a].lo)
    requires !right && o.None? ==> forall x :: x in f[p].m ==> f[a].lo <= x
    ensures forall b: Addr :: Partner(f, p, a, b) <==> o.Some? && b == f[p].m[o.value].paddr
    ensures o.Some? ==> f[p].m[o.value].paddr in f && (f[a].hi == f[f[p].m[o.value].paddr].lo <==> right)
  {
    var k: Key := f[a].lo;
    assert InnerOk(f, p) && ChildOk(f, p, k) && SpanOk(f[a]) && SpanOk(f[p]);
    if o.Some? {
      SiblingIsChild(f, depth, p, o.value);
      var c := f[p].m[o.value].paddr;
      if right { NeighboursMeet(f, depth, p, a, c, o.value); } else { NeighboursMeet(f, depth, p, c, a, k); }
    }
    forall b | Partner(f, p, a, b) ensures o.Some? && b == f[p].m[o.value].paddr {
      var j: Key := f[b].lo;
      assert ChildOk(f, p, j) && SpanOk(f[b]);
      if o.Some? { assert ChildOk(f, p, o.value); }
    }
  }

  lemma KeysApart(s: Span, t: Span)
    requires SpanOk(s) && SpanOk(t) && s.hi <= t.lo
    ensures s.m.Keys !! t.m.Keys
  {}

  lemma UnionWithin(x: Node, s: Span, y: Node, t: Span, union: Node)
    requires Matches(x, s, x.size) && Matches(y, t, y.size) && s.lo < s.hi == t.lo < t.hi && s.level == t.level
    requires forall r :: r in union.All() ==> r in x.All() || r in y.All()
    ensures s.level == 0 ==> Within(union.All(), s.lo, t.hi)
  {}

  lemma UnionSwap(a: map<Key, BchVal>, b: map<Key, BchVal>)
    requires a.Keys !! b.Keys
    ensures a + b == b + a
  {}

  /** Behind all other routing entries, which are in order, stands one for the key. */
  ghost predicate Rerouted(rs: seq<Rec>, k: Key, s: Addr) {
    rs != [] && rs[|rs| - 1] == Rec(k, Normal, BchVal(s, 0)) && Strict(rs[..|rs| - 1])
  }

  /** The smaller of the routing keys of two partners now leads to the right one of them. */
  ghost predicate Resettled(nodes: Nodes, f: Forest, p: Addr, a: Addr, b: Addr) {
    && p in nodes && Partner(f, p, a, b)
    && if f[a].hi == f[b].lo then Rerouted(nodes[p].All(), f[a].lo, b) else Rerouted(nodes[p].All(), f[b].lo, a)
  }

  /** After a merge the parent routes the smaller of the two keys to the survivor and has
      lost the other; the entry stands behind all others, whatever its key. */
  method UpdateParentRouting(n: Node, s: Addr, t: Addr, ghost kx: Key, ghost ky: Key, ghost sp: Span) returns (n': Node)
    requires Matches(n, sp, n.size) && sp.level > 0
    requires kx < ky && ChildOnce(sp.m, kx) && ChildOnce(sp.m, ky)
    requires (sp.m[kx].paddr == s && sp.m[ky].paddr == t) || (sp.m[kx].paddr == t && sp.m[ky].paddr == s)
    ensures Matches(n', sp.(m := (sp.m - {kx, ky})[kx := BchVal(s, 0)]), n.size)
    ensures Rerouted(n'.All(), kx, s)
  {
    var absorbedIdx := FindEntryIndex(n, t);
    var survivorIdx := FindEntryIndex(n, s);
    EntryOf(n.All(), kx);
    EntryOf(n.All(), ky);
    var absorbedKey := n.All()[absorbedIdx.value - 1].key;
    var survivorKey := n.All()[survivorIdx.value - 1].key;
    CleanView(n.All());
    var newKey := if absorbedKey < survivorKey then absorbedKey else survivorKey;
    assert newKey == kx && {absorbedKey, survivorKey} == {kx, ky};
    n' := DropTwo(n, absorbedKey, survivorKey);
    ghost var others := n'.All();
    n' := Reenter(n', newKey, BchVal(s, 0), sp, n.Map() - {absorbedKey, survivorKey});
    assert n'.All()[..|n'.All()| - 1] == others;
  }

  lemma EntryOf(rs: seq<Rec>, k: Key)
    requires Clean(rs) && k in View(rs)
    ensures exists r :: r in rs && r.key == k && r.val == View(rs)[k]
  {
    CleanView(rs);
    var i :| 0 <= i < |rs| && rs[i].key == k;
    assert rs[i] in rs;
  }

  /** Deletes two routing entries and compacts. */
  method DropTwo(n: Node, j: Key, k: Key) returns (n': Node)
    requires n.Wf() && Clean(n.All()) && j in n.Map() && k in n.Map() && j != k
    ensures n'.Wf() && n'.size == n.size && n'.level == n.level
    ensures n'.Map() == n.Map() - {j, k}
    ensures Strict(n'.All()) && Clean(n'.All()) && n'.keyCount == |n'.All()| && n'.Counted() && n'.Fits()
  {
    hide SingleLive, DeleteRemoves, View, Compacted, HasLive, Node.Wf, Node.Laid, Node.Fits, Node.DropAux;
    CleanSingle(n.All(), j);
    CleanSingle(n.All(), k);
    var ok;
    SingleRemoves(n, j);
    ok, n' := DeleteKey(n, j);
    SingleRemoves(n', k);
    ok, n' := DeleteKey(n', k);
    assert n'.Map() == n.Map() - {j, k};
    CompactKeepsView(n'.All());
    CleanView(n.All());
    WfLaid(n);
    RecordsFit(n);
    WfLaid(n');
    n' := Compact(n');
    TwoFewer(n.Map(), n'.Map(), j, k);
    SlotFree(n');
  }

  lemma SingleRemoves(n: Node, k: Key)
    requires SingleLive(n.All(), k)
    ensures DeleteRemoves(n, k)
  {}

  lemma SlotFree(n: Node)
    requires n.Wf() && n.s1 == EMPTY_SET && n.s2 == EMPTY_SET && 32 * |n.All()| + 32 <= n.size &&
             n.keyCount == |n.All()|
    ensures n.Fits()
  {
    OneRunFits(n.DropAux(), n.All());
  }

  lemma TwoFewer(m: map<Key, BchVal>, m': map<Key, BchVal>, j: Key, k: Key)
    requires m' == m - {j, k} && j in m && k in m && j != k
    ensures |m'| == |m| - 2
  {
    assert m'.Keys == m.Keys - {j, k};
    assert |m.Keys - {j, k}| == |m.Keys| - |{j, k}|;
    assert |m'| == |m'.Keys| && |m| == |m.Keys|;
  }

  method Reenter(n: Node, k: Key, v: BchVal, ghost sp: Span, ghost m: map<Key, BchVal>) returns (n': Node)
    requires n.Wf() && n.level == sp.level > 0 && n.Fits()
    requires Clean(n.All()) && n.keyCount == |n.All()| && n.Counted() && n.Map() == m && k !in m
    ensures Matches(n', sp.(m := m[k := v]), n.size) && n'.All() == n.All() + [Rec(k, Normal, v)]
  {
    var ok;
    ok, n' := AddEntry(n, k, v, sp.(m := m[k := v]));
  }

  lemma MergeGood(nodes: Nodes, f: Forest, depth: nat, size: nat, p: Addr, x: Addr, y: Addr, s: Addr, t: Addr,
                  union: Node, parent: Node)
    requires Good(nodes, f, depth, size) && CanMerge(f, p, x, y, s, t)
    requires Matches(union, Span(f[x].level, f[x].lo, f[y].hi, f[x].m + f[y].m), size)
    requires f[x].lo < KEY_SPACE && f[y].lo < KEY_SPACE
    requires Matches(parent, f[p].(m := (f[p].m - {f[x].lo as Key, f[y].lo as Key})[f[x].lo as Key := BchVal(s, 0)]),
                     size)
    ensures var g := Merged(f, p, x, y, s, t);
            Good((nodes - {t})[s := union][p := parent], g, depth, size) && Contents(g) == Contents(f)
  {
    hide Matches, Contents, Inv;
    MergeFacts(f, depth, p, x, y, s, t);
    MergeKeepsInv(f, depth, p, x, y, s, t);
    MergeKeepsContents(f, depth, p, x, y, s, t);
    var g, nodes' := Merged(f, p, x, y, s, t), (nodes - {t})[s := union][p := parent];
    assert MatchAt(nodes', g, size, s) && MatchAt(nodes', g, size, p);
    forall z | z in g ensures MatchAt(nodes', g, size, z) {
      if z != s && z != p { Carry(nodes, f, nodes', g, size, z); }
    }
  }

  lemma MergeKeepsPath(f: Forest, depth: nat, p: Addr, x: Addr, y: Addr, s: Addr, t: Addr, path: seq<Addr>)
    requires Inv(f, depth) && CanMerge(f, p, x, y, s, t) && IsPath(f, path) && Last(path) == p
    ensures IsPath(Merged(f, p, x, y, s, t), path)
  {
    var g := Merged(f, p, x, y, s, t);
    MergeFacts(f, depth, p, x, y, s, t);
    forall i | 0 <= i < |path| ensures Step(g, path, i) {
      assert Step(f, path, i);
      PathAbove(f, depth, path, i);
      if i > 0 { PathAbove(f, depth, path, i - 1); }
    }
  }

  /** A root with one routing entry can be collapsed. */
  lemma OneEntry(root: Node, f: Forest, depth: nat, size: nat)
    requires depth > 0 && Inv(f, depth) && Matches(root, f[ROOT], size) && root.keyCount == 1
    ensures |root.All()| == 1 && CanCollapse(f, depth, root.All()[0].val.paddr)
  {
    hide View, Node.Wf, ChildOk;
    assert InnerOk(f, ROOT);
    var rs := root.All();
    CleanView(rs);
    var k := rs[0].key;
    assert k in f[ROOT].m && f[ROOT].m[k] == rs[0].val;
    Singleton(f[ROOT].m, k, MIN_KEY);
  }

  lemma Singleton(m: map<Key, BchVal>, j: Key, k: Key)
    requires |m| == 1 && j in m && k in m
    ensures j == k && m.Keys == {k}
  {
    assert |m.Keys - {j}| == 0;
    assert m.Keys - {j} == {};
    assert k in m.Keys;
  }

  lemma CollapseGood(nodes: Nodes, f: Forest, depth: nat, size: nat, c: Addr)
    requires Good(nodes, f, depth, size) && CanCollapse(f, depth, c)
    ensures c in f && c in nodes
    ensures Good((nodes - {c})[ROOT := nodes[c]], Collapsed(f, c), depth - 1, size)
    ensures Contents(Collapsed(f, c)) == Contents(f)
  {
    hide Matches, Contents, Inv;
    CollapseFacts(f, depth, c);
    CollapseKeepsInv(f, depth, c);
    CollapseKeepsContents(f, depth, c);
    var g, nodes' := Collapsed(f, c), (nodes - {c})[ROOT := nodes[c]];
    assert MatchAt(nodes, f, size, c);
    forall z | z in g ensures MatchAt(nodes', g, size, z) {
      if z != ROOT { Carry(nodes, f, nodes', g, size, z); }
    }
  }

  lemma LeafMatch(n: Node, s: Span, size: nat)
    requires Matches(n, s, size)
    ensures n.Wf() && n.Counted() && n.size == size && n.Map() == s.m && n.level == s.level
    ensures s.level == 0 ==> Within(n.All(), s.lo, s.hi)
  {}

  lemma DeleteGood(nodes: Nodes, f: Forest, depth: nat, size: nat, a: Addr, k: Key, n: Node)
    requires Good(nodes, f, depth, size) && CoversKey(f, a, k) && a in nodes
    requires n.Wf() && n.Counted() && n.size == size && n.level == 0
    requires n.Map() == if DeleteRemoves(nodes[a], k) then nodes[a].Map() - {k} else nodes[a].Map()
    requires Within(n.All(), f[a].lo, f[a].hi)
    ensures var g := f[a := f[a].(m := n.Map())];
            && Good(nodes[a := n], g, depth, size)
            && Contents(g) == if DeleteRemoves(nodes[a], k) then Contents(f) - {k} else Contents(f)
  {
    hide Contents, View, DeleteRemoves, Inv, Good, Node.Map, Within;
    GoodFacts(nodes, f, depth, size, a);
    LeafMapInside(nodes, f, depth, size, a);
    LeafReplaced(nodes, f, depth, size, a, n);
    LeafUpdateContents(f, depth, a, n.Map(), k);
    ContentsAt(f, depth, a, k);
  }

  lemma LeafMapInside(nodes: Nodes, f: Forest, depth: nat, size: nat, a: Addr)
    requires Good(nodes, f, depth, size) && a in f
    ensures WithinSpan(f[a], f[a].m)
  {
    assert SpanOk(f[a]);
  }

  lemma LeafReplaced(nodes: Nodes, f: Forest, depth: nat, size: nat, a: Addr, n: Node)
    requires Good(nodes, f, depth, size) && a in f && a in nodes && f[a].level == 0 && WithinSpan(f[a], n.Map())
    requires n.Wf() && n.Counted() && n.size == size && n.level == 0 && Within(n.All(), f[a].lo, f[a].hi)
    ensures Good(nodes[a := n], f[a := f[a].(m := n.Map())], depth, size)
  {
    hide Inv, Matches, Node.Map, Within, Node.Wf, Node.Counted, WithinSpan;
    var g, nodes' := f[a := f[a].(m := n.Map())], nodes[a := n];
    LeafUpdate(f, depth, a, n.Map());
    LeafFits(n, g[a], size);
    forall b | b in g ensures MatchAt(nodes', g, size, b) {
      assert MatchAt(nodes, f, size, b);
    }
  }

  lemma LeafFits(n: Node, s: Span, size: nat)
    requires n.Wf() && n.Counted() && n.size == size && n.level == s.level == 0
    requires n.Map() == s.m && Within(n.All(), s.lo, s.hi)
    ensures Matches(n, s, size)
  {}

  lemma PathKeptAny(f: Forest, path: seq<Addr>, l: Addr, m: map<Key, BchVal>, a: Addr)
    requires IsPath(f, path) && Parent(f, Last(path), a) && l in f && f[l].level == 0
    ensures var g := f[l := f[l].(m := m)]; IsPath(g, path) && Parent(g, Last(path), a)
  {
    var g := f[l := f[l].(m := m)];
    forall i | 0 <= i < |path| ensures Step(g, path, i) { assert Step(f, path, i); }
  }
}
