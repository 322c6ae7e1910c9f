/** What deletes and inserts do to a tree, step by step. A delete takes the key out of its leaf,
    merges nodes upwards for as long as they can be merged, and lifts the root until it has more
    than one child. An insert cuts nodes upwards for as long as they cannot take one more
    record, and puts a new root above the old one if that was cut too. */
module Cascades {
  import opened Records
  import opened BtreeNodes
  import opened BtreeShape
  import opened BtreeSteps

  /** A tree as it stands. */
  datatype Snap = Snap(nodes: Nodes, shape: Forest, depth: nat)

  /** Node number i of a route, counted upwards from its end, and the node above it. */
  function Under(route: seq<Addr>, i: nat): Addr
    requires i < |route|
  {
    route[|route| - 1 - i]
  }

  function Over(route: seq<Addr>, i: nat): Addr
    requires i < |route|
  {
    Last(route[..|route| - 1 - i])
  }

  /** Only node a may differ. */
  ghost predicate OthersSame(s: Snap, s': Snap, a: Addr) {
    && a in s.nodes && s'.nodes.Keys == s.nodes.Keys && s'.depth == s.depth
    && forall x :: x in s.nodes && x != a ==> s'.nodes[x] == s.nodes[x]
  }

  /** The delete in the leaf, which has a live record of the key. */
  ghost predicate LeafDelete(s: Snap, s': Snap, leaf: Addr, key: Key) {
    && CoversKey(s.shape, leaf, key) && OthersSame(s, s', leaf)
    && HasLive(s.nodes[leaf].All(), key) && AfterDelete(s.nodes[leaf], key, s'.nodes[leaf])
    && s'.shape == s.shape[leaf := s.shape[leaf].(m := s'.nodes[leaf].Map())]
  }

  /** Node a and its partner b have become one: the right one of them, which holds the maps of
      both and to which the smaller routing key leads. The other one is gone; no node but the
      survivor and the parent has changed. */
  ghost predicate MergedTo(s: Snap, s': Snap, p: Addr, a: Addr, b: Addr) {
    && Partner(s.shape, p, a, b) && a in s.nodes && b in s.nodes
    && s'.shape == Joined(s.shape, p, a, b) && s'.depth == s.depth && Resettled(s'.nodes, s.shape, p, a, b)
    && var (left, right) := if s.shape[a].hi == s.shape[b].lo then (a, b) else (b, a);
       && s'.nodes.Keys == s.nodes.Keys - {left} && right in s'.nodes
       && s'.nodes[right].Map() == s.nodes[left].Map() + s.nodes[right].Map() && Clean(s'.nodes[right].All())
       && forall x :: x in s'.nodes && x != right && x != p ==> s'.nodes[x] == s.nodes[x]
  }

  ghost predicate Mergeable(s: Snap, size: nat, p: Addr, a: Addr) {
    exists b: Addr :: CanTake(s.nodes, s.shape, size, p, a, b)
  }

  ghost predicate MergeStep(s: Snap, s': Snap, size: nat, p: Addr, a: Addr) {
    exists b: Addr :: CanTake(s.nodes, s.shape, size, p, a, b) && MergedTo(s, s', p, a, b)
  }

  /** A node that is not merged is put back, compacted if it was underfull. */
  ghost predicate PutBackAt(s: Snap, s': Snap, a: Addr) {
    && OthersSame(s, s', a) && s'.shape == s.shape
    && if 32 * |s.nodes[a].All()| < s.nodes[a].size / 3
       then s'.nodes[a].All() == Compacted(s.nodes[a].All())
       else s'.nodes[a] == s.nodes[a]
  }

  /** The only child of the root has become the root. */
  ghost predicate Lifted(s: Snap, s': Snap) {
    && s.depth > 0 && ROOT in s.nodes && s.nodes[ROOT].keyCount == 1 && |s.nodes[ROOT].All()| == 1
    && var c := s.nodes[ROOT].All()[0].val.paddr;
       && c in s.nodes && c in s.shape && c != ROOT
       && s' == Snap((s.nodes - {c})[ROOT := s.nodes[c]], Collapsed(s.shape, c), s.depth - 1)
  }

  /** The merges of a run so far. */
  ghost predicate MergesSoFar(size: nat, route: seq<Addr>, run: seq<Snap>) {
    && 1 <= |run| <= |route| + 1
    && forall i :: 0 <= i < |run| - 1 ==> MergeStep(run[i], run[i + 1], size, Over(route, i), Under(route, i))
  }

  /** Merges from the leaf upwards: each node on the route is merged as long as it can be, and
      the first one that cannot be is put back. */
  ghost predicate Merges(size: nat, route: seq<Addr>, run: seq<Snap>, end: Snap) {
    && MergesSoFar(size, route, run)
    && if |run| == |route| + 1 then end == run[|route|]
       else
         var n := |run| - 1;
         !Mergeable(run[n], size, Over(route, n), Under(route, n)) && PutBackAt(run[n], end, Under(route, n))
  }

  /** The root is lifted exactly as often as it has a single child. */
  ghost predicate Lifts(run: seq<Snap>) {
    && run != [] && (forall i :: 0 <= i < |run| - 1 ==> Lifted(run[i], run[i + 1]))
    && var s := run[|run| - 1]; ROOT in s.nodes && (s.depth == 0 || s.nodes[ROOT].keyCount != 1)
  }

  /** A delete that was accepted, in a tree with inner nodes: after the merges, if there were
      any, the root is lifted. */
  ghost predicate DeleteRun(s: Snap, s': Snap, size: nat, key: Key, route: seq<Addr>, merges: seq<Snap>,
                            lifts: seq<Snap>)
  {
    && IsPath(s.shape, route) && route != [] && |route| == s.depth && merges != [] && lifts != []
    && LeafDelete(s, merges[0], Last(route), key)
    && Merges(size, route, merges, lifts[0])
    && (if |merges| == 1 then lifts == [s'] else Lifts(lifts) && lifts[|lifts| - 1] == s')
  }

  // ---- how the steps come about ----

  lemma MergedIs(s: Snap, s': Snap, p: Addr, a: Addr, b: Addr, left: Addr, right: Addr, union: Node)
    requires Partner(s.shape, p, a, b) && a in s.nodes && b in s.nodes && p in s.nodes
    requires (left, right) == if s.shape[a].hi == s.shape[b].lo then (a, b) else (b, a)
    requires s'.shape == Joined(s.shape, p, a, b) && s'.depth == s.depth && Resettled(s'.nodes, s.shape, p, a, b)
    requires p in s'.nodes && p != left && p != right && left != right
    requires s'.nodes == (s.nodes - {left})[right := union][p := s'.nodes[p]]
    requires union.Map() == s.nodes[left].Map() + s.nodes[right].Map() && Clean(union.All())
    ensures MergedTo(s, s', p, a, b)
  {
    hide Partner, Joined, Resettled, Clean, View;
  }

  lemma NotPut(s: Snap, a: Addr)
    requires a in s.nodes && !(32 * |s.nodes[a].All()| < s.nodes[a].size / 3)
    ensures PutBackAt(s, s, a)
  {}

  lemma PutBackIs(s: Snap, s': Snap, a: Addr, n: Node)
    requires a in s.nodes && s' == s.(nodes := s.nodes[a := n])
    requires 32 * |s.nodes[a].All()| < s.nodes[a].size / 3 && n.All() == Compacted(s.nodes[a].All())
    ensures PutBackAt(s, s', a)
  {}

  lemma LeafDeleteIs(s: Snap, s': Snap, leaf: Addr, key: Key, ok: bool, n: Node)
    requires CoversKey(s.shape, leaf, key) && leaf in s.nodes && s.shape[leaf].m == s.nodes[leaf].Map()
    requires ok == HasLive(s.nodes[leaf].All(), key)
    requires if ok then AfterDelete(s.nodes[leaf], key, n) else n == s.nodes[leaf]
    requires s'.nodes == s.nodes[leaf := n] && s'.shape == s.shape[leaf := s.shape[leaf].(m := n.Map())]
    requires s'.depth == s.depth
    ensures if ok then LeafDelete(s, s', leaf, key) else s' == s
  {
    hide AfterDelete, HasLive, View;
  }

  lemma RouteEnd(path: seq<Addr>, leaf: Addr)
    ensures var route := path + [leaf];
            Over(route, 0) == Last(path) && Under(route, 0) == leaf == Last(route) && route[..|path|] == path
  {}

  lemma RouteAt(path: seq<Addr>, route: seq<Addr>, i: nat)
    requires |route| == |path| + 1 && route[..|path|] == path && 1 <= i <= |path|
    ensures Over(route, i) == Last(path[..|path| - i]) && Under(route, i) == path[|path| - i]
  {
    assert route[..|path|][..|path| - i] == route[..|path| - i];
  }

  lemma MergesOn(size: nat, route: seq<Addr>, run: seq<Snap>, s: Snap)
    requires MergesSoFar(size, route, run) && |run| <= |route|
    requires MergeStep(run[|run| - 1], s, size, Over(route, |run| - 1), Under(route, |run| - 1))
    ensures MergesSoFar(size, route, run + [s])
  {
    hide MergeStep;
  }

  lemma MergesStop(size: nat, route: seq<Addr>, run: seq<Snap>, end: Snap)
    requires MergesSoFar(size, route, run) && |run| <= |route|
    requires !Mergeable(run[|run| - 1], size, Over(route, |run| - 1), Under(route, |run| - 1))
    requires PutBackAt(run[|run| - 1], end, Under(route, |run| - 1))
    ensures Merges(size, route, run, end)
  {}

  lemma MergesAll(size: nat, route: seq<Addr>, run: seq<Snap>)
    requires MergesSoFar(size, route, run) && |run| == |route| + 1
    ensures Merges(size, route, run, run[|route|])
  {}

  // ---- what follows ----

  /** Every merge and every lift takes one node away, and the first merge is decided by the
      leaf as the delete left it; after a merge the root has more than one child. */
  lemma DeleteCounts(s: Snap, s': Snap, size: nat, key: Key, route: seq<Addr>, merges: seq<Snap>, lifts: seq<Snap>)
    requires DeleteRun(s, s', size, key, route, merges, lifts) && ROOT in s.nodes
    ensures merges != [] && lifts != [] && (|lifts| > 1 ==> |merges| > 1)
    ensures s'.depth + |lifts| - 1 == s.depth
    ensures |s'.nodes| + (|merges| - 1) + (|lifts| - 1) == |s.nodes|
    ensures |merges| > 1 <==> Mergeable(merges[0], size, Over(route, 0), Under(route, 0))
    ensures |merges| > 1 ==> ROOT in s'.nodes && (s'.depth == 0 || s'.nodes[ROOT].keyCount != 1)
  {
    hide LeafDelete, Mergeable, PutBackAt, Lifted, MergeStep;
    LeafKeeps(s, merges[0], Last(route), key);
    MergesCount(size, route, merges, |merges| - 1);
    if |merges| <= |route| { PutBackKeeps(merges[|merges| - 1], lifts[0], Under(route, |merges| - 1)); }
    if |merges| > 1 {
      assert MergeStep(merges[0], merges[1], size, Over(route, 0), Under(route, 0));
      MergeNeeds(merges[0], merges[1], size, Over(route, 0), Under(route, 0));
      LiftsCount(lifts, |lifts| - 1);
    }
  }

  lemma LeafKeeps(s: Snap, s': Snap, leaf: Addr, key: Key)
    requires LeafDelete(s, s', leaf, key)
    ensures |s'.nodes| == |s.nodes| && s'.depth == s.depth
  {
    SameCount(s'.nodes, s.nodes);
  }

  lemma PutBackKeeps(s: Snap, s': Snap, a: Addr)
    requires PutBackAt(s, s', a)
    ensures |s'.nodes| == |s.nodes| && s'.depth == s.depth
  {
    SameCount(s'.nodes, s.nodes);
  }

  lemma SameCount(m: Nodes, n: Nodes)
    requires m.Keys == n.Keys
    ensures |m| == |n|
  {
    assert |m| == |m.Keys| && |n| == |n.Keys|;
  }

  lemma OneFewer(m: Nodes, n: Nodes, a: Addr)
    requires a in n && m.Keys == n.Keys - {a}
    ensures |m| + 1 == |n|
  {
    assert |m| == |m.Keys| && |n| == |n.Keys|;
  }

  lemma MergeNeeds(s: Snap, s': Snap, size: nat, p: Addr, a: Addr)
    requires MergeStep(s, s', size, p, a)
    ensures Mergeable(s, size, p, a) && |s'.nodes| + 1 == |s.nodes| && s'.depth == s.depth
  {
    var b: Addr :| CanTake(s.nodes, s.shape, size, p, a, b) && MergedTo(s, s', p, a, b);
    OneFewer(s'.nodes, s.nodes, if s.shape[a].hi == s.shape[b].lo then a else b);
  }

  lemma {:induction false} MergesCount(size: nat, route: seq<Addr>, run: seq<Snap>, n: nat)
    requires n < |run| <= |route| + 1
    requires forall i :: 0 <= i < |run| - 1 ==> MergeStep(run[i], run[i + 1], size, Over(route, i), Under(route, i))
    ensures |run[n].nodes| + n == |run[0].nodes| && run[n].depth == run[0].depth
  {
    hide MergeStep;
    if n > 0 {
      MergesCount(size, route, run, n - 1);
      assert MergeStep(run[n - 1], run[n], size, Over(route, n - 1), Under(route, n - 1));
      MergeNeeds(run[n - 1], run[n], size, Over(route, n - 1), Under(route, n - 1));
    }
  }

  lemma LiftCounts(s: Snap, s': Snap)
    requires Lifted(s, s')
    ensures |s'.nodes| + 1 == |s.nodes| && s'.depth + 1 == s.depth
  {
    OneFewer(s'.nodes, s.nodes, s.nodes[ROOT].All()[0].val.paddr);
  }

  lemma {:induction false} LiftsCount(run: seq<Snap>, n: nat)
    requires Lifts(run) && n < |run|
    ensures |run[n].nodes| + n == |run[0].nodes| && run[n].depth + n == run[0].depth
  {
    hide Lifted;
    if n > 0 {
      LiftsCount(run, n - 1);
      assert Lifted(run[n - 1], run[n]);
      LiftCounts(run[n - 1], run[n]);
    }
  }

  // ---- inserting ----

  /** A node cut for an entry it has to take: where, and which addresses the halves have. */
  datatype Cut = Cut(key: Key, value: BchVal, mid: nat, left: Addr, right: Addr)

  /** Node number i of a route; above all of them the root. */
  function OnRoute(route: seq<Addr>, i: nat): Addr {
    if i < |route| then Under(route, i) else ROOT
  }

  /** The entry that node number i has to take: the one inserted, further up the routing entry
      of the right half cut off below. */
  ghost function Wanted(s: Snap, route: seq<Addr>, cuts: seq<Cut>, key: Key, value: BchVal, i: nat): (Key, BchVal) {
    if 0 < i <= |cuts| && OnRoute(route, i - 1) in s.nodes &&
       cuts[i - 1].mid < |Compacted(s.nodes[OnRoute(route, i - 1)].All())|
    then (Compacted(s.nodes[OnRoute(route, i - 1)].All())[cuts[i - 1].mid].key, BchVal(cuts[i - 1].right, 0))
    else (key, value)
  }

  /** Node number i is cut: it does not take one more record, or it is a leaf below the root
      that is over the threshold. Only a root above other nodes gives up its search array. */
  ghost predicate MustCut(s: Snap, route: seq<Addr>, i: nat)
    requires OnRoute(route, i) in s.nodes
  {
    var n := s.nodes[OnRoute(route, i)];
    || !Takes(n, i < |route| || route == [])
    || (i == 0 && route != [] && 32 * |n.All()| / 8 > (n.size / 8) * 3 / 4)
  }

  /** Cut number i has been made: the halves stand where it says, the left one of a node below
      the root in its place. */
  ghost predicate CutDone(s: Snap, nodes: Nodes, route: seq<Addr>, cuts: seq<Cut>, key: Key, value: BchVal, i: nat)
    requires i < |cuts|
  {
    var a, c := OnRoute(route, i), cuts[i];
    && a in s.nodes && MustCut(s, route, i) && (c.key, c.value) == Wanted(s, route, cuts, key, value, i)
    && c.left in nodes && c.right in nodes && c.right !in s.nodes
    && (if i < |route| then c.left == a else c.left !in s.nodes && c.left != c.right)
    && CutInto(s.nodes[a], c.key, c.value, c.mid, nodes[c.left], nodes[c.right])
  }

  function Rights(cuts: seq<Cut>): set<Addr> { set c | c in cuts :: c.right }

  ghost predicate CutsDone(s: Snap, nodes: Nodes, route: seq<Addr>, cuts: seq<Cut>, key: Key, value: BchVal) {
    && |cuts| <= |route| + 1
    && (forall i :: 0 <= i < |cuts| ==> CutDone(s, nodes, route, cuts, key, value, i))
    && (forall i, j :: 0 <= i < j < |cuts| ==> cuts[i].right != cuts[j].right)
  }

  /** No node but those cut, and the one after them, has changed. */
  ghost predicate Untouched(s: Snap, nodes: Nodes, route: seq<Addr>, n: nat) {
    forall x :: x in s.nodes && (forall i :: 0 <= i < n ==> OnRoute(route, i) != x) ==>
                  x in nodes && nodes[x] == s.nodes[x]
  }

  /** An insert: nodes are cut from the leaf upwards exactly as long as they must be; the next
      one takes the last entry, or a new root stands above the halves of the old one. */
  ghost predicate InsertRun(s: Snap, s': Snap, key: Key, value: BchVal, route: seq<Addr>, cuts: seq<Cut>) {
    var (k, v) := Wanted(s, route, cuts, key, value, |cuts|);
    && IsPath(s.shape, route) && |route| == s.depth && CoversKey(s.shape, Last(route), key)
    && CutsDone(s, s'.nodes, route, cuts, key, value) && Untouched(s, s'.nodes, route, |cuts| + 1)
    && if |cuts| <= |route| then
         var a := OnRoute(route, |cuts|);
         && a in s.nodes && a in s'.nodes && !MustCut(s, route, |cuts|) && Added(s.nodes[a], k, v, s'.nodes[a])
         && s'.nodes.Keys == s.nodes.Keys + Rights(cuts) && s'.depth == s.depth
       else
         var c := cuts[|route|];
         && ROOT in s'.nodes && s'.nodes[ROOT].All() == [Rec(MIN_KEY, Normal, BchVal(c.left, 0)), Rec(k, Normal, v)]
         && s'.nodes.Keys == s.nodes.Keys + Rights(cuts) + {c.left} && s'.depth == s.depth + 1
         && c.left !in Rights(cuts)
  }

  /** The cuts made on the way up. */
  ghost predicate Cutting(s: Snap, nodes: Nodes, route: seq<Addr>, cuts: seq<Cut>, key: Key, value: BchVal) {
    && CutsDone(s, nodes, route, cuts, key, value) && Untouched(s, nodes, route, |cuts|)
    && nodes.Keys == s.nodes.Keys + Rights(cuts)
  }

  /** The nodes of a route are different ones. */
  ghost predicate RouteApart(s: Snap, route: seq<Addr>) {
    && (forall i :: 0 <= i <= |route| ==> OnRoute(route, i) in s.nodes)
    && (forall i, j :: 0 <= i < j <= |route| ==> OnRoute(route, i) != OnRoute(route, j))
  }

  lemma {:induction false} RouteLevel(f: Forest, depth: nat, route: seq<Addr>, i: nat)
    requires Inv(f, depth) && IsPath(f, route) && |route| == depth && i < |route|
    ensures route[i] in f && f[route[i]].level + i + 1 == depth
  {
    assert Step(f, route, i);
    if i > 0 { RouteLevel(f, depth, route, i - 1); }
  }

  lemma RouteIsApart(s: Snap, route: seq<Addr>)
    requires Inv(s.shape, s.depth) && IsPath(s.shape, route) && |route| == s.depth && s.nodes.Keys == s.shape.Keys
    ensures RouteApart(s, route)
  {
    forall i | 0 <= i < |route| ensures Under(route, i) in s.shape && s.shape[Under(route, i)].level == i {
      RouteLevel(s.shape, s.depth, route, |route| - 1 - i);
    }
    assert ROOT in s.shape && s.shape[ROOT].level == s.depth;
  }

  lemma NoCuts(s: Snap, route: seq<Addr>, key: Key, value: BchVal)
    ensures Cutting(s, s.nodes, route, [], key, value)
    ensures Wanted(s, route, [], key, value, 0) == (key, value)
  {}

  /** One more cut. */
  lemma CutOn(s: Snap, nodes: Nodes, nodes': Nodes, route: seq<Addr>, cuts: seq<Cut>, key: Key, value: BchVal, c: Cut)
    requires Cutting(s, nodes, route, cuts, key, value) && RouteApart(s, route) && |cuts| < |route|
    requires var a := OnRoute(route, |cuts|);
             && MustCut(s, route, |cuts|) && (c.key, c.value) == Wanted(s, route, cuts, key, value, |cuts|)
             && c.left == a && c.right !in nodes && a in nodes && a in nodes' && c.right in nodes'
             && CutInto(s.nodes[a], c.key, c.value, c.mid, nodes'[a], nodes'[c.right])
             && nodes' == nodes[a := nodes'[a]][c.right := nodes'[c.right]]
    ensures Cutting(s, nodes', route, cuts + [c], key, value)
    ensures Wanted(s, route, cuts + [c], key, value, |cuts| + 1) ==
            (Compacted(s.nodes[c.left].All())[c.mid].key, BchVal(c.right, 0))
  {
    hide MustCut, Compacted, CutInto, CutDone, Wanted, Untouched, Rights;
    var a, cuts' := OnRoute(route, |cuts|), cuts + [c];
    CutBounds(s.nodes[a], c.key, c.value, c.mid, nodes'[a], nodes'[c.right]);
    RightsOn(cuts, c);
    CutsKept(s, nodes, nodes', route, cuts, key, value, c);
    WantedSame(s, route, cuts, c, key, value, |cuts|);
    ThisCut(s, nodes', route, cuts', key, value);
    NextWanted(s, route, cuts, c, key, value);
    UntouchedOn(s, nodes, nodes', route, |cuts|);
  }

  lemma RightsOn(cuts: seq<Cut>, c: Cut)
    ensures Rights(cuts + [c]) == Rights(cuts) + {c.right}
    ensures forall i :: 0 <= i < |cuts| ==> cuts[i].right in Rights(cuts)
  {}

  lemma UntouchedOn(s: Snap, nodes: Nodes, nodes': Nodes, route: seq<Addr>, n: nat)
    requires Untouched(s, nodes, route, n)
    requires forall x :: x in s.nodes && x in nodes && x != OnRoute(route, n) ==> x in nodes' && nodes'[x] == nodes[x]
    ensures Untouched(s, nodes', route, n + 1)
  {}

  lemma NextWanted(s: Snap, route: seq<Addr>, cuts: seq<Cut>, c: Cut, key: Key, value: BchVal)
    requires OnRoute(route, |cuts|) in s.nodes && c.mid < |Compacted(s.nodes[OnRoute(route, |cuts|)].All())|
    ensures Wanted(s, route, cuts + [c], key, value, |cuts| + 1) ==
            (Compacted(s.nodes[OnRoute(route, |cuts|)].All())[c.mid].key, BchVal(c.right, 0))
  {}

  /** The cuts made before stand, and their right halves are other nodes. */
  lemma CutsKept(s: Snap, nodes: Nodes, nodes': Nodes, route: seq<Addr>, cuts: seq<Cut>, key: Key, value: BchVal,
                 c: Cut)
    requires Cutting(s, nodes, route, cuts, key, value) && RouteApart(s, route)
    requires |cuts| <= |route| && c.right !in nodes
    requires forall x :: x in nodes && x != OnRoute(route, |cuts|) ==> x in nodes' && nodes'[x] == nodes[x]
    ensures forall i :: 0 <= i < |cuts| ==> CutDone(s, nodes', route, cuts + [c], key, value, i)
    ensures forall i :: 0 <= i < |cuts| ==> cuts[i].right != c.right
  {
    hide MustCut, Compacted, CutInto, Wanted;
    forall i | 0 <= i < |cuts|
      ensures CutDone(s, nodes', route, cuts + [c], key, value, i) && cuts[i].right != c.right
    {
      WantedSame(s, route, cuts, c, key, value, i);
      assert CutDone(s, nodes, route, cuts, key, value, i);
    }
  }

  lemma ThisCut(s: Snap, nodes: Nodes, route: seq<Addr>, cuts: seq<Cut>, key: Key, value: BchVal)
    requires cuts != [] && OnRoute(route, |cuts| - 1) in s.nodes
    requires var n := |cuts| - 1; var a, c := OnRoute(route, n), cuts[n];
             && MustCut(s, route, n) && (c.key, c.value) == Wanted(s, route, cuts, key, value, n)
             && c.left in nodes && c.right in nodes && c.right !in s.nodes
             && (if n < |route| then c.left == a else c.left !in s.nodes && c.left != c.right)
             && CutInto(s.nodes[a], c.key, c.value, c.mid, nodes[c.left], nodes[c.right])
    ensures CutDone(s, nodes, route, cuts, key, value, |cuts| - 1)
  {}

  lemma CutBounds(n: Node, k: Key, v: BchVal, mid: nat, left: Node, right: Node)
    requires CutInto(n, k, v, mid, left, right)
    ensures mid < |Compacted(n.All())|
  {}

  lemma WantedSame(s: Snap, route: seq<Addr>, cuts: seq<Cut>, c: Cut, key: Key, value: BchVal, i: nat)
    requires i <= |cuts|
    ensures Wanted(s, route, cuts + [c], key, value, i) == Wanted(s, route, cuts, key, value, i)
  {}

  /** The next node takes the entry. */
  lemma InsertTakes(s: Snap, nodes: Nodes, s': Snap, route: seq<Addr>, cuts: seq<Cut>, key: Key, value: BchVal)
    requires Cutting(s, nodes, route, cuts, key, value) && RouteApart(s, route) && |cuts| <= |route|
    requires IsPath(s.shape, route) && |route| == s.depth == s'.depth && CoversKey(s.shape, Last(route), key)
    requires var a, (k, v) := OnRoute(route, |cuts|), Wanted(s, route, cuts, key, value, |cuts|);
             && !MustCut(s, route, |cuts|) && a in nodes && a in s'.nodes && Added(s.nodes[a], k, v, s'.nodes[a])
             && s'.nodes == nodes[a := s'.nodes[a]]
    ensures InsertRun(s, s', key, value, route, cuts)
  {
    hide MustCut, Compacted, CutInto, Added, IsPath, Untouched, Wanted;
    forall i | 0 <= i < |cuts| ensures CutDone(s, s'.nodes, route, cuts, key, value, i) {
      assert CutDone(s, nodes, route, cuts, key, value, i);
    }
    assert OnRoute(route, |cuts|) in s.nodes;
    UntouchedOn(s, nodes, s'.nodes, route, |cuts|);
  }

  /** The root is cut as well, and a new one stands above its halves. */
  lemma InsertGrows(s: Snap, nodes: Nodes, s': Snap, route: seq<Addr>, cuts: seq<Cut>, key: Key, value: BchVal, c: Cut)
    requires Cutting(s, nodes, route, cuts, key, value) && RouteApart(s, route) && |cuts| == |route|
    requires IsPath(s.shape, route) && |route| == s.depth && s'.depth == s.depth + 1
    requires CoversKey(s.shape, Last(route), key)
    requires var l, r := c.left, c.right;
             && MustCut(s, route, |cuts|) && (c.key, c.value) == Wanted(s, route, cuts, key, value, |cuts|)
             && l !in nodes && r !in nodes && l != r && l in s'.nodes && r in s'.nodes && ROOT in s'.nodes
             && CutInto(s.nodes[ROOT], c.key, c.value, c.mid, s'.nodes[l], s'.nodes[r])
             && s'.nodes == nodes[l := s'.nodes[l]][r := s'.nodes[r]][ROOT := s'.nodes[ROOT]]
             && s'.nodes[ROOT].All() ==
                [Rec(MIN_KEY, Normal, BchVal(l, 0)),
                 Rec(Compacted(s.nodes[ROOT].All())[c.mid].key, Normal, BchVal(r, 0))]
    ensures InsertRun(s, s', key, value, route, cuts + [c])
  {
    hide MustCut, Compacted, CutInto, CutDone, IsPath, Wanted, Untouched, Rights;
    var cuts' := cuts + [c];
    assert OnRoute(route, |route|) == ROOT && ROOT in s.nodes && ROOT in nodes;
    RightsOn(cuts, c);
    CutBounds(s.nodes[ROOT], c.key, c.value, c.mid, s'.nodes[c.left], s'.nodes[c.right]);
    UntouchedOn(s, nodes, s'.nodes, route, |route|);
    UntouchedOn(s, s'.nodes, s'.nodes, route, |route| + 1);
    CutsKept(s, nodes, s'.nodes, route, cuts, key, value, c);
    WantedSame(s, route, cuts, c, key, value, |cuts|);
    ThisCut(s, s'.nodes, route, cuts', key, value);
    NextWanted(s, route, cuts, c, key, value);
    GrownKeys(s.nodes, nodes, s'.nodes, Rights(cuts), c.left, c.right);
  }

  lemma GrownKeys(m: Nodes, n: Nodes, n': Nodes, rights: set<Addr>, l: Addr, r: Addr)
    requires n.Keys == m.Keys + rights && ROOT in m && l in n' && r in n' && ROOT in n'
    requires n' == n[l := n'[l]][r := n'[r]][ROOT := n'[ROOT]]
    ensures n'.Keys == m.Keys + (rights + {r}) + {l}
  {}

  /** A node was cut into itself and a new one. */
  ghost predicate NodeCut(nodes: Nodes, nodes': Nodes, c: Cut, med: Key) {
    && c.left in nodes && c.left in nodes' && c.right in nodes' && c.right !in nodes
    && CutInto(nodes[c.left], c.key, c.value, c.mid, nodes'[c.left], nodes'[c.right])
    && nodes' == nodes[c.left := nodes'[c.left]][c.right := nodes'[c.right]]
    && med == Compacted(nodes[c.left].All())[c.mid].key
  }

  /** The root was cut and has given way to a new one above its halves. */
  ghost predicate RootCut(nodes: Nodes, nodes': Nodes, c: Cut) {
    && ROOT in nodes && ROOT in nodes' && c.left in nodes' && c.right in nodes'
    && c.left !in nodes && c.right !in nodes && c.left != c.right && c.left != ROOT && c.right != ROOT
    && CutInto(nodes[ROOT], c.key, c.value, c.mid, nodes'[c.left], nodes'[c.right])
    && nodes' == nodes[c.left := nodes'[c.left]][c.right := nodes'[c.right]][ROOT := nodes'[ROOT]]
    && nodes'[ROOT].All() ==
       [Rec(MIN_KEY, Normal, BchVal(c.left, 0)),
        Rec(Compacted(nodes[ROOT].All())[c.mid].key, Normal, BchVal(c.right, 0))]
  }

  /** The route of an insert: the inner nodes of the path, and the leaf. */
  ghost predicate OnTheWay(s: Snap, route: seq<Addr>, path: seq<Addr>, key: Key) {
    && RouteApart(s, route) && IsPath(s.shape, route) && |route| == s.depth && CoversKey(s.shape, Last(route), key)
    && if route == [] then path == [] else |route| == |path| + 1 && route[..|path|] == path
  }

  lemma WayLength(s: Snap, route: seq<Addr>, path: seq<Addr>, key: Key)
    requires OnTheWay(s, route, path, key) && route != []
    ensures |route| == |path| + 1
  {}

  lemma WayKnown(s: Snap, route: seq<Addr>, path: seq<Addr>, leaf: Addr, key: Key)
    requires Inv(s.shape, s.depth) && s.nodes.Keys == s.shape.Keys
    requires IsPath(s.shape, route) && route == path + [leaf] && |route| == s.depth && CoversKey(s.shape, leaf, key)
    ensures OnTheWay(s, route, path, key)
  {
    RouteIsApart(s, route);
  }

  lemma RootOnly(s: Snap, key: Key)
    requires Inv(s.shape, s.depth) && s.depth == 0 && s.nodes.Keys == s.shape.Keys
    ensures OnTheWay(s, [], [], key)
  {
    RouteIsApart(s, []);
  }

  /** The node next in turn stands as it did. */
  lemma OnTheWayAt(s: Snap, nodes: Nodes, route: seq<Addr>, path: seq<Addr>, cuts: seq<Cut>, key: Key, value: BchVal)
    requires OnTheWay(s, route, path, key) && Cutting(s, nodes, route, cuts, key, value) && |cuts| <= |route|
    ensures var a := OnRoute(route, |cuts|); a in s.nodes && a in nodes && nodes[a] == s.nodes[a]
    ensures OnRoute(route, |cuts|) ==
            if |cuts| == |route| then ROOT else if cuts == [] then Last(route) else path[|path| - |cuts|]
  {
    hide CutsDone, IsPath;
    NotCutYet(s, nodes, route, |cuts|);
    if cuts != [] && |cuts| < |route| { RouteAt(path, route, |cuts|); }
  }

  lemma NotCutYet(s: Snap, nodes: Nodes, route: seq<Addr>, n: nat)
    requires RouteApart(s, route) && Untouched(s, nodes, route, n) && n <= |route|
    ensures var a := OnRoute(route, n); a in s.nodes && a in nodes && nodes[a] == s.nodes[a]
  {}

  lemma EndTakes(s: Snap, nodes: Nodes, s': Snap, route: seq<Addr>, path: seq<Addr>, cuts: seq<Cut>, key: Key,
                 value: BchVal, keepAux: bool)
    requires OnTheWay(s, route, path, key) && Cutting(s, nodes, route, cuts, key, value) && |cuts| <= |route|
    requires keepAux <==> |cuts| < |route| || route == []
    requires s'.depth == s.depth
    requires var a, (k, v) := OnRoute(route, |cuts|), Wanted(s, route, cuts, key, value, |cuts|);
             && a in nodes && a in s'.nodes && s'.nodes == nodes[a := s'.nodes[a]]
             && Takes(nodes[a], keepAux) && Added(nodes[a], k, v, s'.nodes[a])
             && (cuts == [] && route != [] ==> !nodes[a].ShouldSplit())
    ensures InsertRun(s, s', key, value, route, cuts)
  {
    OnTheWayAt(s, nodes, route, path, cuts, key, value);
    hide Takes, Added, Cutting, InsertRun, IsPath, Wanted;
    InsertTakes(s, nodes, s', route, cuts, key, value);
  }

  /** The root did not take the entry, was compacted, and then cut. */
  lemma EndGrows(s: Snap, nodes: Nodes, between: Nodes, s': Snap, route: seq<Addr>, path: seq<Addr>, cuts: seq<Cut>,
                 key: Key, value: BchVal, c: Cut)
    requires OnTheWay(s, route, path, key) && Cutting(s, nodes, route, cuts, key, value) && |cuts| == |route|
    requires s'.depth == s.depth + 1 && RootCut(between, s'.nodes, c)
    requires (c.key, c.value) == Wanted(s, route, cuts, key, value, |cuts|)
    requires ROOT in nodes && ROOT in between && between == nodes[ROOT := between[ROOT]]
    requires !Takes(nodes[ROOT], route == []) && between[ROOT].All() == Compacted(nodes[ROOT].All())
    ensures InsertRun(s, s', key, value, route, cuts + [c])
  {
    OnTheWayAt(s, nodes, route, path, cuts, key, value);
    hide Takes, Cutting, InsertRun, IsPath, Wanted, Compacted, CutInto, RouteApart;
    CompactTwice(nodes[ROOT].All());
    CutSame(between[ROOT], nodes[ROOT], c, s'.nodes[c.left], s'.nodes[c.right]);
    GrownTwice(nodes, between, s'.nodes, c.left, c.right);
    InsertGrows(s, nodes, s', route, cuts, key, value, c);
  }

  lemma CutSame(m: Node, n: Node, c: Cut, left: Node, right: Node)
    requires Compacted(m.All()) == Compacted(n.All()) && CutInto(m, c.key, c.value, c.mid, left, right)
    ensures CutInto(n, c.key, c.value, c.mid, left, right)
  {}

  lemma ReplacedTwice(nodes: Nodes, between: Nodes, nodes': Nodes, a: Addr, r: Addr)
    requires a in nodes && a in between && a in nodes' && r in nodes' && between == nodes[a := between[a]]
    requires nodes' == between[a := nodes'[a]][r := nodes'[r]]
    ensures nodes' == nodes[a := nodes'[a]][r := nodes'[r]]
  {}

  lemma GrownTwice(nodes: Nodes, between: Nodes, nodes': Nodes, l: Addr, r: Addr)
    requires ROOT in nodes && ROOT in between && ROOT in nodes' && l in nodes' && r in nodes'
    requires between == nodes[ROOT := between[ROOT]] && l != ROOT && r != ROOT
    requires nodes' == between[l := nodes'[l]][r := nodes'[r]][ROOT := nodes'[ROOT]]
    ensures nodes' == nodes[l := nodes'[l]][r := nodes'[r]][ROOT := nodes'[ROOT]]
  {}

  /** A node of the route did not take the entry or was over the threshold, and was cut,
      compacted before or not. */
  lemma CutFurther(s: Snap, nodes: Nodes, between: Nodes, nodes': Nodes, route: seq<Addr>, path: seq<Addr>,
                   cuts: seq<Cut>, key: Key, value: BchVal, c: Cut, med: Key)
    requires OnTheWay(s, route, path, key) && Cutting(s, nodes, route, cuts, key, value) && |cuts| < |route|
    requires c.left == OnRoute(route, |cuts|) && (c.key, c.value) == Wanted(s, route, cuts, key, value, |cuts|)
    requires c.left in nodes && c.left in between && between == nodes[c.left := between[c.left]]
    requires || (between == nodes && cuts == [] && nodes[c.left].ShouldSplit())
             || (!Takes(nodes[c.left], true) && between[c.left].All() == Compacted(nodes[c.left].All()))
    requires NodeCut(between, nodes', c, med)
    ensures Cutting(s, nodes', route, cuts + [c], key, value)
    ensures Wanted(s, route, cuts + [c], key, value, |cuts| + 1) == (med, BchVal(c.right, 0))
  {
    OnTheWayAt(s, nodes, route, path, cuts, key, value);
    hide Takes, Cutting, IsPath, Wanted, Compacted, CutInto, RouteApart;
    CompactTwice(nodes[c.left].All());
    CutSame(between[c.left], nodes[c.left], c, nodes'[c.left], nodes'[c.right]);
    ReplacedTwice(nodes, between, nodes', c.left, c.right);
    CutOn(s, nodes, nodes', route, cuts, key, value, c);
  }

  // ---- what follows ----

  /** A node is cut exactly if it must be, and both halves get at least a fifth of its keys. */
  lemma InsertShares(s: Snap, s': Snap, key: Key, value: BchVal, route: seq<Addr>, cuts: seq<Cut>)
    requires InsertRun(s, s', key, value, route, cuts) && RouteApart(s, route)
    ensures forall i :: 0 <= i <= |route| && i <= |cuts| ==> (i < |cuts| <==> MustCut(s, route, i))
    ensures forall i :: 0 <= i < |cuts| ==> CutShares(s, s', route, cuts, i)
  {
    hide MustCut, CutInto, Added, CutDone, Wanted, Untouched, CutShares;
    forall i | 0 <= i < |cuts| ensures MustCut(s, route, i) && CutShares(s, s', route, cuts, i) {
      assert CutDone(s, s'.nodes, route, cuts, key, value, i);
      OneCut(s, s', key, value, route, cuts, i);
    }
  }

  /** Every cut makes one node more, and so does a new root. */
  lemma InsertCounts(s: Snap, s': Snap, key: Key, value: BchVal, route: seq<Addr>, cuts: seq<Cut>)
    requires InsertRun(s, s', key, value, route, cuts)
    ensures |s'.nodes| == |s.nodes| + |cuts| + (s'.depth - s.depth)
  {
    hide MustCut, Added, CutsDone, Wanted, Untouched, Rights, RouteApart;
    RightsNew(s, s'.nodes, route, cuts, key, value);
    if |cuts| > |route| { LastCut(s, s'.nodes, route, cuts, key, value); }
    KeysCount(s, s', cuts, if |cuts| <= |route| then {} else {cuts[|route|].left});
  }

  lemma RightsNew(s: Snap, nodes: Nodes, route: seq<Addr>, cuts: seq<Cut>, key: Key, value: BchVal)
    requires CutsDone(s, nodes, route, cuts, key, value)
    ensures Rights(cuts) !! s.nodes.Keys && |Rights(cuts)| == |cuts| <= |route| + 1
  {
    hide MustCut, CutInto, Wanted;
    forall i | 0 <= i < |cuts| ensures cuts[i].right !in s.nodes {
      assert CutDone(s, nodes, route, cuts, key, value, i);
    }
    RightsCount(cuts, |cuts|);
    assert cuts[..|cuts|] == cuts;
  }

  /** Both halves of a cut have at least a fifth of the keys, and all of them and the entry. */
  ghost predicate CutShares(s: Snap, s': Snap, route: seq<Addr>, cuts: seq<Cut>, i: nat)
    requires i < |cuts|
  {
    && OnRoute(route, i) in s.nodes && cuts[i].left in s'.nodes && cuts[i].right in s'.nodes
    && var n := |s.nodes[OnRoute(route, i)].Map()|;
       var l, r := |s'.nodes[cuts[i].left].All()|, |s'.nodes[cuts[i].right].All()|;
       n / 5 <= l && n / 5 <= r && l + r == n + 1
  }

  lemma OneCut(s: Snap, s': Snap, key: Key, value: BchVal, route: seq<Addr>, cuts: seq<Cut>, i: nat)
    requires i < |cuts| && CutDone(s, s'.nodes, route, cuts, key, value, i)
    ensures MustCut(s, route, i) && CutShares(s, s', route, cuts, i) && cuts[i].right !in s.nodes
  {
    hide MustCut, CutInto, Wanted;
    CutSizes(s.nodes[OnRoute(route, i)], cuts[i], s'.nodes[cuts[i].left], s'.nodes[cuts[i].right]);
  }

  lemma LastCut(s: Snap, nodes: Nodes, route: seq<Addr>, cuts: seq<Cut>, key: Key, value: BchVal)
    requires |cuts| == |route| + 1 && CutsDone(s, nodes, route, cuts, key, value)
    ensures cuts[|route|].left !in s.nodes
  {
    assert CutDone(s, nodes, route, cuts, key, value, |route|);
  }

  lemma CutSizes(n: Node, c: Cut, left: Node, right: Node)
    requires CutInto(n, c.key, c.value, c.mid, left, right)
    ensures |n.Map()| / 5 <= |left.All()| && |n.Map()| / 5 <= |right.All()|
    ensures |left.All()| + |right.All()| == |n.Map()| + 1
  {
    hide CutAt, Compacted, View;
    CompactKeepsView(n.All());
  }

  lemma {:induction false} RightsCount(cuts: seq<Cut>, n: nat)
    requires n <= |cuts| && forall i, j :: 0 <= i < j < |cuts| ==> cuts[i].right != cuts[j].right
    ensures |Rights(cuts[..n])| == n
  {
    if n > 0 {
      RightsCount(cuts, n - 1);
      assert cuts[..n] == cuts[..n - 1] + [cuts[n - 1]];
      assert Rights(cuts[..n]) == Rights(cuts[..n - 1]) + {cuts[n - 1].right};
    }
  }

  lemma KeysCount(s: Snap, s': Snap, cuts: seq<Cut>, more: set<Addr>)
    requires s'.nodes.Keys == s.nodes.Keys + Rights(cuts) + more
    requires Rights(cuts) !! s.nodes.Keys && more !! s.nodes.Keys && more !! Rights(cuts)
    ensures |s'.nodes| == |s.nodes| + |Rights(cuts)| + |more|
  {
    assert |s'.nodes| == |s'.nodes.Keys| && |s.nodes| == |s.nodes.Keys|;
  }
}
