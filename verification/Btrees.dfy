/** The B-tree: a root node and a cache of nodes by address, changed in place by insert
    and delete. The ghost shape records each node's level, key interval and map. */
module Btrees {
  import opened Wrappers
  import opened Records
  import opened BtreeNodes
  import opened BtreeShape
  import opened Routing
  import opened BtreeSteps
  import opened Cascades

  class Btree {
    var root: Node
    var depth: nat
    var cache: map<Addr, Node>
    var nextBlock: Addr
    var rootModified: bool
    const nodeSize: nat
    ghost var shape: Forest

    ghost function AllNodes(): Nodes
      reads this
    {
      cache[ROOT := root]
    }

    ghost predicate Addresses()
      reads this
    {
      nodeSize >= MIN_NODE_SIZE && HandedOut(cache, nextBlock)
    }

    ghost predicate Valid()
      reads this
    {
      Addresses() && Good(AllNodes(), shape, depth, nodeSize)
    }

    ghost predicate Pending(p: Addr, k: Key, v: BchVal)
      reads this
    {
      Addresses() && GoodBut(AllNodes(), shape, depth, nodeSize, p, k, v)
    }

    ghost function Here(): Snap
      reads this
    {
      Snap(AllNodes(), shape, depth)
    }

    /** The key-value map of the tree. */
    ghost function Map(): map<Key, BchVal>
      reads this
    {
      Contents(shape)
    }

    constructor (size: nat)
      requires size >= MIN_NODE_SIZE && size % 8 == 0
      ensures Valid() && Map() == map[] && depth == 0 && root == NewNode(0).(size := size)
    {
      hide Good, Contents, HandedOut;
      nodeSize := size;
      root := NewNode(0).(size := size);
      depth, cache, nextBlock, rootModified := 0, map[], 1, false;
      shape := map[ROOT := Span(0, 0, KEY_SPACE, map[])];
      EmptyTree(size);
    }

    method Get(a: Addr) returns (n: Node)
      requires a in AllNodes()
      ensures n == AllNodes()[a]
    {
      n := if a == ROOT then root else cache[a];
    }

    /** Puts a changed node back under its address. */
    method Store(a: Addr, n: Node)
      requires Addresses() && a in AllNodes()
      modifies this
      ensures Addresses() && AllNodes() == old(AllNodes())[a := n]
      ensures depth == old(depth) && nextBlock == old(nextBlock) && shape == old(shape)
    {
      if a == ROOT {
        root := n;
        rootModified := true;
      } else {
        cache := cache[a := n];
      }
    }

    /** Enters a new node under the next free address. */
    method AllocNode(n: Node) returns (a: Addr)
      requires Addresses()
      modifies this
      ensures Addresses() && a != ROOT && a !in old(AllNodes())
      ensures AllNodes() == old(AllNodes())[a := n]
      ensures depth == old(depth) && shape == old(shape)
    {
      a := nextBlock;
      nextBlock := nextBlock + 1;
      cache := cache[a := n];
    }

    // ---- descending ----

    /** The leaf covering a key and the inner nodes, root excluded, on the way to it. */
    method FindPathToLeaf(target: Key) returns (path: seq<Addr>, leaf: Addr)
      requires Valid() && depth > 0
      ensures IsPath(shape, path) && Parent(shape, Last(path), leaf)
      ensures |path| == depth - 1
      ensures shape[leaf].level == 0 && shape[leaf].lo <= target < shape[leaf].hi
    {
      var current := ROOT;
      path := [];
      var level := depth;
      while level > 1
        invariant 1 <= level <= depth && |path| == depth - level
        invariant IsPath(shape, path) && current == Last(path)
        invariant current in shape && shape[current].level == level
        invariant shape[current].lo <= target < shape[current].hi
      {
        var n := Get(current);
        assert MatchAt(AllNodes(), shape, nodeSize, current);
        var child := ChildOf(n, target, shape, depth, current);
        PathExtend(shape, path, child);
        path := path + [child];
        current := child;
        level := level - 1;
      }
      var n := Get(current);
      assert MatchAt(AllNodes(), shape, nodeSize, current);
      leaf := ChildOf(n, target, shape, depth, current);
    }

    // ---- inserting ----

    /** Adds the missing entry to a node, compacting it once if there is no room. */
    method TryAdd(p: Addr, k: Key, v: BchVal, checkFits: bool) returns (done: bool)
      requires Pending(p, k, v)
      modifies this
      ensures shape == old(shape) && depth == old(depth)
      ensures done ==> Valid()
      ensures !done ==> Pending(p, k, v) && |AllNodes()[p].Map()| >= 2
      ensures old(AllNodes()[p]).Fits() ==>
                done && p in AllNodes() && Appended(old(AllNodes()[p]), AllNodes()[p], Rec(k, Normal, v))
      ensures done <==> Takes(old(AllNodes()[p]), checkFits)
      ensures p in AllNodes() && AllNodes() == old(AllNodes())[p := AllNodes()[p]]
      ensures if done then Added(old(AllNodes()[p]), k, v, AllNodes()[p])
              else AllNodes()[p].All() == Compacted(old(AllNodes()[p]).All())
    {
      hide Takes, Compacted, Appended, Node.FreeStart, RoundUp8, Strict, View;
      var n := Get(p);
      FitsTakes(n, checkFits);
      ghost var n0 := n;
      done, n := AddEntry(n, k, v, shape[p]);
      if done {
        Complete(AllNodes(), shape, depth, nodeSize, p, k, v, n);
        Store(p, n);
        return;
      }
      var c := Compact(n);
      CompactLacks(n, c, shape[p], k, v);
      TakesIs(n0, c, checkFits);
      if !checkFits || c.CompactFits() {
        done, n := AddEntry(c, k, v, shape[p]);
        if done {
          Complete(AllNodes(), shape, depth, nodeSize, p, k, v, n);
          Store(p, n);
          return;
        }
        if c.CompactFits() { DropAuxHelps(c); }
      } else {
        n := c;
      }
      FullHasTwo(c);
      CleanView(c.All());
      Rewrite(AllNodes(), shape, depth, nodeSize, p, k, v, n);
      Store(p, n);
    }

    /** Splits the root in two and puts a new root above the halves. */
    method SplitRoot(k: Key, v: BchVal) returns (ok: bool, ghost c: Cut)
      requires Pending(ROOT, k, v)
      modifies this
      ensures ok <==> |old(root).Map()| >= 2
      ensures ok ==> c.key == k && c.value == v && RootCut(old(AllNodes()), AllNodes(), c)
      ensures ok ==> Valid() && depth == old(depth) + 1 && Map() == old(Map())
      ensures !ok ==> Pending(ROOT, k, v) && depth == old(depth) && shape == old(shape)
    {
      hide Good, GoodBut, Matches, Lacks, Contents, Inv;
      RootFacts(AllNodes(), shape, depth, nodeSize, k, v);
      c := Cut(k, v, 0, ROOT, ROOT);
      var median, left, right;
      ghost var mid;
      median, left, right, mid := SplitAndAdd(root, k, v, shape[ROOT]);
      if median.None? {
        root := left;
        return false, c;
      }
      RootMedian(shape, root.Map(), k, v, median.value);
      assert Halved(shape, depth, nodeSize, left, right, median.value);
      c := Cut(k, v, mid, nextBlock, nextBlock + 1);
      InstallRoot(left, right, median.value, k, v);
      ok := true;
    }

    method InstallRoot(left: Node, right: Node, med: Key, ghost k: Key, ghost v: BchVal)
      requires Pending(ROOT, k, v) && ROOT in shape && Halved(shape, depth, nodeSize, left, right, med)
      modifies this
      ensures Valid() && depth == old(depth) + 1 && Map() == old(Map())
      ensures var l, r := old(nextBlock), old(nextBlock) + 1;
              && l !in old(AllNodes()) && r !in old(AllNodes()) && l != ROOT && r != ROOT
              && AllNodes() == old(AllNodes())[l := left][r := right][ROOT := root]
              && root.All() == [Rec(MIN_KEY, Normal, BchVal(l, 0)), Rec(med, Normal, BchVal(r, 0))]
    {
      hide Good, GoodBut, HandedOut, Grown, TopNode, Contents, Halved;
      InstallHandsOut(cache, nextBlock, left, right);
      TopRecords(root.level + 1, root.size, nextBlock, med, nextBlock + 1);
      var l: Addr, r: Addr := nextBlock, nextBlock + 1;
      InstallKeepsGood(cache, root, nextBlock, shape, depth, nodeSize, k, v, left, right, med);
      shape := Grown(shape, depth, med, l, r);
      cache := cache[l := left][r := right];
      nextBlock := nextBlock + 2;
      root := TopNode(root.level + 1, root.size, l, med, r);
      depth := depth + 1;
      rootModified := true;
      CacheUpdates(old(cache), old(root), l, left, r, right, root);
    }

    /** Enters a routing entry into the parent given by the path position, splitting full
        parents upwards; a position behind the path means the root. */
    method InsertRoutingEntryAt(routingKey: Key, child: Addr, path: seq<Addr>, start: nat, ghost s: Snap,
                                ghost route: seq<Addr>, ghost first: seq<Cut>, ghost key: Key, ghost value: BchVal)
      returns (ok: bool, ghost cuts: seq<Cut>)
      requires IsPath(shape, path) && start == (if path == [] then 0 else |path| - 1)
      requires Pending(Last(path), routingKey, BchVal(child, 0))
      requires OnTheWay(s, route, path, key) && route != [] && s.depth == depth && |first| == 1
      requires Cutting(s, AllNodes(), route, first, key, value)
      requires Wanted(s, route, first, key, value, 1) == (routingKey, BchVal(child, 0))
      modifies this
      ensures ok && Valid() && Map() == old(Map()) && InsertRun(s, Here(), key, value, route, cuts)
    {
      hide Good, GoodBut, IsPath, Inv, Contents, Cutting, OnTheWay, MustCut, Added, Takes, CutInto, Compacted;
      hide InsertRun, RootCut, Wanted;
      var k: Key, c: Addr, pos: nat := routingKey, child, start;
      cuts := first;
      assert Upto(path, pos) == path;
      WayLength(s, route, path, key);
      while true
        invariant IsPath(shape, Upto(path, pos)) && Map() == old(Map()) && depth == s.depth
        invariant Pending(Last(Upto(path, pos)), k, BchVal(c, 0))
        invariant |cuts| == (if pos >= |path| then |path| + 1 else |path| - pos)
        invariant Cutting(s, AllNodes(), route, cuts, key, value)
        invariant Wanted(s, route, cuts, key, value, |cuts|) == (k, BchVal(c, 0))
        decreases if pos >= |path| then 0 else pos + 1
      {
        ghost var nodes := AllNodes();
        OnTheWayAt(s, nodes, route, path, cuts, key, value);
        if pos >= |path| {
          var done := TryAdd(ROOT, k, BchVal(c, 0), false);
          if done {
            EndTakes(s, nodes, Here(), route, path, cuts, key, value, false);
            return true, cuts;
          }
          ghost var mid := AllNodes();
          ghost var cut;
          ok, cut := SplitRoot(k, BchVal(c, 0));
          EndGrows(s, nodes, mid, Here(), route, path, cuts, key, value, cut);
          return ok, cuts + [cut];
        }
        var parent := path[pos];
        var done := TryAdd(parent, k, BchVal(c, 0), true);
        if done {
          EndTakes(s, nodes, Here(), route, path, cuts, key, value, true);
          return true, cuts;
        }
        ghost var between, cut := AllNodes(), Cut(k, BchVal(c, 0), 0, parent, ROOT);
        ok, k, c, cut := SplitNode(parent, k, BchVal(c, 0), Upto(path, pos));
        assert path[..pos + 1][..pos] == path[..pos];
        CutFurther(s, nodes, between, AllNodes(), route, path, cuts, key, value, cut, k);
        cuts := cuts + [cut];
        pos := if pos > 0 then pos - 1 else |path|;
      }
    }

    /** Cuts a node that lacks an entry and enters both halves into the cache; its parent
        then lacks the routing entry of the right half. A node with fewer than two keys is
        put back as it was. */
    method SplitNode(a: Addr, k: Key, v: BchVal, ghost path: seq<Addr>)
      returns (ok: bool, med: Key, b: Addr, ghost c: Cut)
      requires Pending(a, k, v)
      requires path != [] && Last(path) == a && IsPath(shape, path)
      modifies this
      ensures ok <==> |old(AllNodes()[a]).Map()| >= 2
      ensures ok ==> Pending(Last(path[..|path| - 1]), med, BchVal(b, 0)) && Map() == old(Map()) && depth == old(depth)
      ensures ok ==> NodeCut(old(AllNodes()), AllNodes(), c, med)
      ensures ok ==> c.key == k && c.value == v && c.left == a && c.right == b
      ensures ok ==> IsPath(shape, path[..|path| - 1])
      ensures !ok ==> AllNodes() == old(AllNodes()) && Addresses() && depth == old(depth)
    {
      hide Good, GoodBut, Matches, Lacks, Contents, Inv, IsPath, CutInto, Compacted, View;
      PendingFacts(AllNodes(), shape, depth, nodeSize, a, k, v);
      ghost var up := path[..|path| - 1];
      ghost var p := Last(up);
      PathInit(shape, path);
      ghost var f: Forest, nodes: Nodes := shape, AllNodes();
      var n := Get(a);
      c := Cut(k, v, 0, a, a);
      var median, left, right;
      ghost var mid;
      median, left, right, mid := SplitAndAdd(n, k, v, shape[a]);
      if median.None? { return false, MIN_KEY, ROOT, c; }
      med := median.value;
      ghost var x :| x in n.Map() && x < med;
      MedianInside(f, depth, a, med, x);
      assert shape[a].m == n.Map()[k := v];
      b := AllocNode(right);
      Store(a, left);
      SplitPends(nodes, f, depth, nodeSize, p, a, k, v, med, left, b, right);
      SplitKeepsPath(f, depth, p, a, med, b, up);
      shape := SplitLinked(f, p, a, med, b);
      c := Cut(k, v, mid, a, b);
      ok := true;
    }

    /** Inserts into a tree of more than one level: into the leaf, or through leaf and
        inner splits up to the root. */
    method InsertMulti(key: Key, value: BchVal) returns (ok: bool, ghost route: seq<Addr>, ghost cuts: seq<Cut>)
      requires Valid() && depth > 0
      modifies this
      ensures Valid()
      ensures ok <==> !old(InsertStuck(key))
      ensures Map() == if ok then old(Map())[key := value] else old(Map())
      ensures if ok then InsertRun(old(Here()), Here(), key, value, route, cuts) else Here() == old(Here())
    {
      hide Good, GoodBut, Matches, Contents, IsPath, Inv, Cutting, OnTheWay, MustCut, Added, Takes, CutInto, Compacted;
      hide InsertRun, Wanted, NodeCut, Appended, Node.FreeStart, View;
      var path, leaf := FindPathToLeaf(key);
      GoodFacts(AllNodes(), shape, depth, nodeSize, leaf);
      LeafOfKey(shape, depth, leaf, key);
      var n := Get(leaf);
      ghost var s, before := Here(), shape;
      route, cuts := path + [leaf], [];
      PathExtend(shape, path, leaf);
      WayKnown(s, route, path, leaf, key);
      NoCuts(s, route, key, value);
      OnTheWayAt(s, AllNodes(), route, path, [], key, value);
      PendLeaf(AllNodes(), shape, depth, nodeSize, leaf, key, value);
      PathKept(shape, path, leaf, shape[leaf].m[key := value]);
      shape := shape[leaf := shape[leaf].(m := shape[leaf].m[key := value])];
      if !n.ShouldSplit() {
        ok := TryAdd(leaf, key, value, true);
        if ok {
          EndTakes(s, s.nodes, Here(), route, path, [], key, value, true);
          return;
        }
      }
      PathExtend(shape, path, leaf);
      assert (path + [leaf])[..|path|] == path;
      ghost var between, cut := AllNodes(), Cut(key, value, 0, leaf, ROOT);
      var med, right;
      ok, med, right, cut := SplitNode(leaf, key, value, path + [leaf]);
      if !ok {
        shape := before;
        return;
      }
      var start := if path == [] then 0 else |path| - 1;
      CutFurther(s, s.nodes, between, AllNodes(), route, path, [], key, value, cut, med);
      ok, cuts := InsertRoutingEntryAt(med, right, path, start, s, route, [] + [cut], key, value);
    }

    /** The insert of a key meets a leaf that can neither take nor share out records. */
    ghost predicate InsertStuck(key: Key)
      reads this
    {
      depth > 0 && exists a :: a in shape && a in AllNodes() && CoversKey(shape, a, key) && Stuck(AllNodes()[a])
    }

    method Insert(key: Key, value: BchVal) returns (ok: bool)
      requires Valid()
      modifies this
      ensures Valid()
      ensures ok <==> !old(InsertStuck(key))
      ensures Map() == if ok then old(Map())[key := value] else old(Map())
      ensures if ok then exists route, cuts :: InsertRun(old(Here()), Here(), key, value, route, cuts)
              else Here() == old(Here())
      ensures old(depth) == 0 && old(root).Fits() ==>
                depth == 0 && Appended(old(root), root, Rec(key, Normal, value))
    {
      if depth > 0 {
        hide InsertRun, Map, InsertStuck;
        ghost var route, cuts;
        ok, route, cuts := InsertMulti(key, value);
        return;
      }
      ok := InsertRoot(key, value);
    }

    method InsertRoot(key: Key, value: BchVal) returns (ok: bool)
      requires Valid() && depth == 0
      modifies this
      ensures ok && Valid() && Map() == old(Map())[key := value]
      ensures exists cuts :: InsertRun(old(Here()), Here(), key, value, [], cuts)
      ensures old(root).Fits() ==> depth == 0 && Appended(old(root), root, Rec(key, Normal, value))
    {
      hide Good, GoodBut, Matches, Contents, Inv, Appended, Cutting, MustCut, Added, Takes, CutInto, Compacted;
      hide InsertRun, Wanted, OnTheWay, RootCut, IsPath;
      ghost var s := Here();
      GoodFacts(AllNodes(), shape, depth, nodeSize, ROOT);
      RootOnly(s, key);
      NoCuts(s, [], key, value);
      OnTheWayAt(s, s.nodes, [], [], [], key, value);
      PendLeaf(AllNodes(), shape, depth, nodeSize, ROOT, key, value);
      shape := shape[ROOT := shape[ROOT].(m := shape[ROOT].m[key := value])];
      ok := TryAdd(ROOT, key, value, true);
      if ok {
        EndTakes(s, s.nodes, Here(), [], [], [], key, value, true);
        return;
      }
      ghost var between, cut := AllNodes(), Cut(key, value, 0, ROOT, ROOT);
      ok, cut := SplitRoot(key, value);
      EndGrows(s, s.nodes, between, Here(), [], [], [], key, value, cut);
    }

    // ---- deleting ----

    /** Takes a node out of the cache for good. */
    method Drop(a: Addr)
      requires Addresses() && a != ROOT
      modifies this
      ensures Addresses() && AllNodes() == old(AllNodes()) - {a}
      ensures depth == old(depth) && shape == old(shape)
    {
      cache := cache - {a};
    }

    /** Merges an underfull node with its right neighbour, or with its left one if it is the
        last child, and routes the union of both intervals to the node that survives. */
    method TryMergeNode(a: Addr, path: seq<Addr>) returns (merged: bool)
      requires Valid() && IsPath(shape, path) && Parent(shape, Last(path), a)
      modifies this
      ensures Valid() && depth == old(depth) && Map() == old(Map())
      ensures IsPath(shape, path)
      ensures merged <==> exists b: Addr :: old(CanTake(AllNodes(), shape, nodeSize, Last(path), a, b))
      ensures merged ==>
                exists b: Addr :: old(CanTake(AllNodes(), shape, nodeSize, Last(path), a, b)) &&
                                  MergedTo(old(Here()), Here(), Last(path), a, b)
      ensures !merged ==> PutBackAt(old(Here()), Here(), a)
    {
      hide Good, GoodBut, Matches, Contents, IsPath, Inv, Partner, Joined, Resettled, MergedTo, PutBackAt, CanTake;
      var p := Last(path);
      GoodFacts(AllNodes(), shape, depth, nodeSize, a);
      ghost var nodes, f, s := AllNodes(), shape, Here();
      var node := Get(a);
      CanTakeNeeds(nodes, f, nodeSize, p, a);
      if !node.Underfull() {
        NotPut(s, a);
        return false;
      }
      LeafMatch(node, shape[a], nodeSize);
      node := CompactMatched(node, shape[a]);
      var sibling, toRight := FindPartner(p, a);
      if sibling.None? {
        PutBack(a, node);
        PutBackIs(s, Here(), a, node);
        return false;
      }
      var b := sibling.value;
      PartnerKnown(shape, p, a, b);
      GoodFacts(AllNodes(), shape, depth, nodeSize, b);
      var other := Get(b);
      LeafMatch(other, shape[b], nodeSize);
      LeafMatch(node, shape[a], nodeSize);
      CanTakeIs(nodes, f, nodeSize, p, a, b, node);
      // Without room for both, both go back. The third node the source then looks for, the
      // sibling's other neighbour, is the node just taken out, so its search ends the same way.
      if (toRight && !other.CanAbsorb(node)) || (!toRight && !node.CanAbsorb(other)) {
        PutBack(a, node);
        PutBackIs(s, Here(), a, node);
        return false;
      }
      JoinNodes(a, node, b, toRight, path);
      merged := true;
    }

    /** The right neighbour of a child, for the last child the left one. */
    method FindPartner(p: Addr, a: Addr) returns (o: Option<Addr>, right: bool)
      requires Valid() && Parent(shape, p, a)
      ensures forall b: Addr :: Partner(shape, p, a, b) <==> o == Some(b)
      ensures o.Some? ==> o.value in shape && (right <==> shape[a].hi == shape[o.value].lo)
    {
      hide Good, Contents, Inv, Partner;
      GoodFacts(AllNodes(), shape, depth, nodeSize, p);
      var parent := Get(p);
      ghost var k: Key := shape[a].lo;
      ChildIsOnce(shape, depth, p, a);
      var sibling := FindSibling(parent, a, false, k);
      right := sibling.Some?;
      if sibling.None? { sibling := FindSibling(parent, a, true, k); }
      PartnerIs(shape, depth, p, a, right, if sibling.None? then None else Some(sibling.value.0));
      o := if sibling.None? then None else Some(sibling.value.1);
    }

    /** The right one of two neighbours absorbs the left one. */
    method JoinNodes(a: Addr, node: Node, b: Addr, toRight: bool, path: seq<Addr>)
      requires Valid() && IsPath(shape, path) && Partner(shape, Last(path), a, b)
      requires toRight <==> shape[a].hi == shape[b].lo
      requires Matches(node, shape[a], nodeSize) && b in AllNodes()
      requires if toRight then AllNodes()[b].CanAbsorb(node) else node.CanAbsorb(AllNodes()[b])
      modifies this
      ensures Valid() && depth == old(depth) && Map() == old(Map())
      ensures IsPath(shape, path)
      ensures MergedTo(old(Here()), Here(), Last(path), a, b)
    {
      hide Good, Contents, IsPath, Inv, Merged, Rerouted, MergedTo;
      var p := Last(path);
      ghost var s := Here();
      GoodFacts(AllNodes(), shape, depth, nodeSize, a);
      GoodFacts(AllNodes(), shape, depth, nodeSize, b);
      GoodFacts(AllNodes(), shape, depth, nodeSize, p);
      SpansOk(shape, depth, a, b);
      var other := Get(b);
      var parent := Get(p);
      if toRight {
        KeysApart(shape[a], shape[b]);
        var union := Absorb(other, node);
        UnionWithin(node, shape[a], other, shape[b], union);
        UnionSwap(shape[a].m, shape[b].m);
        Replace(path, p, a, b, b, a, union, parent);
        MergedIs(s, Here(), p, a, b, a, b, union);
      } else {
        KeysApart(shape[b], shape[a]);
        var union := Absorb(node, other);
        UnionWithin(other, shape[b], node, shape[a], union);
        UnionSwap(shape[b].m, shape[a].m);
        Replace(path, p, b, a, a, b, union, parent);
        MergedIs(s, Here(), p, a, b, b, a, union);
      }
    }

    method PutBack(a: Addr, n: Node)
      requires Valid() && a in shape && Matches(n, shape[a], nodeSize)
      modifies this
      ensures Valid() && shape == old(shape) && depth == old(depth) && AllNodes() == old(AllNodes())[a := n]
    {
      hide Good, Matches, Contents, Inv;
      GoodFacts(AllNodes(), shape, depth, nodeSize, a);
      SwapMatched(AllNodes(), shape, depth, nodeSize, a, n);
      Store(a, n);
    }

    /** Puts the union of two neighbours x and y in place of the survivor s, drops t, and
        updates the routing entries of their parent. */
    method Replace(ghost path: seq<Addr>, p: Addr, ghost x: Addr, ghost y: Addr, s: Addr, t: Addr, union: Node,
                   parent: Node)
      requires Valid() && IsPath(shape, path) && p == Last(path) && CanMerge(shape, p, x, y, s, t)
      requires Matches(union, Span(shape[x].level, shape[x].lo, shape[y].hi, shape[x].m + shape[y].m), nodeSize)
      requires p in AllNodes() && parent == AllNodes()[p]
      modifies this
      ensures Valid() && depth == old(depth) && Map() == old(Map())
      ensures IsPath(shape, path) && p in old(shape) && shape == Merged(old(shape), p, x, y, s, t)
      ensures p in AllNodes() && Rerouted(AllNodes()[p].All(), old(shape[x].lo), s)
      ensures AllNodes() == (old(AllNodes()) - {t})[s := union][p := AllNodes()[p]]
    {
      hide Good, Matches, Contents, IsPath, Inv, Rerouted;
      GoodFacts(AllNodes(), shape, depth, nodeSize, p);
      MergeFacts(shape, depth, p, x, y, s, t);
      ghost var kx: Key, ky: Key := shape[x].lo, shape[y].lo;
      ChildIsOnce(shape, depth, p, x);
      ChildIsOnce(shape, depth, p, y);
      var parent' := UpdateParentRouting(parent, s, t, kx, ky, shape[p]);
      MergeGood(AllNodes(), shape, depth, nodeSize, p, x, y, s, t, union, parent');
      MergeKeepsPath(shape, depth, p, x, y, s, t, path);
      shape := Merged(shape, p, x, y, s, t);
      Drop(t);
      Store(s, union);
      Store(p, parent');
    }

    /** Lifts the only child of the root into the root. */
    method CollapseRoot() returns (collapsed: bool)
      requires Valid()
      modifies this
      ensures Valid() && Map() == old(Map())
      ensures depth == if collapsed then old(depth) - 1 else old(depth)
      ensures if collapsed then Lifted(old(Here()), Here())
              else Here() == old(Here()) && (depth == 0 || root.keyCount != 1)
    {
      hide Good, Matches, Contents, Inv;
      if depth == 0 { return false; }
      GoodFacts(AllNodes(), shape, depth, nodeSize, ROOT);
      if root.keyCount != 1 { return false; }
      OneEntry(root, shape, depth, nodeSize);
      var entry := ReadEntryByGlobalIdx(root, 1);
      var c := entry.value.val.paddr;
      CollapseFacts(shape, depth, c);
      CollapseGood(AllNodes(), shape, depth, nodeSize, c);
      var child := cache[c];
      shape := Collapsed(shape, c);
      Drop(c);
      Store(ROOT, child);
      depth := depth - 1;
      collapsed := true;
    }

    /** The delete of a key is accepted by the leaf covering it. */
    ghost predicate DeleteAccepted(key: Key)
      reads this
    {
      exists a :: a in AllNodes() && CoversKey(shape, a, key) && HasLive(AllNodes()[a].All(), key)
    }

    /** The delete of a key takes it out of the leaf covering it. */
    ghost predicate DeleteTakes(key: Key)
      reads this
    {
      exists a :: a in AllNodes() && CoversKey(shape, a, key) && DeleteRemoves(AllNodes()[a], key)
    }

    /** Deletes a key from the leaf covering it. */
    method DeleteInLeaf(leaf: Addr, key: Key) returns (ok: bool)
      requires Valid() && CoversKey(shape, leaf, key)
      modifies this
      ensures Valid() && depth == old(depth)
      ensures ok == old(DeleteAccepted(key))
      ensures if ok then LeafDelete(old(Here()), Here(), leaf, key) else Here() == old(Here())
      ensures Map() == if old(DeleteTakes(key)) then old(Map()) - {key} else old(Map())
      ensures forall q, a :: IsPath(old(shape), q) && Parent(old(shape), Last(q), a) ==>
                               IsPath(shape, q) && Parent(shape, Last(q), a)
    {
      hide Good, Matches, Contents, IsPath, Inv, AfterDelete, LeafDelete;
      GoodFacts(AllNodes(), shape, depth, nodeSize, leaf);
      LeafOfKey(shape, depth, leaf, key);
      ghost var f, s := shape, Here();
      var n := Get(leaf);
      var n';
      LeafMatch(n, shape[leaf], nodeSize);
      ok, n' := DeleteKey(n, key);
      DeleteGood(AllNodes(), shape, depth, nodeSize, leaf, key, n');
      shape := shape[leaf := shape[leaf].(m := n'.Map())];
      Store(leaf, n');
      LeafDeleteIs(s, Here(), leaf, key, ok, n');
      forall q, a | IsPath(f, q) && Parent(f, Last(q), a)
        ensures IsPath(shape, q) && Parent(shape, Last(q), a)
      {
        PathKeptAny(f, q, leaf, n'.Map(), a);
      }
    }

    /** Deletes a key; an underfull leaf is merged, which may cascade up to the root. */
    method Delete(key: Key) returns (ok: bool)
      requires Valid()
      modifies this
      ensures Valid()
      ensures ok == old(DeleteAccepted(key))
      ensures Map() == if old(DeleteTakes(key)) then old(Map()) - {key} else old(Map())
      ensures !ok ==> Here() == old(Here())
      ensures ok && old(depth) == 0 ==> LeafDelete(old(Here()), Here(), ROOT, key)
      ensures ok && old(depth) > 0 ==>
                exists route, merges, lifts ::
                  DeleteRun(old(Here()), Here(), nodeSize, key, route, merges, lifts)
      ensures depth <= old(depth) && (depth < old(depth) ==> depth == 0 || root.keyCount != 1)
      ensures |AllNodes()| < |old(AllNodes())| ==> depth == 0 || root.keyCount != 1
    {
      hide Good, Matches, Contents, IsPath, Inv, LeafDelete, DeleteRun, DeleteTakes, DeleteAccepted, Map;
      if depth == 0 {
        GoodFacts(AllNodes(), shape, depth, nodeSize, ROOT);
        ok := DeleteInLeaf(ROOT, key);
        if ok { LeafKeeps(old(Here()), Here(), ROOT, key); }
        return;
      }
      ghost var route, merges, lifts;
      ok, route, merges, lifts := DeleteMulti(key);
      if ok { DeleteCounts(old(Here()), Here(), nodeSize, key, route, merges, lifts); }
    }

    method DeleteMulti(key: Key)
      returns (ok: bool, ghost route: seq<Addr>, ghost merges: seq<Snap>, ghost lifts: seq<Snap>)
      requires Valid() && depth > 0
      modifies this
      ensures Valid()
      ensures ok == old(DeleteAccepted(key))
      ensures Map() == if old(DeleteTakes(key)) then old(Map()) - {key} else old(Map())
      ensures if ok then DeleteRun(old(Here()), Here(), nodeSize, key, route, merges, lifts) else Here() == old(Here())
    {
      hide Good, Matches, Contents, IsPath, Inv, CanTake, MergedTo, PutBackAt, LeafDelete, DeleteTakes, DeleteAccepted,
        Map, Partner, Merges, Lifts;
      var path, leaf := FindPathToLeaf(key);
      route, merges, lifts := path + [leaf], [], [];
      PathExtend(shape, path, leaf);
      ok := DeleteInLeaf(leaf, key);
      if !ok { return; }
      merges := [Here()];
      RouteEnd(path, leaf);
      var merged := TryMergeNode(leaf, path);
      if merged {
        merges := Cascade(path, route, merges + [Here()]);
        lifts := CollapseAll();
      } else {
        MergesStop(nodeSize, route, merges, Here());
        lifts := [Here()];
      }
    }

    /** Goes on merging up the path as long as it can. */
    method Cascade(path: seq<Addr>, ghost route: seq<Addr>, ghost first: seq<Snap>) returns (ghost run: seq<Snap>)
      requires Valid() && IsPath(shape, path) && |path| == depth - 1
      requires |route| == |path| + 1 && route[..|path|] == path
      requires |first| == 2 && first[1] == Here() && MergesSoFar(nodeSize, route, first)
      modifies this
      ensures Valid() && Map() == old(Map())
      ensures |run| >= 2 && run[0] == first[0] && Merges(nodeSize, route, run, Here())
    {
      hide Good, Matches, Contents, IsPath, Inv, CanTake, MergedTo, PutBackAt, Map, Partner, Merges, MergesSoFar;
      var top := depth;
      var level := 1;
      run := first;
      assert path[..|path| - 0] == path;
      while level < top && level <= |path|
        invariant depth == old(depth) && 1 <= level <= |path| + 1
        invariant Valid() && IsPath(shape, path[..|path| - (level - 1)]) && Map() == old(Map())
        invariant |run| == level + 1 && run[0] == first[0] && run[level] == Here() && MergesSoFar(nodeSize, route, run)
      {
        var up := path[..|path| - level];
        ghost var q := path[..|path| - (level - 1)];
        PathInit(shape, q);
        assert q[..|q| - 1] == up;
        RouteAt(path, route, level);
        var more := TryMergeNode(path[|path| - level], up);
        if !more {
          MergesStop(nodeSize, route, run, Here());
          return;
        }
        MergesOn(nodeSize, route, run, Here());
        run := run + [Here()];
        level := level + 1;
      }
      MergesAll(nodeSize, route, run);
    }

    /** Lifts the root as long as it has a single child. */
    method CollapseAll() returns (ghost lifts: seq<Snap>)
      requires Valid()
      modifies this
      ensures Valid() && Map() == old(Map())
      ensures lifts != [] && lifts[0] == old(Here()) && Lifts(lifts) && lifts[|lifts| - 1] == Here()
    {
      hide Good, Matches, Contents, Inv, Lifted, Map;
      lifts := [Here()];
      var shrunk := true;
      while shrunk
        invariant Valid() && Map() == old(Map())
        invariant lifts != [] && lifts[0] == old(Here()) && lifts[|lifts| - 1] == Here()
        invariant forall i :: 0 <= i < |lifts| - 1 ==> Lifted(lifts[i], lifts[i + 1])
        invariant !shrunk ==> depth == 0 || root.keyCount != 1
        decreases depth, shrunk
      {
        shrunk := CollapseRoot();
        if shrunk { lifts := lifts + [Here()]; }
      }
    }
  }
}
