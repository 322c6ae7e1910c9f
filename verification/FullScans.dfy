/** Iterating over a whole tree, and what the records read say about its map. */
module FullScans {
  import opened Wrappers
  import opened Records
  import opened BtreeNodes
  import opened BtreeShape
  import opened Routing
  import opened BtreeIters
  import opened BtreeSteps
  import opened Cascades
  import opened Btrees
  import opened Lookups
  import opened LeafWalks

  // ---- what a scan yields ----

  /** The records an iterator started at the least key yields: none if the first leaf is
      empty, since reading stops at the first position without a record. */
  ghost function Yield(cache: Nodes, root: Node): seq<Rec>
    requires Tree(cache, root)
  {
    CountedSeek(cache, root, MIN_KEY);
    var s := Seek(cache, root, MIN_KEY);
    if Window(s[0], 1) == [] then [] else Flat(s)
  }

  /** The leaf an iterator started at the least key enters. */
  ghost function FirstLeaf(cache: Nodes, root: Node): Node
    requires Tree(cache, root)
  {
    Seek(cache, root, MIN_KEY)[0]
  }

  /** The newest record of the key is live. */
  ghost predicate LiveIn(rs: seq<Rec>, k: Key) {
    Latest(rs, k).Some? && Latest(rs, k).value.kind.Normal?
  }

  ghost predicate NoLive(rs: seq<Rec>, k: Key) {
    forall r :: r in rs && r.key == k ==> r.kind.Deleted?
  }

  /** Records behind the counted ones decide about the key, otherwise than those. */
  ghost predicate Unread(n: Node, k: Key)
    requires n.Counted()
  {
    var unread := n.All()[n.keyCount..];
    Latest(unread, k).Some? && ViewAt(unread, k) != ViewAt(ReadPart(n), k)
  }

  /** The leaf's records let a scan tell what the leaf holds for the key. */
  ghost predicate ReadRight(cache: Nodes, root: Node, n: Node, k: Key)
    requires Tree(cache, root) && n.Counted()
  {
    if Met(cache, root, k) then !Unread(n, k) else !LiveIn(n.All(), k)
  }

  /** The part read, tombstones left out, tells what the leaf holds for the key: the newest
      value of a live key stands last among its live records there, and a key whose newest
      record is a tombstone has no live record there. */
  ghost predicate PartLists(n: Node, k: Key)
    requires n.Counted()
  {
    if LiveIn(n.All(), k) then
      var o := Latest(RetainLive(ReadPart(n)), k);
      o.Some? && o.value.val == Latest(n.All(), k).value.val
    else
      NoLive(ReadPart(n), k)
  }

  ghost predicate Listed(cache: Nodes, root: Node, n: Node, k: Key)
    requires Tree(cache, root) && n.Counted()
  {
    if Met(cache, root, k) then PartLists(n, k) else !LiveIn(n.All(), k)
  }

  lemma PartTells(n: Node, k: Key)
    requires n.Counted()
    ensures ViewAt(ReadPart(n), k) == ViewAt(n.All(), k) <==> !Unread(n, k)
    ensures n.keyCount == |n.All()| ==> !Unread(n, k) && ReadPart(n) == n.All()
  {
    hide View;
    var read, unread := ReadPart(n), n.All()[n.keyCount..];
    assert n.All() == read + unread;
    LatestConcat(read, unread, k);
    ViewAtLatest(n.All(), k);
    ViewAtLatest(read, k);
    ViewAtLatest(unread, k);
  }

  /** With tombstones left out, the last live record of a key speaks for it. */
  lemma RetainSays(rs: seq<Rec>, k: Key)
    ensures var o := Latest(RetainLive(rs), k);
            && (o.None? <==> NoLive(rs, k)) && (o.Some? ==> o.value.kind.Normal?)
            && ViewAt(RetainLive(rs), k) == if o.Some? then Some(o.value.val) else None
    ensures LiveIn(rs, k) ==> Latest(RetainLive(rs), k) == Latest(rs, k)
  {
    hide View, Latest;
    var live := RetainLive(rs);
    RetainMembers(rs);
    ViewAtLatest(live, k);
    if Latest(live, k).None? {
      forall r | r in rs && r.key == k ensures r.kind.Deleted? {
        if r.kind.Normal? {
          var i :| 0 <= i < |live| && live[i] == r;
          LatestFound(live, k, i);
        }
      }
    }
    if LiveIn(rs, k) { LastLive(rs, k); }
  }

  lemma {:induction false} LastLive(rs: seq<Rec>, k: Key)
    requires LiveIn(rs, k)
    ensures Latest(RetainLive(rs), k) == Latest(rs, k)
  {
    var init, last := rs[..|rs| - 1], rs[|rs| - 1];
    assert rs == init + [last];
    RetainAppend(init, last);
    if last.key == k {
      assert RetainLive(rs)[|RetainLive(rs)| - 1] == last;
    } else {
      LastLive(init, k);
      LatestConcat(RetainLive(init), if last.kind.Normal? then [last] else [], k);
    }
  }

  /** Leaving out tombstones keeps the map exactly if no live record stands before the
      tombstone that is the newest record of its key. */
  lemma RetainKeepsMapIff(rs: seq<Rec>)
    ensures View(RetainLive(rs)) == View(rs) <==>
              forall k: Key {:trigger LiveIn(rs, k)} :: !LiveIn(rs, k) ==> NoLive(rs, k)
  {
    hide View, Latest, LiveIn, NoLive;
    forall k: Key ensures ViewAt(RetainLive(rs), k) == ViewAt(rs, k) <==> (!LiveIn(rs, k) ==> NoLive(rs, k)) {
      RetainTells(rs, k);
    }
    MapByKey(View(RetainLive(rs)), View(rs));
    assert forall k: Key :: At(View(rs), k) == ViewAt(rs, k) &&
                            At(View(RetainLive(rs)), k) == ViewAt(RetainLive(rs), k);
  }

  lemma RetainTells(rs: seq<Rec>, k: Key)
    ensures ViewAt(RetainLive(rs), k) == ViewAt(rs, k) <==> (!LiveIn(rs, k) ==> NoLive(rs, k))
  {
    hide View, Latest, NoLive;
    RetainSays(rs, k);
    ViewAtLatest(rs, k);
  }

  lemma MapByKey(a: map<Key, BchVal>, b: map<Key, BchVal>)
    ensures a == b <==> forall k: Key :: At(a, k) == At(b, k)
  {
    if forall k: Key :: At(a, k) == At(b, k) {
      forall k: Key ensures SameAt(a, b, k) { assert At(a, k) == At(b, k); }
      MapsEqual(a, b);
    }
  }

  /** What a scan says about one key, and what the tree holds for it. */
  lemma ScanAt(cache: Nodes, root: Node, f: Forest, depth: nat, size: nat, k: Key, b: Addr)
    requires Stands(cache, root, f, depth, size) && CoversKey(f, b, k)
    ensures Tree(cache, root) && AllCounted(Seek(cache, root, MIN_KEY))
    ensures (b == ROOT || b in cache) && NodeAt(cache, root, b).Counted()
    ensures var rs, n := Flat(Seek(cache, root, MIN_KEY)), NodeAt(cache, root, b);
            && (ViewAt(rs, k) == At(Contents(f), k) <==> ReadRight(cache, root, n, k))
            && (ViewAt(RetainLive(rs), k) == At(Contents(f), k) <==> Listed(cache, root, n, k))
  {
    hide Stands, Inv, Only, Flat, Met, Contents, View, Latest, NoLive, Unread, RetainLive, ReadPart;
    RootSpan(cache, root, f, depth, size);
    ScanMeets(cache, root, f, depth, size, ROOT, k, b);
    var rs, n := Flat(Seek(cache, root, MIN_KEY)), NodeAt(cache, root, b);
    LeafHolds(cache, root, f, depth, size, k, b);
    ViewAtLatest(n.All(), k);
    if Met(cache, root, k) {
      OnlySays(rs, ReadPart(n), k);
      PartTells(n, k);
      RetainSays(ReadPart(n), k);
    } else {
      NoneSays(k);
      OnlySays(rs, [], k);
    }
  }

  lemma NoneSays(k: Key)
    ensures Only([], k) == [] && ViewAt([], k) == None && ViewAt(RetainLive([]), k) == None
  {}

  lemma LeafHolds(cache: Nodes, root: Node, f: Forest, depth: nat, size: nat, k: Key, b: Addr)
    requires Stands(cache, root, f, depth, size) && CoversKey(f, b, k)
    ensures (b == ROOT || b in cache) && At(Contents(f), k) == ViewAt(NodeAt(cache, root, b).All(), k)
  {
    hide Stands, Inv, Contents, View;
    StandsFacts(cache, root, f, depth, size, b);
    ContentsAt(f, depth, b, k);
  }

  lemma RootSpan(cache: Nodes, root: Node, f: Forest, depth: nat, size: nat)
    requires Stands(cache, root, f, depth, size)
    ensures ROOT in f && f[ROOT].lo == 0 && f[ROOT].hi == KEY_SPACE && NodeAt(cache, root, ROOT) == root
    ensures Inv(f, depth)
  {}

  // ---- the whole tree ----

  /** For every key, in its leaf, the records are such that a scan tells the truth. */
  ghost predicate EachReadRight(cache: Nodes, root: Node, f: Forest)
    requires Tree(cache, root)
  {
    forall b, k {:trigger CoversKey(f, b, k)} ::
      CoversKey(f, b, k) && (b == ROOT || b in cache) && NodeAt(cache, root, b).Counted() ==>
          ReadRight(cache, root, NodeAt(cache, root, b), k)
  }

  ghost predicate EachListed(cache: Nodes, root: Node, f: Forest)
    requires Tree(cache, root)
  {
    forall b, k {:trigger CoversKey(f, b, k)} ::
      CoversKey(f, b, k) && (b == ROOT || b in cache) && NodeAt(cache, root, b).Counted() ==>
          Listed(cache, root, NodeAt(cache, root, b), k)
  }

  /** In every tree: what a scan yields stands for the whole map exactly if, the first leaf
      being empty, the map is, and otherwise each leaf lets each of its keys be told. The same
      with tombstones left out. */
  lemma ScanIsMap(cache: Nodes, root: Node, f: Forest, depth: nat, size: nat)
    requires Stands(cache, root, f, depth, size)
    ensures Tree(cache, root)
    ensures View(Yield(cache, root)) == Contents(f) <==>
            if FirstLeaf(cache, root).All() == [] then Contents(f) == map[] else EachReadRight(cache, root, f)
    ensures View(RetainLive(Yield(cache, root))) == Contents(f) <==>
            if FirstLeaf(cache, root).All() == [] then Contents(f) == map[] else EachListed(cache, root, f)
  {
    hide Stands, Inv, Contents, EachReadRight, EachListed, View, CoversKey, Flat;
    RootSpan(cache, root, f, depth, size);
    StandsTree(cache, root, f, depth, size, ROOT);
    CountedSeek(cache, root, MIN_KEY);
    var s := Seek(cache, root, MIN_KEY);
    assert s[0].Counted();
    EmptyView();
    if s[0].All() != [] {
      ReadRightIff(cache, root, f, depth, size);
      ListedIff(cache, root, f, depth, size);
    }
  }

  lemma ReadRightIff(cache: Nodes, root: Node, f: Forest, depth: nat, size: nat)
    requires Stands(cache, root, f, depth, size) && Tree(cache, root) && AllCounted(Seek(cache, root, MIN_KEY))
    ensures View(Flat(Seek(cache, root, MIN_KEY))) == Contents(f) <==> EachReadRight(cache, root, f)
  {
    hide Stands, Inv, Contents, ReadRight, View, CoversKey, Flat;
    var rs := Flat(Seek(cache, root, MIN_KEY));
    RootSpan(cache, root, f, depth, size);
    MapByKey(View(rs), Contents(f));
    if View(rs) == Contents(f) {
      forall b, k | CoversKey(f, b, k) && (b == ROOT || b in cache) && NodeAt(cache, root, b).Counted()
        ensures ReadRight(cache, root, NodeAt(cache, root, b), k)
      {
        ScanAt(cache, root, f, depth, size, k, b);
      }
    } else if EachReadRight(cache, root, f) {
      forall k: Key ensures At(View(rs), k) == At(Contents(f), k) {
        var b := CoverOf(f, depth, k);
        ScanAt(cache, root, f, depth, size, k, b);
      }
    }
  }

  lemma ListedIff(cache: Nodes, root: Node, f: Forest, depth: nat, size: nat)
    requires Stands(cache, root, f, depth, size) && Tree(cache, root) && AllCounted(Seek(cache, root, MIN_KEY))
    ensures View(RetainLive(Flat(Seek(cache, root, MIN_KEY)))) == Contents(f) <==> EachListed(cache, root, f)
  {
    hide Stands, Inv, Contents, Listed, View, CoversKey, Flat, RetainLive;
    var rs := RetainLive(Flat(Seek(cache, root, MIN_KEY)));
    RootSpan(cache, root, f, depth, size);
    MapByKey(View(rs), Contents(f));
    if View(rs) == Contents(f) {
      forall b, k | CoversKey(f, b, k) && (b == ROOT || b in cache) && NodeAt(cache, root, b).Counted()
        ensures Listed(cache, root, NodeAt(cache, root, b), k)
      {
        ScanAt(cache, root, f, depth, size, k, b);
      }
    } else if EachListed(cache, root, f) {
      forall k: Key ensures At(View(rs), k) == At(Contents(f), k) {
        var b := CoverOf(f, depth, k);
        ScanAt(cache, root, f, depth, size, k, b);
      }
    }
  }

  lemma EmptyView()
    ensures View([]) == map[] && RetainLive([]) == []
  {}

  lemma CoverOf(f: Forest, depth: nat, k: Key) returns (b: Addr)
    requires Inv(f, depth)
    ensures CoversKey(f, b, k)
  {
    Covered(f, depth, 0, k);
    b :| b in f && f[b].level == 0 && f[b].lo <= k < f[b].hi;
  }

  /** Every leaf's counter counts all its records. */
  ghost predicate AllCount(cache: Nodes, root: Node, f: Forest) {
    forall a :: a in f && f[a].level == 0 && (a == ROOT || a in cache) ==>
        NodeAt(cache, root, a).keyCount == |NodeAt(cache, root, a).All()|
  }

  /** With counters that count all records, a scan stands for the whole map if no inner node
      has its least record behind another one and the first leaf is not empty; and if every
      leaf holds a live key, only then. */
  lemma ScanCompleteIff(cache: Nodes, root: Node, f: Forest, depth: nat, size: nat)
    requires Stands(cache, root, f, depth, size) && AllCount(cache, root, f)
    ensures Tree(cache, root)
    ensures LeastFirst(cache, root) && FirstLeaf(cache, root).All() != [] ==> View(Yield(cache, root)) == Contents(f)
    ensures NoneEmpty(f) ==> (View(Yield(cache, root)) == Contents(f) <==> LeastFirst(cache, root))
  {
    hide Stands, Inv, Contents, View, LeastFirst, Met, Yield, Latest;
    RootSpan(cache, root, f, depth, size);
    StandsTree(cache, root, f, depth, size, ROOT);
    ScanIsMap(cache, root, f, depth, size);
    if LeastFirst(cache, root) {
      forall b, k | CoversKey(f, b, k) && (b == ROOT || b in cache) && NodeAt(cache, root, b).Counted()
        ensures ReadRight(cache, root, NodeAt(cache, root, b), k)
      {
        LeastMeets(cache, root, f, depth, size, ROOT, k);
        PartTells(NodeAt(cache, root, b), k);
      }
      if NoneEmpty(f) { FirstHasRecord(cache, root, f, depth, size); }
    } else if NoneEmpty(f) {
      var k, b := NotLeastMisses(cache, root, f, depth, size, ROOT);
      ScanAt(cache, root, f, depth, size, k, b);
      FirstHasRecord(cache, root, f, depth, size);
      MissedTells(cache, root, f, depth, size, k, b);
    }
  }

  /** With least records first, a full iteration lists the map exactly if the part read of
      each leaf tells what the leaf holds. It does not right after a delete by tombstone: the
      live record stands in the counted part and the tombstone behind it. */
  lemma ListIff(cache: Nodes, root: Node, f: Forest, depth: nat, size: nat)
    requires Stands(cache, root, f, depth, size)
    requires Tree(cache, root) && LeastFirst(cache, root) && FirstLeaf(cache, root).All() != []
    ensures View(RetainLive(Yield(cache, root))) == Contents(f) <==> PartsList(cache, root, f)
  {
    hide Stands, Inv, Contents, View, LeastFirst, Met, Yield, PartLists;
    RootSpan(cache, root, f, depth, size);
    ScanIsMap(cache, root, f, depth, size);
    forall b, k | CoversKey(f, b, k) && (b == ROOT || b in cache) && NodeAt(cache, root, b).Counted()
      ensures Listed(cache, root, NodeAt(cache, root, b), k) <==> PartLists(NodeAt(cache, root, b), k)
    {
      LeastMeets(cache, root, f, depth, size, ROOT, k);
    }
  }

  ghost predicate PartsList(cache: Nodes, root: Node, f: Forest) {
    forall b, k {:trigger CoversKey(f, b, k)} ::
      CoversKey(f, b, k) && (b == ROOT || b in cache) && NodeAt(cache, root, b).Counted() ==>
        PartLists(NodeAt(cache, root, b), k)
  }

  lemma MissedTells(cache: Nodes, root: Node, f: Forest, depth: nat, size: nat, k: Key, b: Addr)
    requires Stands(cache, root, f, depth, size) && CoversKey(f, b, k) && k in f[b].m
    requires Tree(cache, root) && !Met(cache, root, k)
    ensures (b == ROOT || b in cache) && NodeAt(cache, root, b).Counted() &&
            !ReadRight(cache, root, NodeAt(cache, root, b), k)
  {
    hide Stands, Inv, Met, View, Latest;
    StandsFacts(cache, root, f, depth, size, b);
    StandsTree(cache, root, f, depth, size, b);
    TreeWf(cache, NodeAt(cache, root, b));
    ViewIsLatest(NodeAt(cache, root, b).All(), k);
  }

  /** If no leaf is empty, neither is the first one entered. */
  lemma FirstHasRecord(cache: Nodes, root: Node, f: Forest, depth: nat, size: nat)
    requires Stands(cache, root, f, depth, size) && NoneEmpty(f) && Tree(cache, root)
    ensures FirstLeaf(cache, root).All() != []
  {
    hide Stands, Inv, NoneEmpty, View;
    RootSpan(cache, root, f, depth, size);
    var b := FirstIsLeaf(cache, root, f, depth, size, ROOT);
    StandsFacts(cache, root, f, depth, size, b);
    EmptyView();
    LeafNotEmpty(f, b);
  }

  lemma LeafNotEmpty(f: Forest, b: Addr)
    requires NoneEmpty(f) && b in f && f[b].level == 0
    ensures f[b].m != map[]
  {}

  lemma {:induction false} FirstIsLeaf(cache: Nodes, root: Node, f: Forest, depth: nat, size: nat, a: Addr)
    returns (b: Addr)
    requires Stands(cache, root, f, depth, size) && a in f
    ensures b in f && f[b].level == 0 && (b == ROOT || b in cache)
    ensures Tree(cache, NodeAt(cache, root, a)) &&
            Seek(cache, NodeAt(cache, root, a), MIN_KEY)[0] == NodeAt(cache, root, b)
    decreases f[a].level
  {
    hide Stands, Inv;
    StandsFacts(cache, root, f, depth, size, a);
    StandsTree(cache, root, f, depth, size, a);
    var n := NodeAt(cache, root, a);
    b := a;
    if n.level > 0 {
      var i := ChildFor(n, MIN_KEY);
      ChildInRange(n.All(), MIN_KEY, i);
      assert ChildTree(cache, n, i);
      ChildIs(cache, root, f, depth, size, a, i);
      b := FirstIsLeaf(cache, root, f, depth, size, n.All()[i].val.paddr);
    }
  }

  // ---- the order of what is read ----

  /** Every inner node is in key order. */
  ghost predicate InnerSorted(cache: Nodes, root: Node, f: Forest) {
    forall a {:trigger SortedAt(cache, root, f, a)} :: a in f && (a == ROOT || a in cache) ==>
        SortedAt(cache, root, f, a)
  }

  ghost predicate SortedAt(cache: Nodes, root: Node, f: Forest, a: Addr)
    requires a in f && (a == ROOT || a in cache)
  {
    f[a].level > 0 ==> Strict(NodeAt(cache, root, a).All())
  }

  /** All records of a leaf come before all records of the leaves behind it. */
  ghost predicate LeavesOrdered(leaves: seq<Node>) {
    forall i, j, r, s :: 0 <= i < j < |leaves| && r in leaves[i].All() && s in leaves[j].All() ==> r.key < s.key
  }

  ghost predicate LeavesWithin(leaves: seq<Node>, lo: nat, hi: nat) {
    forall i :: 0 <= i < |leaves| ==> Within(leaves[i].All(), lo, hi)
  }

  lemma JoinOrdered(x: seq<Node>, y: seq<Node>, lo: nat, mid: nat, hi: nat)
    requires lo <= mid <= hi && LeavesOrdered(x) && LeavesOrdered(y) && LeavesWithin(x, lo, mid) &&
             LeavesWithin(y, mid, hi)
    ensures LeavesOrdered(x + y) && LeavesWithin(x + y, lo, hi)
  {
    var z := x + y;
    forall i | 0 <= i < |z| ensures Within(z[i].All(), lo, hi) {
      assert if i < |x| then Within(x[i].All(), lo, mid) else Within(y[i - |x|].All(), mid, hi);
    }
    forall i, j, r, s | 0 <= i < j < |z| && r in z[i].All() && s in z[j].All() ensures r.key < s.key {
      if i < |x| { assert Within(x[i].All(), lo, mid); }
      if j >= |x| { assert Within(y[j - |x|].All(), mid, hi); }
    }
  }

  /** In a sorted inner node, a child's interval ends where the next one's begins. */
  lemma ChildEnds(cache: Nodes, root: Node, f: Forest, depth: nat, size: nat, a: Addr, i: nat)
    requires Stands(cache, root, f, depth, size) && a in f && f[a].level > 0
    requires i < |NodeAt(cache, root, a).All()| && Strict(NodeAt(cache, root, a).All())
    ensures var rs := NodeAt(cache, root, a).All(); var c := rs[i].val.paddr;
            c in f && c in cache && f[c].lo == rs[i].key < f[c].hi == if i + 1 < |rs| then rs[i + 1].key else f[a].hi
  {
    hide Stands, Inv, View, NodeAt, Parent, Clean;
    StandsFacts(cache, root, f, depth, size, a);
    ChildIs(cache, root, f, depth, size, a, i);
    StandsFacts(cache, root, f, depth, size, NodeAt(cache, root, a).All()[i].val.paddr);
    var rs := NodeAt(cache, root, a).All();
    var c := rs[i].val.paddr;
    CleanView(rs);
    var h := f[c].hi;
    if h != f[a].hi {
      var j :| 0 <= j < |rs| && rs[j].key == h;
      assert j > i;
    }
    if i + 1 < |rs| { assert rs[i + 1].key in f[a].m; }
  }

  /** The first routing entry of a sorted node is its least one, at the node's low end. */
  lemma FirstIsLeast(cache: Nodes, root: Node, f: Forest, depth: nat, size: nat, a: Addr)
    requires Stands(cache, root, f, depth, size) && a in f && f[a].level > 0
    requires Strict(NodeAt(cache, root, a).All())
    ensures var rs := NodeAt(cache, root, a).All();
            rs != [] && IsChildFor(rs, MIN_KEY, 0) && rs[0].key == f[a].lo
  {
    hide Stands, Inv, View, ChildOk;
    StandsFacts(cache, root, f, depth, size, a);
    var rs := NodeAt(cache, root, a).All();
    CleanView(rs);
    var lo: Key := f[a].lo;
    var j :| 0 <= j < |rs| && rs[j].key == lo;
    assert rs[0].key in f[a].m;
    assert j == 0;
    forall r | r in rs ensures rs[0].key <= r.key {
      var i :| 0 <= i < |rs| && rs[i] == r;
    }
    assert rs[0] in rs;
  }

  /** In a tree with sorted inner nodes, a scan enters the leaves in key order, and since the
      first routing record then is the least one, all of them. */
  lemma {:induction false} ScanOrdered(cache: Nodes, root: Node, f: Forest, depth: nat, size: nat, a: Addr)
    requires Stands(cache, root, f, depth, size) && InnerSorted(cache, root, f) && a in f
    ensures var n := NodeAt(cache, root, a);
            && Tree(cache, n) && LeastFirst(cache, n)
            && LeavesOrdered(Seek(cache, n, MIN_KEY)) && LeavesWithin(Seek(cache, n, MIN_KEY), f[a].lo, f[a].hi)
    decreases f[a].level, 0
  {
    hide LeavesOrdered, LeavesWithin, Inv, Stands;
    StandsFacts(cache, root, f, depth, size, a);
    StandsTree(cache, root, f, depth, size, a);
    assert SortedAt(cache, root, f, a);
    var n := NodeAt(cache, root, a);
    if n.level == 0 {
      OneOrdered(n, f[a].lo, f[a].hi);
    } else {
      FirstIsLeast(cache, root, f, depth, size, a);
      SeekIsRight(cache, n);
      RightOrdered(cache, root, f, depth, size, a, 0);
    }
  }

  lemma OneOrdered(n: Node, lo: nat, hi: nat)
    requires Within(n.All(), lo, hi)
    ensures LeavesOrdered([n]) && LeavesWithin([n], lo, hi)
  {}

  lemma {:induction false} RightOrdered(cache: Nodes, root: Node, f: Forest, depth: nat, size: nat, a: Addr, i: nat)
    requires Stands(cache, root, f, depth, size) && InnerSorted(cache, root, f) && a in f && f[a].level > 0
    requires i < |NodeAt(cache, root, a).All()|
    ensures var n := NodeAt(cache, root, a);
            && Tree(cache, n) && n.level > 0 && AllLeast(cache, n, i)
            && LeavesOrdered(Right(cache, n, i)) && LeavesWithin(Right(cache, n, i), n.All()[i].key, f[a].hi)
    decreases f[a].level - 1, 1 + |NodeAt(cache, root, a).All()| - i
  {
    hide LeavesOrdered, LeavesWithin, Inv, Stands, NodeAt, Parent;
    StandsFacts(cache, root, f, depth, size, a);
    StandsTree(cache, root, f, depth, size, a);
    assert SortedAt(cache, root, f, a);
    var n := NodeAt(cache, root, a);
    ChildIs(cache, root, f, depth, size, a, i);
    ChildEnds(cache, root, f, depth, size, a, i);
    assert ChildTree(cache, n, i);
    var c := n.All()[i].val.paddr;
    ScanOrdered(cache, root, f, depth, size, c);
    if i + 1 < |n.All()| {
      RightOrdered(cache, root, f, depth, size, a, i + 1);
      ChildIs(cache, root, f, depth, size, a, i + 1);
    }
    OrderedStep(cache, n, i, f[c].lo, f[c].hi, f[a].hi);
  }

  lemma OrderedStep(cache: Nodes, n: Node, i: nat, lo: nat, mid: nat, hi: nat)
    requires Tree(cache, n) && n.level > 0 && i < |n.All()| && ChildTree(cache, n, i) && lo <= mid <= hi
    requires var c := Child(cache, n, i);
             LeastFirst(cache, c) && LeavesOrdered(Seek(cache, c, MIN_KEY)) &&
             LeavesWithin(Seek(cache, c, MIN_KEY), lo, mid)
    requires if i + 1 < |n.All()|
             then AllLeast(cache, n, i + 1) && LeavesOrdered(Right(cache, n, i + 1)) &&
                  LeavesWithin(Right(cache, n, i + 1), mid, hi)
             else mid == hi
    ensures AllLeast(cache, n, i) && LeavesOrdered(Right(cache, n, i)) && LeavesWithin(Right(cache, n, i), lo, hi)
  {
    hide LeavesOrdered, LeavesWithin, LeastFirst, Seek;
    assert LeastBelow(cache, n, i);
    var s, r := Seek(cache, Child(cache, n, i), MIN_KEY), Right(cache, n, i + 1);
    if i + 1 < |n.All()| {
      JoinOrdered(s, r, lo, mid, hi);
    } else {
      assert r == [] && s + r == s;
    }
  }

  ghost predicate Tidy(n: Node) { n.keyCount == |n.All()| && Strict(n.All()) && AllLive(n.All()) }

  /** Leaves in order that are as compaction leaves them are read as one sorted run. */
  lemma {:induction false} TidyFlat(leaves: seq<Node>)
    requires AllCounted(leaves) && LeavesOrdered(leaves) && forall i :: 0 <= i < |leaves| ==> Tidy(leaves[i])
    ensures Strict(Flat(leaves)) && AllLive(Flat(leaves))
    ensures forall r :: r in Flat(leaves) ==> Stored(leaves, r)
  {
    hide Strict, LeavesOrdered, Stored, AllLive, ReadPart, Window;
    if leaves != [] {
      var n, later := leaves[0], leaves[1..];
      LaterOrdered(leaves);
      TidyFlat(later);
      TidyIsRead(n);
      JoinStrict(n.All(), Flat(later));
    } else {
      NoneStrict();
    }
  }

  /** A record of one of the leaves. */
  ghost predicate Stored(leaves: seq<Node>, r: Rec) {
    exists i :: 0 <= i < |leaves| && r in leaves[i].All()
  }

  lemma TidyIsRead(n: Node)
    requires n.Counted() && Tidy(n)
    ensures Strict(n.All()) && AllLive(n.All()) && Window(n, 1) == n.All()
  {
    WindowIsPart(n);
    assert ReadPart(n) == n.All();
  }

  lemma LaterOrdered(leaves: seq<Node>)
    requires leaves != [] && LeavesOrdered(leaves)
    ensures LeavesOrdered(leaves[1..])
    ensures forall r, s :: r in leaves[0].All() && Stored(leaves[1..], s) ==> r.key < s.key
    ensures forall r :: r in leaves[0].All() || Stored(leaves[1..], r) ==> Stored(leaves, r)
  {
    var later := leaves[1..];
    forall i | 0 <= i < |later| ensures later[i] == leaves[i + 1] {}
    forall r | r in leaves[0].All() || Stored(later, r) ensures Stored(leaves, r) {
      if r !in leaves[0].All() {
        var i :| 0 <= i < |later| && r in later[i].All();
        assert r in leaves[i + 1].All();
      }
    }
  }

  lemma NoneStrict()
    ensures Strict([]) && AllLive([])
  {}

  lemma JoinStrict(a: seq<Rec>, b: seq<Rec>)
    requires Strict(a) && Strict(b) && AllLive(a) && AllLive(b) && forall r, s :: r in a && s in b ==> r.key < s.key
    ensures Strict(a + b) && AllLive(a + b)
  {}

  lemma {:induction false} RetainAll(rs: seq<Rec>)
    requires AllLive(rs)
    ensures RetainLive(rs) == rs
  {
    if rs != [] {
      assert rs == [rs[0]] + rs[1..] && rs[0] in rs;
      RetainAll(rs[1..]);
    }
  }

  /** Inner nodes are sorted, and leaves as compaction leaves them. */
  ghost predicate AllTidy(cache: Nodes, root: Node, f: Forest) {
    InnerSorted(cache, root, f) &&
      forall a :: a in f && f[a].level == 0 && (a == ROOT || a in cache) ==> Tidy(NodeAt(cache, root, a))
  }

  lemma {:induction false} EnteredTidy(cache: Nodes, root: Node, f: Forest, depth: nat, size: nat, a: Addr, t: Key)
    requires Stands(cache, root, f, depth, size) && AllTidy(cache, root, f) && a in f
    ensures var n := NodeAt(cache, root, a); Tree(cache, n) && forall x :: x in Seek(cache, n, t) ==> Tidy(x)
    decreases f[a].level, 0
  {
    hide Stands, Inv;
    StandsFacts(cache, root, f, depth, size, a);
    StandsTree(cache, root, f, depth, size, a);
    var n := NodeAt(cache, root, a);
    if n.level > 0 {
      var i := ChildFor(n, t);
      ChildInRange(n.All(), t, i);
      assert ChildTree(cache, n, i);
      ChildIs(cache, root, f, depth, size, a, i);
      EnteredTidy(cache, root, f, depth, size, n.All()[i].val.paddr, t);
      RightTidy(cache, root, f, depth, size, a, i + 1);
    }
  }

  lemma {:induction false} RightTidy(cache: Nodes, root: Node, f: Forest, depth: nat, size: nat, a: Addr, i: nat)
    requires Stands(cache, root, f, depth, size) && AllTidy(cache, root, f) && a in f && f[a].level > 0
    ensures var n := NodeAt(cache, root, a);
            Tree(cache, n) && n.level > 0 && forall x :: x in Right(cache, n, i) ==> Tidy(x)
    decreases f[a].level - 1, 1 + (if i < |NodeAt(cache, root, a).All()| then |NodeAt(cache, root, a).All()| - i else 0)
  {
    hide Stands, Inv;
    StandsFacts(cache, root, f, depth, size, a);
    StandsTree(cache, root, f, depth, size, a);
    var n := NodeAt(cache, root, a);
    if i < |n.All()| {
      assert ChildTree(cache, n, i);
      ChildIs(cache, root, f, depth, size, a, i);
      EnteredTidy(cache, root, f, depth, size, n.All()[i].val.paddr, MIN_KEY);
      RightTidy(cache, root, f, depth, size, a, i + 1);
    }
  }

  /** In a tidy tree a scan yields the map's records strictly in order, unless the first leaf
      is empty and others are not. */
  lemma TidyScan(cache: Nodes, root: Node, f: Forest, depth: nat, size: nat)
    requires Stands(cache, root, f, depth, size) && AllTidy(cache, root, f)
    ensures Tree(cache, root) && Strict(Yield(cache, root)) && RetainLive(Yield(cache, root)) == Yield(cache, root)
    ensures View(Yield(cache, root)) == Contents(f) <==> FirstLeaf(cache, root).All() != [] || Contents(f) == map[]
  {
    hide Stands, Inv, Contents, View, LeastFirst, LeavesOrdered;
    RootSpan(cache, root, f, depth, size);
    ScanOrdered(cache, root, f, depth, size, ROOT);
    EnteredTidy(cache, root, f, depth, size, ROOT, MIN_KEY);
    CountedSeek(cache, root, MIN_KEY);
    var s := Seek(cache, root, MIN_KEY);
    assert forall i :: 0 <= i < |s| ==> s[i] in s;
    TidyFlat(s);
    RetainAll(Yield(cache, root));
    ScanCompleteIff(cache, root, f, depth, size);
    ScanIsMap(cache, root, f, depth, size);
  }

  // ---- iterating ----

  /** Visits every entry of the tree. */
  method ForEach(t: Btree) returns (out: seq<Rec>)
    requires t.Valid()
    ensures Tree(t.cache, t.root) && out == RetainLive(Yield(t.cache, t.root))
    ensures View(out) == t.Map() <==>
            if FirstLeaf(t.cache, t.root).All() == [] then t.Map() == map[] else EachListed(t.cache, t.root, t.shape)
    ensures LeastFirst(t.cache, t.root) && FirstLeaf(t.cache, t.root).All() != [] ==>
              (View(out) == t.Map() <==> PartsList(t.cache, t.root, t.shape))
    ensures AllTidy(t.cache, t.root, t.shape) ==>
              && Strict(out)
              && (View(out) == t.Map() <==> FirstLeaf(t.cache, t.root).All() != [] || t.Map() == map[])
  {
    hide Stands, EachListed, AllTidy, PartsList, LeastFirst, Yield, FirstLeaf, Contents, Strict;
    ValidStands(t);
    ScanIsMap(t.cache, t.root, t.shape, t.depth, t.nodeSize);
    if LeastFirst(t.cache, t.root) && FirstLeaf(t.cache, t.root).All() != [] {
      ListIff(t.cache, t.root, t.shape, t.depth, t.nodeSize);
    }
    if AllTidy(t.cache, t.root, t.shape) {
      TidyScan(t.cache, t.root, t.shape, t.depth, t.nodeSize);
    }
    var it := new BtreeIter(t.root, t.cache, MIN_KEY);
    StartYields(t.cache, t.root, it);
    out := Collect(it);
  }

  lemma StartYields(cache: Nodes, root: Node, it: BtreeIter)
    requires it.Valid() && it.cache == cache && Tree(cache, root)
    requires [Top(it.path)] + Later(cache, it.path) == Seek(cache, root, MIN_KEY)
    requires it.path[|it.path| - 1].offset == 1
    ensures Yield(cache, root) == if it.Here() == [] then [] else it.Here() + it.Beyond()
  {
    CountedLater(cache, it.path);
    FlatCons(Top(it.path), Later(cache, it.path));
  }

  /** Drains an iterator, leaving out tombstones. */
  method Collect(it: BtreeIter) returns (out: seq<Rec>)
    requires it.Valid()
    modifies it
    ensures out == RetainLive(old(if it.Here() == [] then [] else it.Here() + it.Beyond()))
  {
    hide IsStack, Later, Flat, Window, BtreeIter.Here, BtreeIter.Beyond, BtreeIter.Valid;
    ghost var all, done := it.Here() + it.Beyond(), [];
    out := [];
    while true
      invariant it.Valid() && done + (it.Here() + it.Beyond()) == all
      invariant it.Here() == [] ==> done == [] && old(it.Here()) == []
      invariant old(it.Here()) == [] ==> done == [] && it.Here() == []
      invariant out == RetainLive(done)
      decreases |it.Here() + it.Beyond()|
    {
      var e := it.Peek();
      if e.None? { return; }
      RetainAppend(done, e.value);
      if e.value.kind.Normal? { out := out + [e.value]; }
      done := done + [e.value];
      assert it.Here() + it.Beyond() == [e.value] + it.After();
      var ok := it.Advance();
      if !ok { assert done == all; return; }
    }
  }

  lemma {:induction false} RetainAppend(rs: seq<Rec>, r: Rec)
    ensures RetainLive(rs + [r]) == RetainLive(rs) + if r.kind.Normal? then [r] else []
  {
    if rs == [] {
      assert [] + [r] == [r] && [r][1..] == [];
    } else {
      RetainAppend(rs[1..], r);
      assert (rs + [r])[1..] == rs[1..] + [r];
    }
  }

  // ---- where scans and lookups fall short ----

  /** A merge keeps the least routing record first exactly if it did not make the least entry,
      or leaves no other one. */
  lemma ReroutedLeastIff(rs: seq<Rec>, k: Key, s: Addr)
    requires Rerouted(rs, k, s) && Clean(rs)
    ensures IsChildFor(rs, MIN_KEY, 0) <==> |rs| == 1 || exists r :: r in rs && r.key < k
  {
    var last := |rs| - 1;
    assert rs[last] in rs && rs[0] in rs;
    forall r | r in rs ensures r == rs[last] || rs[0].key <= r.key {
      var i :| 0 <= i < |rs| && rs[i] == r;
      if i < last { assert rs[..last][0] == rs[0] && rs[..last][i] == r; }
    }
  }

  /** With the least routing record of the root last, only its child is read. */
  lemma LastIsLeast(cache: Nodes, root: Node, f: Forest, depth: nat, size: nat, s: Addr)
    requires Stands(cache, root, f, depth, size) && depth > 0 && s in f
    requires Rerouted(root.All(), MIN_KEY, s) && |root.All()| > 1
    ensures Tree(cache, root) && !LeastFirst(cache, root)
    ensures forall k: Key :: Met(cache, root, k) ==> k < f[s].hi
  {
    hide Stands, Inv;
    RootSpan(cache, root, f, depth, size);
    StandsFacts(cache, root, f, depth, size, ROOT);
    StandsTree(cache, root, f, depth, size, ROOT);
    RootLevel(cache, root, f, depth, size);
    var rs, last := root.All(), |root.All()| - 1;
    ReroutedLeastIff(rs, MIN_KEY, s);
    assert rs[last] in rs;
    SeekIsRight(cache, root);
    IsChildForUnique(rs, MIN_KEY, last, ChildFor(root, MIN_KEY));
    forall k: Key | Met(cache, root, k) ensures k < f[s].hi {
      ChildInRange(rs, k, ChildFor(root, k));
      OnlyChild(cache, root, f, depth, size, ROOT, ChildFor(root, k), k);
    }
  }

  lemma RootLevel(cache: Nodes, root: Node, f: Forest, depth: nat, size: nat)
    requires Stands(cache, root, f, depth, size)
    ensures ROOT in f && f[ROOT].level == depth && root.level == depth && root.Map() == f[ROOT].m
    ensures depth > 0 ==> Clean(root.All())
  {
    hide Inv;
    assert MatchAt(cache[ROOT := root], f, size, ROOT);
    assert RootOk(f, depth) by { RootIsOk(f, depth); }
  }

  lemma RootIsOk(f: Forest, depth: nat)
    requires Inv(f, depth)
    ensures RootOk(f, depth)
  {}

  /** Joined to its right neighbour, the first child leaves at least one other entry. */
  lemma FirstJoined(f: Forest, depth: nat, a: Addr, b: Addr)
    requires Inv(f, depth) && Partner(f, ROOT, a, b) && f[a].lo == 0 && |f[ROOT].m| >= 3
    ensures f[a].hi == f[b].lo
    ensures var g := Joined(f, ROOT, a, b);
            b in g && g[b].hi == f[b].hi && ROOT in g && exists k :: k in g[ROOT].m && k != MIN_KEY
  {
    assert SpanOk(f[a]) && SpanOk(f[b]);
    var m, ka: Key, kb: Key := f[ROOT].m, f[a].lo, f[b].lo;
    TwoFewer(m, m - {ka, kb}, ka, kb);
    var rest := m - {ka, kb};
    assert rest != map[];
    var k :| k in rest;
    assert k in Joined(f, ROOT, a, b)[ROOT].m;
  }

  lemma SecondEntry(rs: seq<Rec>, s: Addr)
    requires Rerouted(rs, MIN_KEY, s) && Clean(rs) && exists k :: k in View(rs) && k != MIN_KEY
    ensures |rs| > 1
  {
    CleanView(rs);
    var k :| k in View(rs) && k != MIN_KEY;
    var i :| 0 <= i < |rs| && rs[i].key == k;
  }

  /** Merging the first of at least three children of the root puts the least routing record
      last. From then on a scan meets only the keys of the merged child. */
  method MergeFirst(t: Btree, a: Addr) returns (merged: bool)
    requires t.Valid() && Parent(t.shape, ROOT, a) && t.shape[a].lo == 0 && |t.root.Map()| >= 3
    requires exists b: Addr :: CanTake(t.AllNodes(), t.shape, t.nodeSize, ROOT, a, b)
    modifies t
    ensures merged && t.Valid() && t.Map() == old(t.Map())
    ensures Tree(t.cache, t.root) && !LeastFirst(t.cache, t.root)
    ensures exists b: Addr :: old(CanTake(t.AllNodes(), t.shape, t.nodeSize, ROOT, a, b)) &&
                              forall k: Key :: Met(t.cache, t.root, k) ==> k < old(t.shape[b].hi)
  {
    hide Stands, Inv, Good, Matches, LeastFirst, Met, Joined, Rerouted, Contents, Clean, View;
    ghost var f := t.shape;
    ValidStands(t);
    RootLevel(t.cache, t.root, f, t.depth, t.nodeSize);
    StandsFacts(t.cache, t.root, f, t.depth, t.nodeSize, ROOT);
    merged := t.TryMergeNode(a, []);
    ghost var b: Addr :| old(CanTake(t.AllNodes(), t.shape, t.nodeSize, ROOT, a, b)) &&
                         MergedTo(old(t.Here()), t.Here(), ROOT, a, b);
    FirstJoined(f, t.depth, a, b);
    ValidStands(t);
    RootLevel(t.cache, t.root, t.shape, t.depth, t.nodeSize);
    SecondEntry(t.root.All(), b);
    LastIsLeast(t.cache, t.root, t.shape, t.depth, t.nodeSize, b);
  }

  /** A tombstone is not counted, so right after a delete a full iteration still lists the
      key. */
  lemma DeletedIsListed(cache: Nodes, root: Node, n: Node, k: Key)
    requires Tree(cache, root) && Met(cache, root, k) && n.Counted() && n.keyCount == |n.All()| && HasLive(n.All(), k)
    ensures var n' := Put(n, Rec(k, Deleted, BchVal(0, 0)));
            n'.Counted() && k !in n'.Map() && !PartLists(n', k) && !Listed(cache, root, n', k)
  {
    hide Met;
    var del := Rec(k, Deleted, BchVal(0, 0));
    var n' := Put(n, del);
    ViewAppend(n.All(), del);
    assert ReadPart(n') == n.All();
    assert Latest(n.All() + [del], k) == Some(del) by { assert (n.All() + [del])[..|n.All()|] == n.All(); }
  }

  /** A key deleted by a tombstone and inserted again, all in one incremental run: the map
      has it, a lookup does not see it. */
  lemma ReinsertedIsVeiled(n: Node, k: Key, v: BchVal, i: nat, off: nat)
    requires n.Counted() && n.keyCount == |n.All()| && n.s2.recs == [] && k != MIN_KEY
    requires i < |n.s1.recs| && n.s1.recs[i].key == k && n.s1.recs[i].kind.Normal?
    requires var n' := n.(s1 := n.s1.(recs := n.s1.recs + [Rec(k, Deleted, BchVal(0, 0)), Rec(k, Normal, v)]),
                          keyCount := n.keyCount + 1);
             IsLanding(n', k, off)
    ensures var n' := n.(s1 := n.s1.(recs := n.s1.recs + [Rec(k, Deleted, BchVal(0, 0)), Rec(k, Normal, v)]),
                         keyCount := n.keyCount + 1);
            ViewAt(n'.All(), k) == Some(v) && n'.Counted() && ViewAt(Window(n', off), k) == None
  {
    var del, ins := Rec(k, Deleted, BchVal(0, 0)), Rec(k, Normal, v);
    var n' := n.(s1 := n.s1.(recs := n.s1.recs + [del, ins]), keyCount := n.keyCount + 1);
    var all := n'.All();
    assert all == n.All() + [del] + [ins];
    var x := |n.s0.recs| + i;
    assert all[x] == n.s1.recs[i] && FullRank(all[x]) == 2 * k;
    assert off - 1 <= x;
    var e := |n.All()| + 1;
    assert ReadEnd(n', off) == e && all[..e] == n.All() + [del];
    WindowSees(n', k, off);
    ViewAtAppend(n.All(), del, k);
    ViewAtAppend(n.All() + [del], ins, k);
  }

  /** A key inserted a second time into the same incremental run: an exact lookup still
      returns the first value. */
  lemma OverwrittenIsStale(n: Node, k: Key, v0: BchVal, v: BchVal, i: nat, off: nat)
    requires n.Counted() && n.s2.recs == [] && k != MIN_KEY
    requires i < |n.s1.recs| && n.s1.recs[i] == Rec(k, Normal, v0)
    requires forall x :: 0 <= x < i ==> n.s1.recs[x] != Rec(k, Normal, n.s1.recs[x].val)
    requires var n' := n.(s1 := n.s1.(recs := n.s1.recs + [Rec(k, Normal, v)]), keyCount := n.keyCount + 1);
             IsLanding(n', k, off)
    ensures var n' := n.(s1 := n.s1.(recs := n.s1.recs + [Rec(k, Normal, v)]), keyCount := n.keyCount + 1);
            ViewAt(n'.All(), k) == Some(v) && n'.Counted() && Landed(n', k, off) == Some(v0)
  {
    hide View, ViewAt, FirstOf, IsLanding, Landed;
    var n' := n.(s1 := n.s1.(recs := n.s1.recs + [Rec(k, Normal, v)]), keyCount := n.keyCount + 1);
    assert n'.All() == n.All() + [Rec(k, Normal, v)];
    ViewAtAppend(n.All(), Rec(k, Normal, v), k);
    LandedIs(n', k, off);
    OldestFirst(n.s1.recs, k, v0, v, i);
    assert n'.All()[|n.s0.recs| + i] == n.s1.recs[i];
  }

  /** A record appended behind others of its key is not the first one. */
  lemma OldestFirst(rs: seq<Rec>, k: Key, v0: BchVal, v: BchVal, i: nat)
    requires i < |rs| && rs[i] == Rec(k, Normal, v0)
    requires forall x :: 0 <= x < i ==> rs[x] != Rec(k, Normal, rs[x].val)
    ensures FirstOf(rs + [Rec(k, Normal, v)], k, Normal) == i + 1 && FirstOf([], k, Normal) == 0
  {
    var all := rs + [Rec(k, Normal, v)];
    var p := FirstOf(all, k, Normal);
    assert all[i] == rs[i];
    forall x | 0 <= x < i ensures all[x] != Rec(k, Normal, all[x].val) { assert all[x] == rs[x]; }
  }
}
