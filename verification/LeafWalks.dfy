/** Which leaves a scan from the least key enters, and which records of a key it meets. */
module LeafWalks {
  import opened Records
  import opened BtreeNodes
  import opened BtreeShape
  import opened Routing
  import opened BtreeIters
  import opened BtreeSteps
  import opened Lookups
  import StableSort

  // ---- all leaves, and those entered ----

  /** The leaves below a node, each once, in the order of the routing records. */
  ghost function Leaves(cache: Nodes, n: Node): (r: seq<Node>)
    requires Tree(cache, n)
    decreases n.level, 0
  {
    if n.level == 0 then [n] else LeavesFrom(cache, n, 0)
  }

  ghost function LeavesFrom(cache: Nodes, n: Node, i: nat): (r: seq<Node>)
    requires Tree(cache, n) && n.level > 0
    decreases n.level - 1, 1 + (if i < |n.All()| then |n.All()| - i else 0)
  {
    if i >= |n.All()| then []
    else
      assert ChildTree(cache, n, i);
      Leaves(cache, Child(cache, n, i)) + LeavesFrom(cache, n, i + 1)
  }

  /** In every inner node the first record is the least one. */
  ghost predicate LeastFirst(cache: Nodes, n: Node)
    requires Tree(cache, n)
    decreases n.level, 1
  {
    n.level > 0 ==>
      IsChildFor(n.All(), MIN_KEY, 0) &&
      forall i {:trigger LeastBelow(cache, n, i)} :: 0 <= i < |n.All()| ==> LeastBelow(cache, n, i)
  }

  ghost predicate LeastBelow(cache: Nodes, n: Node, i: nat)
    requires Tree(cache, n) && n.level > 0 && i < |n.All()|
    decreases n.level, 0
  {
    assert ChildTree(cache, n, i);
    LeastFirst(cache, Child(cache, n, i))
  }

  /** A descent to the least key enters a node at its least record and goes right from there. */
  lemma SeekIsRight(cache: Nodes, n: Node)
    requires Tree(cache, n) && n.level > 0
    ensures ChildFor(n, MIN_KEY) < |n.All()| && Seek(cache, n, MIN_KEY) == Right(cache, n, ChildFor(n, MIN_KEY))
    ensures ChildFor(n, MIN_KEY) == 0 <==> IsChildFor(n.All(), MIN_KEY, 0)
  {
    var i := ChildFor(n, MIN_KEY);
    assert ChildTree(cache, n, i);
    if IsChildFor(n.All(), MIN_KEY, 0) { IsChildForUnique(n.All(), MIN_KEY, 0, i); }
  }

  /** A scan from the least key enters every leaf exactly once, in routing order, if and only
      if no inner node has its least record behind another one; otherwise it leaves some out. */
  lemma {:induction false} EntersAllIff(cache: Nodes, n: Node)
    requires Tree(cache, n)
    ensures |Seek(cache, n, MIN_KEY)| == |Leaves(cache, n)| <==> LeastFirst(cache, n)
    ensures LeastFirst(cache, n) ==> Seek(cache, n, MIN_KEY) == Leaves(cache, n)
    ensures |Seek(cache, n, MIN_KEY)| <= |Leaves(cache, n)|
    decreases n.level, 0
  {
    if n.level > 0 {
      SeekIsRight(cache, n);
      var i := ChildFor(n, MIN_KEY);
      RightEnters(cache, n, i);
      if i > 0 { LeavesShrink(cache, n, i); }
    }
  }

  ghost predicate AllLeast(cache: Nodes, n: Node, i: nat)
    requires Tree(cache, n) && n.level > 0
  {
    forall j {:trigger LeastBelow(cache, n, j)} :: i <= j < |n.All()| ==> LeastBelow(cache, n, j)
  }

  lemma {:induction false} RightEnters(cache: Nodes, n: Node, i: nat)
    requires Tree(cache, n) && n.level > 0
    ensures |Right(cache, n, i)| == |LeavesFrom(cache, n, i)| <==> AllLeast(cache, n, i)
    ensures AllLeast(cache, n, i) ==> Right(cache, n, i) == LeavesFrom(cache, n, i)
    ensures |Right(cache, n, i)| <= |LeavesFrom(cache, n, i)|
    decreases n.level - 1, 1 + (if i < |n.All()| then |n.All()| - i else 0)
  {
    if i < |n.All()| {
      assert ChildTree(cache, n, i);
      EntersAllIff(cache, Child(cache, n, i));
      RightEnters(cache, n, i + 1);
      assert LeastBelow(cache, n, i) <==> LeastFirst(cache, Child(cache, n, i));
    }
  }

  /** Every child has a leaf, so leaving one out leaves a leaf out. */
  lemma {:induction false} LeavesShrink(cache: Nodes, n: Node, i: nat)
    requires Tree(cache, n) && n.level > 0 && 0 < i <= |n.All()|
    ensures |LeavesFrom(cache, n, i)| < |LeavesFrom(cache, n, 0)|
    decreases n.level - 1, 1 + i
  {
    assert ChildTree(cache, n, i - 1);
    EntersAllIff(cache, Child(cache, n, i - 1));
    if i > 1 { LeavesShrink(cache, n, i - 1); }
  }

  // ---- the records of one key ----

  /** On the way from the node to the leaf for a key, no node has the record to follow before
      its least one. */
  ghost predicate Met(cache: Nodes, n: Node, k: Key)
    requires Tree(cache, n)
    decreases n.level, 0
  {
    n.level == 0 || (ChildFor(n, MIN_KEY) <= ChildFor(n, k) && MetBelow(cache, n, ChildFor(n, k), k))
  }

  ghost predicate MetBelow(cache: Nodes, n: Node, i: nat, k: Key)
    requires Tree(cache, n) && n.level > 0 && i < |n.All()|
    decreases n.level - 1, 1
  {
    assert ChildTree(cache, n, i);
    Met(cache, Child(cache, n, i), k)
  }

  ghost function Only(rs: seq<Rec>, k: Key): seq<Rec> { StableSort.Only(rs, RecKey, k) }

  /** What a scan reads of a leaf: its counted part. */
  ghost function ReadPart(n: Node): seq<Rec>
    requires n.Counted()
  {
    n.All()[..n.keyCount]
  }

  lemma WindowIsPart(n: Node)
    requires n.Counted()
    ensures Window(n, 1) == ReadPart(n)
  {}

  lemma {:induction false} OnlyConcat(a: seq<Rec>, b: seq<Rec>, k: Key)
    ensures Only(a + b, k) == Only(a, k) + Only(b, k)
  {
    if a == [] {
      assert a + b == b;
    } else {
      OnlyConcat(a[1..], b, k);
      assert (a + b)[1..] == a[1..] + b;
    }
  }

  lemma {:induction false} OnlyNone(rs: seq<Rec>, k: Key)
    requires NoRec(rs, k)
    ensures Only(rs, k) == []
  {
    if rs != [] {
      assert rs[0] in rs;
      OnlyNone(rs[1..], k);
    }
  }

  /** Leaving out tombstones commutes with looking at one key. */
  lemma {:induction false} OnlyRetain(rs: seq<Rec>, k: Key)
    ensures Only(RetainLive(rs), k) == RetainLive(Only(rs, k))
  {
    if rs != [] {
      var first := if rs[0].kind.Normal? then [rs[0]] else [];
      OnlyRetain(rs[1..], k);
      OnlyConcat(first, RetainLive(rs[1..]), k);
      assert Only([rs[0]], k) == if rs[0].key == k then [rs[0]] else [] by { assert [rs[0]][1..] == []; }
      if rs[0].key == k {
        assert Only(rs, k) == [rs[0]] + Only(rs[1..], k);
        assert Only(rs, k)[1..] == Only(rs[1..], k);
      } else {
        assert Only(rs, k) == Only(rs[1..], k);
      }
    }
  }

  /** Runs with the same records of a key say the same about it, tombstones left out or not. */
  lemma OnlySays(a: seq<Rec>, b: seq<Rec>, k: Key)
    requires Only(a, k) == Only(b, k)
    ensures ViewAt(a, k) == ViewAt(b, k)
    ensures ViewAt(RetainLive(a), k) == ViewAt(RetainLive(b), k)
  {
    hide Latest, RetainLive, View, ViewAt;
    LatestOfOnly(a, k);
    LatestOfOnly(b, k);
    ViewAtLatest(a, k);
    ViewAtLatest(b, k);
    OnlyRetain(a, k);
    OnlyRetain(b, k);
    LatestOfOnly(RetainLive(a), k);
    LatestOfOnly(RetainLive(b), k);
    ViewAtLatest(RetainLive(a), k);
    ViewAtLatest(RetainLive(b), k);
  }

  /** No two children of a node cover the same key. */
  lemma OneChildCovers(cache: Nodes, root: Node, f: Forest, depth: nat, size: nat, a: Addr, i: nat, j: nat, k: Key)
    requires Stands(cache, root, f, depth, size) && a in f && f[a].level > 0
    requires i < |NodeAt(cache, root, a).All()| && j < |NodeAt(cache, root, a).All()|
    requires Covers(f, NodeAt(cache, root, a), i, k) && Covers(f, NodeAt(cache, root, a), j, k)
    ensures i == j
  {
    hide Stands, Inv, ChildOk;
    StandsFacts(cache, root, f, depth, size, a);
    ChildIs(cache, root, f, depth, size, a, i);
    ChildIs(cache, root, f, depth, size, a, j);
    var rs := NodeAt(cache, root, a).All();
    var c, d := rs[i].val.paddr, rs[j].val.paddr;
    ApartIfDistinct(f, depth, c, d);
  }

  lemma LacksOnly(leaves: seq<Node>, k: Key)
    requires AllCounted(leaves) && Lacking(leaves, k)
    ensures Only(Flat(leaves), k) == []
  {
    FlatLacks(leaves, k);
    OnlyNone(Flat(leaves), k);
  }

  /** Of the records of a key, a scan of a subtree meets those in the counted part of its
      leaf, all of them in order, or none at all. */
  lemma {:induction false} ScanMeets(cache: Nodes, root: Node, f: Forest, depth: nat, size: nat, a: Addr, k: Key,
                                     b: Addr)
    requires Stands(cache, root, f, depth, size) && a in f && f[a].lo <= k < f[a].hi && CoversKey(f, b, k)
    ensures (b == ROOT || b in cache) && NodeAt(cache, root, b).Counted()
    ensures var n := NodeAt(cache, root, a);
            && Tree(cache, n) && AllCounted(Seek(cache, n, MIN_KEY))
            && Only(Flat(Seek(cache, n, MIN_KEY)), k) ==
               if Met(cache, n, k) then Only(ReadPart(NodeAt(cache, root, b)), k) else []
    decreases f[a].level, 0
  {
    hide Stands, Inv, Only, Flat;
    StandsTree(cache, root, f, depth, size, a);
    StandsTree(cache, root, f, depth, size, b);
    StandsFacts(cache, root, f, depth, size, a);
    StandsFacts(cache, root, f, depth, size, b);
    TreeWf(cache, NodeAt(cache, root, b));
    var n := NodeAt(cache, root, a);
    CountedSeek(cache, n, MIN_KEY);
    if n.level == 0 {
      LeafOfKey(f, depth, b, k);
      assert CoversKey(f, a, k);
      FlatOne(n);
    } else {
      SeekIsRight(cache, n);
      RightMeets(cache, root, f, depth, size, a, ChildFor(n, MIN_KEY), k, b);
    }
  }

  lemma FlatOne(n: Node)
    requires n.Counted()
    ensures AllCounted([n]) && Flat([n]) == ReadPart(n)
  {
    WindowIsPart(n);
    FlatCons(n, []);
    assert [n] + [] == [n];
    assert Flat([]) == [];
  }

  lemma {:induction false} RightMeets(cache: Nodes, root: Node, f: Forest, depth: nat, size: nat, a: Addr, i: nat,
                                      k: Key, b: Addr)
    requires Stands(cache, root, f, depth, size) && a in f && f[a].level > 0
    requires f[a].lo <= k < f[a].hi && CoversKey(f, b, k)
    ensures (b == ROOT || b in cache) && NodeAt(cache, root, b).Counted()
    ensures var n := NodeAt(cache, root, a);
            && Tree(cache, n) && n.level > 0 && n.All() != [] && AllCounted(Right(cache, n, i))
            && Only(Flat(Right(cache, n, i)), k) ==
               if i <= ChildFor(n, k) && MetBelow(cache, n, ChildFor(n, k), k)
               then Only(ReadPart(NodeAt(cache, root, b)), k)
               else []
    decreases f[a].level - 1, 1 + (if i < |NodeAt(cache, root, a).All()| then |NodeAt(cache, root, a).All()| - i else 0)
  {
    hide Stands, Inv, Only, Flat, Met;
    StandsTree(cache, root, f, depth, size, a);
    StandsTree(cache, root, f, depth, size, b);
    StandsFacts(cache, root, f, depth, size, a);
    StandsFacts(cache, root, f, depth, size, b);
    TreeWf(cache, NodeAt(cache, root, b));
    var n := NodeAt(cache, root, a);
    var j := ChildFor(n, k);
    ChildInRange(n.All(), k, j);
    CountedRight(cache, n, i);
    OnlyChild(cache, root, f, depth, size, a, j, k);
    if i > j {
      RightLacks(cache, root, f, depth, size, a, i, k);
      LacksOnly(Right(cache, n, i), k);
    } else {
      CountedRight(cache, n, i + 1);
      ChildIs(cache, root, f, depth, size, a, i);
      assert ChildTree(cache, n, i);
      var c := n.All()[i].val.paddr;
      var s, r := Seek(cache, Child(cache, n, i), MIN_KEY), Right(cache, n, i + 1);
      CountedSeek(cache, Child(cache, n, i), MIN_KEY);
      FlatConcat(s, r);
      OnlyConcat(Flat(s), Flat(r), k);
      RightMeets(cache, root, f, depth, size, a, i + 1, k, b);
      if i == j {
        ScanMeets(cache, root, f, depth, size, c, k, b);
      } else {
        if Covers(f, n, i, k) { OneChildCovers(cache, root, f, depth, size, a, i, j, k); }
        SeekLacks(cache, root, f, depth, size, c, MIN_KEY, k);
        LacksOnly(s, k);
      }
    }
  }

  lemma {:induction false} FlatConcat(x: seq<Node>, y: seq<Node>)
    requires AllCounted(x) && AllCounted(y)
    ensures AllCounted(x + y) && Flat(x + y) == Flat(x) + Flat(y)
  {
    hide Window;
    if x == [] {
      assert x + y == y;
    } else {
      FlatConcat(x[1..], y);
      assert (x + y)[1..] == x[1..] + y;
    }
  }

  // ---- when nothing is left out ----

  /** With least records first, every key is met. */
  lemma {:induction false} LeastMeets(cache: Nodes, root: Node, f: Forest, depth: nat, size: nat, a: Addr, k: Key)
    requires Stands(cache, root, f, depth, size) && a in f && f[a].lo <= k < f[a].hi
    requires Tree(cache, NodeAt(cache, root, a)) && LeastFirst(cache, NodeAt(cache, root, a))
    ensures Met(cache, NodeAt(cache, root, a), k)
    decreases f[a].level
  {
    hide Stands, Inv;
    StandsFacts(cache, root, f, depth, size, a);
    var n := NodeAt(cache, root, a);
    if n.level > 0 {
      SeekIsRight(cache, n);
      var j := ChildFor(n, k);
      ChildInRange(n.All(), k, j);
      OnlyChild(cache, root, f, depth, size, a, j, k);
      ChildIs(cache, root, f, depth, size, a, j);
      assert LeastBelow(cache, n, j) && ChildTree(cache, n, j);
      LeastMeets(cache, root, f, depth, size, n.All()[j].val.paddr, k);
    }
  }

  /** Every leaf holds a live key. */
  ghost predicate NoneEmpty(f: Forest) {
    forall a :: a in f && f[a].level == 0 ==> f[a].m != map[]
  }

  lemma {:induction false} SomeKey(f: Forest, depth: nat, a: Addr) returns (k: Key, b: Addr)
    requires Inv(f, depth) && a in f && NoneEmpty(f)
    ensures f[a].lo <= k < f[a].hi && CoversKey(f, b, k) && k in f[b].m
    decreases f[a].level
  {
    assert SpanOk(f[a]);
    if f[a].level == 0 {
      k :| k in f[a].m;
      b := a;
    } else {
      var lo: Key := f[a].lo;
      assert InnerOk(f, a) && ChildOk(f, a, lo);
      k, b := SomeKey(f, depth, f[a].m[lo].paddr);
    }
  }

  /** With a least record behind another one, some live key is not met. */
  lemma {:induction false} NotLeastMisses(cache: Nodes, root: Node, f: Forest, depth: nat, size: nat, a: Addr)
    returns (k: Key, b: Addr)
    requires Stands(cache, root, f, depth, size) && a in f && NoneEmpty(f)
    requires Tree(cache, NodeAt(cache, root, a)) && !LeastFirst(cache, NodeAt(cache, root, a))
    ensures f[a].lo <= k < f[a].hi && CoversKey(f, b, k) && k in f[b].m && !Met(cache, NodeAt(cache, root, a), k)
    decreases f[a].level
  {
    hide Stands, Inv, NoneEmpty, ChildOk;
    StandsFacts(cache, root, f, depth, size, a);
    var n := NodeAt(cache, root, a);
    SeekIsRight(cache, n);
    var i := if ChildFor(n, MIN_KEY) > 0 then 0 else NotBelow(cache, n);
    assert ChildTree(cache, n, i);
    ChildIs(cache, root, f, depth, size, a, i);
    var c := n.All()[i].val.paddr;
    ChildWithin(cache, root, f, depth, size, a, i);
    if ChildFor(n, MIN_KEY) > 0 {
      k, b := SomeKey(f, depth, c);
    } else {
      k, b := NotLeastMisses(cache, root, f, depth, size, c);
    }
    var j := ChildFor(n, k);
    ChildInRange(n.All(), k, j);
    OnlyChild(cache, root, f, depth, size, a, j, k);
    OneChildCovers(cache, root, f, depth, size, a, i, j, k);
  }

  ghost function NotBelow(cache: Nodes, n: Node): (i: nat)
    requires Tree(cache, n) && n.level > 0 && !LeastFirst(cache, n) && IsChildFor(n.All(), MIN_KEY, 0)
    ensures i < |n.All()| && !LeastBelow(cache, n, i)
  {
    assert (forall i {:trigger LeastBelow(cache, n, i)} :: 0 <= i < |n.All()| ==> LeastBelow(cache, n, i)) ==>
             LeastFirst(cache, n);
    var i: nat :| i < |n.All()| && !LeastBelow(cache, n, i);
    i
  }

  lemma ChildWithin(cache: Nodes, root: Node, f: Forest, depth: nat, size: nat, a: Addr, i: nat)
    requires Stands(cache, root, f, depth, size) && a in f && f[a].level > 0
    requires i < |NodeAt(cache, root, a).All()|
    ensures var c := NodeAt(cache, root, a).All()[i].val.paddr; c in f && f[a].lo <= f[c].lo && f[c].hi <= f[a].hi
  {
    hide Stands, Inv;
    StandsFacts(cache, root, f, depth, size, a);
    ChildIs(cache, root, f, depth, size, a, i);
  }
}
