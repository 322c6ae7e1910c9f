/** Reading a tree: exact lookups and full iteration, and what they say about its map. */
module Lookups {
  import opened Wrappers
  import opened Numbers
  import opened Records
  import opened BtreeNodes
  import opened BtreeShape
  import opened Routing
  import opened BtreeIters
  import opened BtreeSteps
  import opened Btrees

  /** What a run of records says about a key. */
  ghost function ViewAt(rs: seq<Rec>, k: Key): Option<BchVal> {
    At(View(rs), k)
  }

  ghost function At(m: map<Key, BchVal>, k: Key): Option<BchVal> {
    if k in m then Some(m[k]) else None
  }

  lemma ViewAtLatest(rs: seq<Rec>, k: Key)
    ensures ViewAt(rs, k) ==
            if Latest(rs, k).Some? && Latest(rs, k).value.kind.Normal? then Some(Latest(rs, k).value.val) else None
  {
    ViewIsLatest(rs, k);
  }

  // ---- a valid tree can be descended ----

  /** A tree as it stands: root and cache, with their shape. */
  ghost predicate Stands(cache: Nodes, root: Node, f: Forest, depth: nat, size: nat) {
    ROOT !in cache && Good(cache[ROOT := root], f, depth, size)
  }

  ghost function NodeAt(cache: Nodes, root: Node, a: Addr): Node
    requires a == ROOT || a in cache
  {
    cache[ROOT := root][a]
  }

  lemma StandsFacts(cache: Nodes, root: Node, f: Forest, depth: nat, size: nat, a: Addr)
    requires Stands(cache, root, f, depth, size) && a in f
    ensures Inv(f, depth) && SpanOk(f[a]) && InnerOk(f, a) && (a == ROOT || a in cache)
    ensures NodeAt(cache, root, a).Map() == f[a].m && NodeAt(cache, root, a).level == f[a].level
    ensures f[a].level > 0 ==> Clean(NodeAt(cache, root, a).All())
    ensures f[a].level == 0 ==> Within(NodeAt(cache, root, a).All(), f[a].lo, f[a].hi)
  {
    assert MatchAt(cache[ROOT := root], f, size, a);
  }

  /** A routing position of a node leads to the node under that routing key in the shape. */
  lemma ChildIs(cache: Nodes, root: Node, f: Forest, depth: nat, size: nat, a: Addr, i: nat)
    requires Stands(cache, root, f, depth, size) && a in f && f[a].level > 0
    requires i < |NodeAt(cache, root, a).All()|
    ensures var n := NodeAt(cache, root, a); var c, k := n.All()[i].val.paddr, n.All()[i].key;
            && c in cache && c in f && Parent(f, a, c) && f[c].lo == k && ChildOk(f, a, k)
            && f[a].m[k].paddr == c && Clean(n.All())
            && Child(cache, n, i) == NodeAt(cache, root, c) && f[c].level + 1 == f[a].level
  {
    var nodes := cache[ROOT := root];
    assert MatchAt(nodes, f, size, a);
    var n := nodes[a];
    CleanView(n.All());
    var k := n.All()[i].key;
    assert InnerOk(f, a) && ChildOk(f, a, k);
  }

  lemma {:induction false} StandsTree(cache: Nodes, root: Node, f: Forest, depth: nat, size: nat, a: Addr)
    requires Stands(cache, root, f, depth, size) && a in f
    ensures Tree(cache, NodeAt(cache, root, a)) && NodeAt(cache, root, a).level == f[a].level
    decreases f[a].level
  {
    var nodes := cache[ROOT := root];
    assert MatchAt(nodes, f, size, a);
    var n := nodes[a];
    if n.level > 0 {
      assert InnerOk(f, a);
      CleanView(n.All());
      forall i | 0 <= i < |n.All()| ensures ChildTree(cache, n, i) {
        ChildIs(cache, root, f, depth, size, a, i);
        StandsTree(cache, root, f, depth, size, n.All()[i].val.paddr);
      }
    }
  }

  // ---- which leaves can hold a key ----

  ghost predicate NoRec(rs: seq<Rec>, k: Key) {
    forall r :: r in rs ==> r.key != k
  }

  ghost predicate Lacking(leaves: seq<Node>, k: Key) {
    forall i :: 0 <= i < |leaves| ==> NoRec(leaves[i].All(), k)
  }

  lemma LackingConcat(a: seq<Node>, b: seq<Node>, k: Key)
    requires Lacking(a, k) && Lacking(b, k)
    ensures Lacking(a + b, k)
  {}

  /** Nothing below a node says anything about a key outside its interval. */
  lemma {:induction false} SeekLacks(cache: Nodes, root: Node, f: Forest, depth: nat, size: nat, a: Addr, t: Key,
                                     k: Key)
    requires Stands(cache, root, f, depth, size) && a in f && !(f[a].lo <= k < f[a].hi)
    ensures Tree(cache, NodeAt(cache, root, a)) && Lacking(Seek(cache, NodeAt(cache, root, a), t), k)
    decreases f[a].level, 0
  {
    hide Stands, Inv, NodeAt, Covers, Parent, Tree;
    StandsFacts(cache, root, f, depth, size, a);
    StandsTree(cache, root, f, depth, size, a);
    var n := NodeAt(cache, root, a);
    if n.level > 0 {
      var i := ChildFor(n, t);
      ChildIs(cache, root, f, depth, size, a, i);
      SeekLacks(cache, root, f, depth, size, n.All()[i].val.paddr, t, k);
      forall j | i + 1 <= j < |n.All()|
        ensures !Covers(f, n, j, k)
      {
        OutsideChild(cache, root, f, depth, size, a, j, k);
      }
      RightLacks(cache, root, f, depth, size, a, i + 1, k);
      LackingConcat(Seek(cache, Child(cache, n, i), t), Right(cache, n, i + 1), k);
    }
  }

  /** The child at a routing position covers the key. */
  ghost predicate Covers(f: Forest, n: Node, i: nat, k: Key)
    requires i < |n.All()|
  {
    var c := n.All()[i].val.paddr;
    c in f && f[c].lo <= k < f[c].hi
  }

  lemma OutsideChild(cache: Nodes, root: Node, f: Forest, depth: nat, size: nat, a: Addr, j: nat, k: Key)
    requires Stands(cache, root, f, depth, size) && a in f && f[a].level > 0 && !(f[a].lo <= k < f[a].hi)
    requires j < |NodeAt(cache, root, a).All()|
    ensures !Covers(f, NodeAt(cache, root, a), j, k)
  {
    ChildIs(cache, root, f, depth, size, a, j);
    assert SpanOk(f[a]);
  }

  lemma {:induction false} RightLacks(cache: Nodes, root: Node, f: Forest, depth: nat, size: nat, a: Addr, i: nat,
                                      k: Key)
    requires Stands(cache, root, f, depth, size) && a in f && f[a].level > 0
    requires forall j :: i <= j < |NodeAt(cache, root, a).All()| ==> !Covers(f, NodeAt(cache, root, a), j, k)
    ensures Tree(cache, NodeAt(cache, root, a)) && NodeAt(cache, root, a).level > 0
    ensures Lacking(Right(cache, NodeAt(cache, root, a), i), k)
    decreases f[a].level - 1, 1 + (if i < |NodeAt(cache, root, a).All()| then |NodeAt(cache, root, a).All()| - i else 0)
  {
    StandsTree(cache, root, f, depth, size, a);
    var n := NodeAt(cache, root, a);
    if i < |n.All()| {
      ChildIs(cache, root, f, depth, size, a, i);
      assert !Covers(f, n, i, k);
      SeekLacks(cache, root, f, depth, size, n.All()[i].val.paddr, MIN_KEY, k);
      RightLacks(cache, root, f, depth, size, a, i + 1, k);
      LackingConcat(Seek(cache, Child(cache, n, i), MIN_KEY), Right(cache, n, i + 1), k);
    }
  }

  /** A descent towards a key reaches the leaf covering it, and no leaf read after that one
      has a record of the key. */
  lemma {:induction false} SeekFinds(cache: Nodes, root: Node, f: Forest, depth: nat, size: nat, a: Addr, k: Key)
    returns (b: Addr)
    requires Stands(cache, root, f, depth, size) && a in f && f[a].lo <= k < f[a].hi
    ensures Tree(cache, NodeAt(cache, root, a)) && CoversKey(f, b, k) && (b == ROOT || b in cache)
    ensures var s := Seek(cache, NodeAt(cache, root, a), k);
            s[0] == NodeAt(cache, root, b) && Lacking(s[1..], k)
    decreases f[a].level
  {
    StandsTree(cache, root, f, depth, size, a);
    var n := NodeAt(cache, root, a);
    if n.level == 0 {
      b := a;
    } else {
      var i := ChildFor(n, k);
      var c := n.All()[i].val.paddr;
      ChildIs(cache, root, f, depth, size, a, i);
      OnlyChild(cache, root, f, depth, size, a, i, k);
      b := SeekFinds(cache, root, f, depth, size, c, k);
      RightLacks(cache, root, f, depth, size, a, i + 1, k);
      SeekTail(cache, n, i, k);
    }
  }

  lemma SeekTail(cache: Nodes, n: Node, i: nat, k: Key)
    requires Tree(cache, n) && n.level > 0 && i < |n.All()| && i == ChildFor(n, k) && ChildTree(cache, n, i)
    requires Lacking(Seek(cache, Child(cache, n, i), k)[1..], k) && Lacking(Right(cache, n, i + 1), k)
    ensures Seek(cache, n, k)[0] == Seek(cache, Child(cache, n, i), k)[0] && Lacking(Seek(cache, n, k)[1..], k)
  {
    var s, r := Seek(cache, Child(cache, n, i), k), Right(cache, n, i + 1);
    LackingConcat(s[1..], r, k);
    assert (s + r)[1..] == s[1..] + r;
  }

  /** The child a descent takes covers the key, and no other child does. */
  lemma OnlyChild(cache: Nodes, root: Node, f: Forest, depth: nat, size: nat, a: Addr, i: nat, k: Key)
    requires Stands(cache, root, f, depth, size) && a in f && f[a].level > 0 && f[a].lo <= k < f[a].hi
    requires IsChildFor(NodeAt(cache, root, a).All(), k, i)
    ensures var n := NodeAt(cache, root, a);
            Covers(f, n, i, k) && forall j :: i < j < |n.All()| ==> !Covers(f, n, j, k)
  {
    hide IsChildFor;
    var n := NodeAt(cache, root, a);
    assert i < |n.All()| by { ChildInRange(n.All(), k, i); }
    ChildIs(cache, root, f, depth, size, a, i);
    assert MatchAt(cache[ROOT := root], f, size, a) && InnerOk(f, a);
    var lo: Key := f[a].lo;
    ChildForMap(n.All(), k, lo, i);
    ChildCovers(f, depth, a, n.All()[i].key, k);
    forall j | i < j < |n.All()| ensures !Covers(f, n, j, k) {
      ChildIs(cache, root, f, depth, size, a, j);
      ApartIfDistinct(f, depth, n.All()[i].val.paddr, n.All()[j].val.paddr);
    }
  }

  lemma {:induction false} FlatLacks(leaves: seq<Node>, k: Key)
    requires AllCounted(leaves) && Lacking(leaves, k)
    ensures NoRec(Flat(leaves), k)
  {
    if leaves != [] {
      FlatLacks(leaves[1..], k);
      assert leaves[0].Counted();
    }
  }

  lemma {:induction false} NoRecLatest(rs: seq<Rec>, k: Key)
    requires NoRec(rs, k)
    ensures Latest(rs, k).None?
  {
    if rs != [] { NoRecLatest(rs[..|rs| - 1], k); }
  }

  // ---- what a search in a leaf sees ----

  lemma LandingUnique(n: Node, t: Key, x: nat, y: nat)
    requires IsLanding(n, t, x) && IsLanding(n, t, y)
    ensures x == y
  {}

  /** If the leaf has a record of the key at all, the search lands on one; for the least key
      it starts at the first record instead. */
  lemma LandingOnKey(n: Node, k: Key, off: nat, i: nat)
    requires n.Counted() && IsLanding(n, k, off) && i < |n.All()| && n.All()[i].key == k
    ensures 1 <= off <= |n.All()|
    ensures k != MIN_KEY ==> n.All()[off - 1].key == k
  {
    assert FullRank(n.All()[i]) >= 2 * k;
  }

  /** Where the part read from a landing position ends. */
  ghost function ReadEnd(n: Node, off: nat): (e: nat)
    ensures e <= |n.All()|
  {
    if Max(off, n.keyCount) <= |n.All()| then Max(off, n.keyCount) else |n.All()|
  }

  /** Records before the landing position do not matter. */
  lemma WindowSees(n: Node, k: Key, off: nat)
    requires n.Counted() && IsLanding(n, k, off)
    ensures ViewAt(Window(n, off), k) == ViewAt(n.All()[..ReadEnd(n, off)], k)
  {
    hide IsLanding, View, ViewAt, Latest;
    var all, e := n.All(), ReadEnd(n, off);
    LandingInRange(n, k, off);
    if 1 <= off <= |all| {
      var before, w := all[..off - 1], Window(n, off);
      assert all[..e] == before + w;
      if Latest(before, k).Some? {
        var i :| 0 <= i < |before| && before[i] == Latest(before, k).value;
        LandingOnKey(n, k, off, i);
        assert w[0] == all[off - 1];
      }
      SuffixSees(before, w, k);
    }
  }

  /** A stretch that starts with a record of the key hides everything before it. */
  lemma SuffixSees(before: seq<Rec>, w: seq<Rec>, k: Key)
    requires Latest(before, k).Some? ==> w != [] && w[0].key == k
    ensures ViewAt(before + w, k) == ViewAt(w, k)
  {
    ViewAtLatest(before + w, k);
    ViewAtLatest(w, k);
    LatestConcat(before, w, k);
    if w != [] && w[0].key == k { LatestFound(w, k, 0); }
  }

  lemma LandingInRange(n: Node, k: Key, off: nat)
    requires n.Counted() && IsLanding(n, k, off)
    ensures 1 <= off <= |n.All()| || n.All() == []
    ensures k == MIN_KEY ==> off == 1
  {}

  /** Position, from 1, of the first record of a key and kind; 0 if there is none. */
  function FirstOf(rs: seq<Rec>, k: Key, kind: KeyType): (p: nat)
    ensures p <= |rs|
    ensures p > 0 ==> rs[p - 1].key == k && rs[p - 1].kind == kind
    ensures forall i :: 0 <= i < |rs| && (i < p - 1 || p == 0) ==> !(rs[i].key == k && rs[i].kind == kind)
  {
    if rs == [] then 0
    else if rs[0].key == k && rs[0].kind == kind then 1
    else
      var p := FirstOf(rs[1..], k, kind);
      if p == 0 then 0 else p + 1
  }

  /** The first such record of the last run that holds one, counted over all runs. */
  function InLastRun(n: Node, k: Key, kind: KeyType): (p: nat)
    ensures p <= |n.All()|
  {
    var x, y, z := FirstOf(n.s0.recs, k, kind), FirstOf(n.s1.recs, k, kind), FirstOf(n.s2.recs, k, kind);
    if z > 0 then |n.s0.recs| + |n.s1.recs| + z else if y > 0 then |n.s0.recs| + y else x
  }

  /** Where the records of a leaf let a search for a key begin: for the least key at the
      first record, else at the oldest live record of the last run that holds a live one,
      else at the oldest tombstone of the last run that holds one. 0 if there is no record. */
  function EntryPos(n: Node, k: Key): nat {
    if k == MIN_KEY then 1
    else if InLastRun(n, k, Normal) > 0 then InLastRun(n, k, Normal)
    else InLastRun(n, k, Deleted)
  }

  /** Among the records of a key and kind it is the first of the latest run. */
  ghost predicate IsOldest(rs: seq<Rec>, r1: nat, r2: nat, k: Key, kind: KeyType, p: nat) {
    && p <= |rs| && (p > 0 ==> rs[p - 1].key == k && rs[p - 1].kind == kind)
    && forall x :: 0 <= x < |rs| && rs[x].key == k && rs[x].kind == kind ==> p > 0 && Overrides(r1, r2, p - 1, x)
  }

  /** Position y is in a later run than x, or in the same and not behind it. */
  ghost predicate Overrides(r1: nat, r2: nat, y: nat, x: nat) {
    RunNo(x, r1, r2) < RunNo(y, r1, r2) || (RunNo(x, r1, r2) == RunNo(y, r1, r2) && y <= x)
  }

  lemma OldestExtend(before: seq<Rec>, run: seq<Rec>, no: nat, r1: nat, r2: nat, k: Key, kind: KeyType, p: nat)
    requires InRuns(|before|, |run|, no, r1, r2) && IsOldest(before, r1, r2, k, kind, p)
    ensures var q := FirstOf(run, k, kind); IsOldest(before + run, r1, r2, k, kind, if q > 0 then |before| + q else p)
  {
    hide Overrides, RunNo, InRuns;
    var all, q := before + run, FirstOf(run, k, kind);
    assert forall x :: 0 <= x < |before| ==> all[x] == before[x];
    forall x | 0 <= x < |all| && q > 0 && all[x].key == k && all[x].kind == kind
      ensures Overrides(r1, r2, |before| + q - 1, x)
    {
      if x >= |before| { assert all[x] == run[x - |before|]; }
      InRun(|before|, |run|, no, r1, r2, |before| + q - 1, x);
    }
  }

  lemma InRun(before: nat, run: nat, no: nat, r1: nat, r2: nat, y: nat, x: nat)
    requires InRuns(before, run, no, r1, r2) && before <= y < before + run && (x < before || y <= x < before + run)
    ensures Overrides(r1, r2, y, x)
  {}

  lemma RunsInOrder(a: nat, b: nat, c: nat)
    ensures InRuns(0, a, 0, a, a + b) && InRuns(a, b, 1, a, a + b) && InRuns(a + b, c, 2, a, a + b)
  {}

  lemma InLastRunIs(n: Node, k: Key, kind: KeyType)
    ensures IsOldest(n.All(), |n.s0.recs|, |n.s0.recs| + |n.s1.recs|, k, kind, InLastRun(n, k, kind))
  {
    hide IsOldest, FirstOf, InRuns;
    var a, b, c := n.s0.recs, n.s1.recs, n.s2.recs;
    var r1, r2, x, y := |a|, |a| + |b|, FirstOf(a, k, kind), FirstOf(b, k, kind);
    RunsInOrder(|a|, |b|, |c|);
    FirstOldest(a, r2, k, kind);
    OldestExtend(a, b, 1, r1, r2, k, kind, x);
    var p, ab := if y > 0 then r1 + y else x, a + b;
    assert IsOldest(ab, r1, r2, k, kind, p) && InRuns(|ab|, |c|, 2, r1, r2);
    OldestExtend(ab, c, 2, r1, r2, k, kind, p);
  }

  lemma FirstOldest(a: seq<Rec>, r2: nat, k: Key, kind: KeyType)
    ensures IsOldest(a, |a|, r2, k, kind, FirstOf(a, k, kind))
  {}

  /** Searches begin there. */
  lemma EntryIs(n: Node, k: Key, off: nat)
    requires n.Counted() && IsLanding(n, k, off)
    ensures EntryPos(n, k) > 0 ==> off == EntryPos(n, k)
    ensures EntryPos(n, k) == 0 ==> NoRec(n.All(), k)
  {
    hide InLastRun, RunNo;
    var all, p := n.All(), EntryPos(n, k);
    InLastRunIs(n, k, Normal);
    InLastRunIs(n, k, Deleted);
    if k != MIN_KEY && p > 0 {
      assert IsBest(all, |n.s0.recs|, |n.s0.recs| + |n.s1.recs|, k, p);
      LandingUnique(n, k, off, p);
    } else if p == 0 {
      forall x | 0 <= x < |all| ensures all[x].key != k { assert all[x].kind == Normal || all[x].kind == Deleted; }
    }
  }

  /** How far a lookup reads in the leaf: to the end of the counted part, or to the record
      it begins at. */
  function ReadTo(n: Node, k: Key): (e: nat)
    ensures e <= |n.All()|
  {
    var e := Max(EntryPos(n, k), n.keyCount);
    if e <= |n.All()| then e else |n.All()|
  }

  /** Records behind the part that is read decide about a key, and say something else than
      that part does. Such records exist only after a tombstone: it is not counted. */
  ghost predicate Veiled(n: Node, k: Key) {
    var read, unread := n.All()[..ReadTo(n, k)], n.All()[ReadTo(n, k)..];
    Latest(unread, k).Some? && ViewAt(unread, k) != ViewAt(read, k)
  }

  lemma WindowExact(n: Node, k: Key, off: nat)
    requires n.Counted() && IsLanding(n, k, off)
    ensures ViewAt(Window(n, off), k) == ViewAt(n.All()[..ReadTo(n, k)], k)
    ensures ViewAt(n.All()[..ReadTo(n, k)], k) == ViewAt(n.All(), k) <==> !Veiled(n, k)
    ensures n.keyCount == |n.All()| ==> !Veiled(n, k)
  {
    hide EntryPos, View, Window;
    WindowSees(n, k, off);
    EntryIs(n, k, off);
    var e := ReadTo(n, k);
    var read, unread := n.All()[..e], n.All()[e..];
    assert n.All() == read + unread;
    LatestConcat(read, unread, k);
    ViewAtLatest(n.All(), k);
    ViewAtLatest(read, k);
    ViewAtLatest(unread, k);
    if EntryPos(n, k) == 0 {
      var seen := n.All()[..ReadEnd(n, off)];
      ViewAtLatest(seen, k);
      NoRecLatest(seen, k);
      NoRecLatest(read, k);
    }
  }

  /** What an exact lookup takes from its landing position. */
  ghost function Landed(n: Node, k: Key, off: nat): Option<BchVal>
    requires n.Counted()
  {
    var w := Window(n, off);
    if w != [] && w[0].key == k && w[0].kind.Normal? then Some(w[0].val) else None
  }

  /** The record an exact lookup takes: the oldest live one of the last run that holds a live
      one; for the least key the first record of the leaf, if it is a live one of that key. */
  function Taken(n: Node, k: Key): Option<Rec> {
    var p := if k == MIN_KEY then 1 else InLastRun(n, k, Normal);
    if 1 <= p <= |n.All()| && n.All()[p - 1].key == k && n.All()[p - 1].kind.Normal? then Some(n.All()[p - 1]) else None
  }

  /** The newest record of the key is live with the value of the one taken; or none is taken
      because none is live, which for the least key is to be asked of the newest record. */
  ghost predicate TakesNewest(n: Node, k: Key) {
    var l := Latest(n.All(), k);
    match Taken(n, k)
    case Some(r) => l.Some? && l.value.kind.Normal? && l.value.val == r.val
    case None => k == MIN_KEY ==> !(l.Some? && l.value.kind.Normal?)
  }

  lemma LandedIs(n: Node, k: Key, off: nat)
    requires n.Counted() && IsLanding(n, k, off)
    ensures Landed(n, k, off) == if Taken(n, k).Some? then Some(Taken(n, k).value.val) else None
  {
    hide InLastRun, IsLanding, Window;
    EntryIs(n, k, off);
    InLastRunKind(n, k, Normal);
    InLastRunKind(n, k, Deleted);
    LandingInRange(n, k, off);
    WindowFirst(n, off);
  }

  lemma WindowFirst(n: Node, off: nat)
    requires n.Counted()
    ensures 1 <= off <= |n.All()| ==> Window(n, off) != [] && Window(n, off)[0] == n.All()[off - 1]
    ensures n.All() == [] ==> Window(n, off) == []
  {}

  lemma InLastRunKind(n: Node, k: Key, kind: KeyType)
    ensures var p := InLastRun(n, k, kind);
            if p > 0 then n.All()[p - 1].key == k && n.All()[p - 1].kind == kind
            else forall r :: r in n.All() ==> !(r.key == k && r.kind == kind)
  {
    hide InLastRun;
    InLastRunIs(n, k, kind);
  }

  /** An exact lookup tells what the leaf holds exactly if it takes the newest value. */
  lemma LandedExact(n: Node, k: Key, off: nat)
    requires n.Counted() && IsLanding(n, k, off)
    ensures Landed(n, k, off) == if Taken(n, k).Some? then Some(Taken(n, k).value.val) else None
    ensures Landed(n, k, off) == ViewAt(n.All(), k) <==> TakesNewest(n, k)
    ensures Count(n.All(), k) <= 1 && k != MIN_KEY ==> TakesNewest(n, k)
  {
    hide InLastRun, IsLanding, Landed;
    LandedIs(n, k, off);
    ViewAtLatest(n.All(), k);
    InLastRunIs(n, k, Normal);
    var l := Latest(n.All(), k);
    if l.Some? { var i :| 0 <= i < |n.All()| && n.All()[i] == l.value; }
    if Taken(n, k).Some? && Count(n.All(), k) <= 1 && k != MIN_KEY {
      var p := InLastRun(n, k, Normal);
      LatestFound(n.All(), k, p - 1);
      var i :| 0 <= i < |n.All()| && n.All()[i] == l.value;
      CountOnce(n.All(), k, i, p - 1);
    }
  }

  lemma {:induction false} CountOnce(rs: seq<Rec>, k: Key, i: nat, j: nat)
    requires Count(rs, k) <= 1 && i < |rs| && j < |rs| && rs[i].key == k && rs[j].key == k
    ensures i == j
  {
    if i > 0 && j > 0 {
      CountOnce(rs[1..], k, i - 1, j - 1);
    } else if i != j {
      var m := if i == 0 then j - 1 else i - 1;
      CountLatest(rs[1..], k);
      LatestFound(rs[1..], k, m);
    }
  }

  // ---- lookups ----

  lemma ValidStands(t: Btree)
    requires t.Valid()
    ensures Stands(t.cache, t.root, t.shape, t.depth, t.nodeSize)
    ensures RootOk(t.shape, t.depth) && Tree(t.cache, t.root)
  {
    StandsTree(t.cache, t.root, t.shape, t.depth, t.nodeSize, ROOT);
  }

  /** b is the leaf that covers the key. */
  ghost predicate LeafFor(t: Btree, b: Addr, k: Key)
    reads t
  {
    b in t.AllNodes() && CoversKey(t.shape, b, k) && t.AllNodes()[b].Counted()
  }

  /** What the tree says about a key is what the leaf covering it says. */
  lemma LeafSays(t: Btree, b: Addr, k: Key)
    requires t.Valid() && CoversKey(t.shape, b, k)
    ensures LeafFor(t, b, k) && ViewAt(t.AllNodes()[b].All(), k) == At(t.Map(), k)
  {
    GoodFacts(t.AllNodes(), t.shape, t.depth, t.nodeSize, b);
    ContentsAt(t.shape, t.depth, b, k);
  }

  /** The search for a key, as far as lookups see it. */
  ghost predicate Found(t: Btree, it: BtreeIter, k: Key, b: Addr, off: nat)
    reads t, it
  {
    && it.Valid() && LeafFor(t, b, k) && IsLanding(t.AllNodes()[b], k, off)
    && it.Here() == Window(t.AllNodes()[b], off) && NoRec(it.Beyond(), k)
  }

  method Search(t: Btree, k: Key) returns (it: BtreeIter, ghost b: Addr, ghost off: nat)
    requires t.Valid()
    ensures fresh(it) && Found(t, it, k, b, off)
  {
    ValidStands(t);
    b := SeekFinds(t.cache, t.root, t.shape, t.depth, t.nodeSize, ROOT, k);
    it := new BtreeIter(t.root, t.cache, k);
    off := it.path[|it.path| - 1].offset;
    LeafSays(t, b, k);
    assert [Top(it.path)] + Later(it.cache, it.path) == Seek(t.cache, t.root, k);
    assert Top(it.path) == t.AllNodes()[b] && Later(it.cache, it.path) == Seek(t.cache, t.root, k)[1..];
    CountedLater(it.cache, it.path);
    FlatLacks(Later(it.cache, it.path), k);
  }

  /** Looks a key up by reading on from its landing position to the end of the tree. It
      tells what the map holds unless uncounted records veil the key. */
  method GetEntry(t: Btree, k: Key) returns (o: Option<BchVal>)
    requires t.Valid()
    ensures exists b: Addr :: LeafFor(t, b, k)
    ensures forall b: Addr :: LeafFor(t, b, k) ==>
                                var n := t.AllNodes()[b];
                                && o == ViewAt(n.All()[..ReadTo(n, k)], k)
                                && (o == At(t.Map(), k) <==> !Veiled(n, k))
    ensures (forall b :: LeafFor(t, b, k) ==> t.AllNodes()[b].keyCount == |t.AllNodes()[b].All()|) ==>
              o == At(t.Map(), k)
  {
    var it;
    ghost var b, off;
    it, b, off := Search(t, k);
    ghost var read := it.Here();
    o := ReadOn(it, k);
    LeafSays(t, b, k);
    WindowExact(t.AllNodes()[b], k, off);
    OneLeaf(t, b, k);
  }

  lemma OneLeaf(t: Btree, b: Addr, k: Key)
    requires t.Valid() && LeafFor(t, b, k)
    ensures forall c: Addr :: LeafFor(t, c, k) ==> c == b
  {
    GoodFacts(t.AllNodes(), t.shape, t.depth, t.nodeSize, b);
    LeafOfKey(t.shape, t.depth, b, k);
  }

  /** The last word on a key among all records from the current position on. */
  method ReadOn(it: BtreeIter, k: Key) returns (o: Option<BchVal>)
    requires it.Valid() && NoRec(it.Beyond(), k)
    modifies it
    ensures o == old(ViewAt(it.Here(), k))
  {
    hide IsStack, Later, Flat, Window, View, ViewAt, BtreeIter.Here, BtreeIter.Beyond, BtreeIter.Valid;
    ghost var here, beyond, done := it.Here(), it.Beyond(), [];
    ViewAtNone(k);
    o := None;
    while true
      invariant it.Valid() && done + (it.Here() + it.Beyond()) == here + beyond
      invariant it.Here() == [] ==> done == [] && here == []
      invariant o == ViewAt(done, k)
      decreases |it.Here() + it.Beyond()|
    {
      var e := it.Peek();
      if e.None? { return None; }
      if e.value.key == k { o := if e.value.kind.Normal? then Some(e.value.val) else None; }
      ViewAtAppend(done, e.value, k);
      done := done + [e.value];
      assert it.Here() + it.Beyond() == [e.value] + it.After();
      Regroup(done[..|done| - 1], [e.value], it.After());
      var ok := it.Advance();
      if !ok {
        assert done == here + beyond;
        BeyondSilent(here, beyond, k);
        return;
      }
    }
  }

  lemma ViewAtNone(k: Key)
    ensures ViewAt([], k) == None
  {}

  lemma ViewAtAppend(rs: seq<Rec>, r: Rec, k: Key)
    ensures ViewAt(rs + [r], k) ==
            if r.key != k then ViewAt(rs, k) else if r.kind.Normal? then Some(r.val) else None
  {
    ViewAppend(rs, r);
  }

  lemma BeyondSilent(here: seq<Rec>, beyond: seq<Rec>, k: Key)
    requires NoRec(beyond, k)
    ensures ViewAt(here + beyond, k) == ViewAt(here, k)
  {
    NoRecLatest(beyond, k);
    LatestConcat(here, beyond, k);
    ViewAtLatest(here + beyond, k);
    ViewAtLatest(here, k);
  }

  /** Looks a key up by its landing position alone: it tells what the map holds exactly if
      the record taken has the value of the newest one. */
  method Get(t: Btree, k: Key) returns (o: Option<BchVal>)
    requires t.Valid()
    ensures exists b: Addr :: LeafFor(t, b, k)
    ensures forall b: Addr :: LeafFor(t, b, k) ==>
                                var n := t.AllNodes()[b];
                                && o == (if Taken(n, k).Some? then Some(Taken(n, k).value.val) else None)
                                && (o == At(t.Map(), k) <==> TakesNewest(n, k))
    ensures k != MIN_KEY && (forall b :: LeafFor(t, b, k) ==> Count(t.AllNodes()[b].All(), k) <= 1) ==>
              o == At(t.Map(), k)
  {
    hide Taken, TakesNewest, IsLanding, View, Count, Latest, BtreeIter.Valid;
    var it;
    ghost var b, off;
    it, b, off := Search(t, k);
    LeafSays(t, b, k);
    LandedExact(t.AllNodes()[b], k, off);
    var e := it.Peek();
    o := if e.Some? && e.value.key == k && e.value.kind.Normal? then Some(e.value.val) else None;
    assert o == Landed(t.AllNodes()[b], k, off);
    forall c: Addr | LeafFor(t, c, k) ensures c == b { OneLeaf(t, b, k); }
    assert LeafFor(t, b, k);
    assert o == (if Taken(t.AllNodes()[b], k).Some? then Some(Taken(t.AllNodes()[b], k).value.val) else None);
    assert o == At(t.Map(), k) <==> TakesNewest(t.AllNodes()[b], k);
  }
}
