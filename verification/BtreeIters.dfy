/** The tree iterator: a stack of nodes from the root to a leaf, advanced entry by entry. */
module BtreeIters {
  import opened Wrappers
  import opened Numbers
  import opened Records
  import opened BtreeNodes
  import opened Routing

  /** The node and everything below it is there: each routing entry leads to a cached node
      one level lower. */
  ghost predicate Tree(cache: Nodes, n: Node)
    decreases n.level
  {
    && n.Wf() && n.Counted()
    && (n.level > 0 ==>
          && Clean(n.All()) && n.keyCount == |n.All()| > 0
          && forall i {:trigger ChildTree(cache, n, i)} :: 0 <= i < |n.All()| ==> ChildTree(cache, n, i))
  }

  ghost predicate ChildTree(cache: Nodes, n: Node, i: nat)
    requires n.level > 0 && i < |n.All()|
    decreases n.level, 0
  {
    var c := n.All()[i].val.paddr;
    c in cache && cache[c].level == n.level - 1 && Tree(cache, cache[c])
  }

  function Child(cache: Nodes, n: Node, i: nat): Node
    requires i < |n.All()| && n.All()[i].val.paddr in cache
  {
    cache[n.All()[i].val.paddr]
  }

  /** Position of the routing entry a descent towards a key takes. */
  ghost function ChildFor(n: Node, target: Key): (i: nat)
    requires n.All() != []
    ensures IsChildFor(n.All(), target, i)
  {
    ChildExists(n.All(), target);
    var i: nat :| IsChildFor(n.All(), target, i);
    i
  }

  lemma {:induction false} ChildExists(rs: seq<Rec>, target: Key)
    requires rs != []
    ensures exists i: nat :: IsChildFor(rs, target, i)
  {
    if |rs| == 1 {
      assert IsChildFor(rs, target, 0);
    } else {
      ChildExists(rs[1..], target);
      var j: nat :| IsChildFor(rs[1..], target, j);
      assert rs == [rs[0]] + rs[1..] && rs[j + 1] in rs;
      var x, y := rs[0].key, rs[j + 1].key;
      if (y <= target && y < x <= target) || (y > target && (x <= target || x < y)) {
        assert IsChildFor(rs, target, 0);
      } else {
        assert IsChildFor(rs, target, j + 1);
      }
    }
  }

  // ---- the leaves an iterator meets ----

  /** From the leaf for a key on: the leaf itself, then everything under later routing
      entries of the nodes above it, in run order. */
  ghost function Seek(cache: Nodes, n: Node, target: Key): (r: seq<Node>)
    requires Tree(cache, n)
    ensures |r| >= 1
    decreases n.level, 0
  {
    if n.level == 0 then [n]
    else
      var i := ChildFor(n, target);
      assert ChildTree(cache, n, i);
      Seek(cache, Child(cache, n, i), target) + Right(cache, n, i + 1)
  }

  /** The leaves under the routing entries of a node from a position on; each child is
      entered at its least routing key. */
  ghost function Right(cache: Nodes, n: Node, i: nat): (r: seq<Node>)
    requires Tree(cache, n) && n.level > 0
    ensures i < |n.All()| ==> |r| >= 1
    decreases n.level - 1, 1 + (if i < |n.All()| then |n.All()| - i else 0)
  {
    if i >= |n.All()| then []
    else
      assert ChildTree(cache, n, i);
      Seek(cache, Child(cache, n, i), MIN_KEY) + Right(cache, n, i + 1)
  }

  /** The records of a leaf that are read from a position on: the one at the position, and
      after it only as many as the entry counter admits. */
  ghost function Window(n: Node, offset: nat): (r: seq<Rec>)
    requires n.Counted()
    ensures n.All() != [] && 1 <= offset <= |n.All()| ==> r != []
  {
    if 1 <= offset <= |n.All()| then n.All()[offset - 1..Max(offset, n.keyCount)] else []
  }

  ghost predicate AllCounted(leaves: seq<Node>) {
    forall i :: 0 <= i < |leaves| ==> leaves[i].Counted()
  }

  /** What is read from leaves entered at their first record. */
  ghost function Flat(leaves: seq<Node>): seq<Rec>
    requires AllCounted(leaves)
  {
    if leaves == [] then [] else Window(leaves[0], 1) + Flat(leaves[1..])
  }

  lemma {:induction false} CountedSeek(cache: Nodes, n: Node, target: Key)
    requires Tree(cache, n)
    ensures AllCounted(Seek(cache, n, target))
    decreases n.level, 0
  {
    if n.level > 0 {
      var i := ChildFor(n, target);
      assert ChildTree(cache, n, i);
      CountedSeek(cache, Child(cache, n, i), target);
      CountedRight(cache, n, i + 1);
    }
  }

  lemma {:induction false} CountedRight(cache: Nodes, n: Node, i: nat)
    requires Tree(cache, n) && n.level > 0
    ensures AllCounted(Right(cache, n, i))
    decreases n.level - 1, 1 + (if i < |n.All()| then |n.All()| - i else 0)
  {
    if i < |n.All()| {
      assert ChildTree(cache, n, i);
      CountedSeek(cache, Child(cache, n, i), MIN_KEY);
      CountedRight(cache, n, i + 1);
    }
  }

  // ---- the path ----

  /** One level of the path: the node, the entry position (leaf only), and the 1-based
      position of the node among its parent's entries. */
  datatype Level = Level(node: Node, offset: nat, childIdx: nat)

  ghost predicate LinkOk(cache: Nodes, path: seq<Level>, i: nat)
    requires 1 <= i < |path|
  {
    var up := path[i - 1].node;
    && up.level > 0 && 1 <= path[i].childIdx <= |up.All()|
    && up.All()[path[i].childIdx - 1].val.paddr in cache
    && path[i].node == Child(cache, up, path[i].childIdx - 1)
    && path[i].node.level == up.level - 1
  }

  ghost predicate TreeAt(cache: Nodes, path: seq<Level>, i: nat)
    requires i < |path|
  {
    Tree(cache, path[i].node)
  }

  /** The stack is a path of the tree: each level is the child of the one above it. */
  ghost predicate IsStack(cache: Nodes, path: seq<Level>) {
    && path != []
    && (forall i {:trigger TreeAt(cache, path, i)} :: 0 <= i < |path| ==> TreeAt(cache, path, i))
    && (forall i {:trigger LinkOk(cache, path, i)} :: 1 <= i < |path| ==> LinkOk(cache, path, i))
  }

  ghost function Top(path: seq<Level>): Node
    requires path != []
  {
    path[|path| - 1].node
  }

  /** The leaves still to come in the subtrees to the right of the path. */
  ghost function Later(cache: Nodes, path: seq<Level>): seq<Node>
    requires IsStack(cache, path)
    decreases |path|
  {
    if |path| == 1 then []
    else
      StackInit(cache, path);
      Right(cache, path[|path| - 2].node, path[|path| - 1].childIdx) + Later(cache, path[..|path| - 1])
  }

  lemma StackInit(cache: Nodes, path: seq<Level>)
    requires IsStack(cache, path) && |path| > 1
    ensures IsStack(cache, path[..|path| - 1])
    ensures Tree(cache, path[|path| - 2].node) && LinkOk(cache, path, |path| - 1)
  {
    var q := path[..|path| - 1];
    assert TreeAt(cache, path, |path| - 2) && LinkOk(cache, path, |path| - 1);
    forall i | 1 <= i < |q| ensures LinkOk(cache, q, i) { assert LinkOk(cache, path, i); }
    forall i | 0 <= i < |q| ensures TreeAt(cache, q, i) { assert TreeAt(cache, path, i); }
  }

  lemma StackTop(cache: Nodes, path: seq<Level>)
    requires IsStack(cache, path)
    ensures Tree(cache, Top(path))
  {
    assert TreeAt(cache, path, |path| - 1);
  }

  /** Pushing a child keeps the stack; what is later are its right siblings, then as before. */
  lemma StackPush(cache: Nodes, path: seq<Level>, i: nat, offset: nat)
    requires IsStack(cache, path) && Top(path).level > 0 && i < |Top(path).All()|
    ensures Tree(cache, Top(path)) && ChildTree(cache, Top(path), i)
    ensures var q := path + [Level(Child(cache, Top(path), i), offset, i + 1)];
            IsStack(cache, q) && Later(cache, q) == Right(cache, Top(path), i + 1) + Later(cache, path)
  {
    hide ChildFor, Seek, Right;
    var n := Top(path);
    assert TreeAt(cache, path, |path| - 1);
    assert ChildTree(cache, n, i);
    var q := path + [Level(Child(cache, n, i), offset, i + 1)];
    forall j | 1 <= j < |q| ensures LinkOk(cache, q, j) {
      if j < |path| { assert LinkOk(cache, path, j); }
    }
    forall j | 0 <= j < |q| ensures TreeAt(cache, q, j) {
      if j < |path| { assert TreeAt(cache, path, j); }
    }
    assert q[..|q| - 1] == path;
  }

  /** Only the entry position of the last level changes: still the same stack. */
  lemma StackMove(cache: Nodes, path: seq<Level>, offset: nat)
    requires IsStack(cache, path)
    ensures var q := path[|path| - 1 := path[|path| - 1].(offset := offset)];
            IsStack(cache, q) && Later(cache, q) == Later(cache, path)
  {
    hide ChildFor, Seek, Right, Tree;
    var q := path[|path| - 1 := path[|path| - 1].(offset := offset)];
    forall j | 1 <= j < |q| ensures LinkOk(cache, q, j) { assert LinkOk(cache, path, j); }
    forall j | 0 <= j < |q| ensures TreeAt(cache, q, j) { assert TreeAt(cache, path, j); }
    if |path| > 1 { assert q[..|q| - 1] == path[..|path| - 1]; }
  }

  lemma {:induction false} CountedLater(cache: Nodes, path: seq<Level>)
    requires IsStack(cache, path)
    ensures AllCounted(Later(cache, path)) && Top(path).Counted()
    decreases |path|
  {
    StackTop(cache, path);
    if |path| > 1 {
      StackInit(cache, path);
      CountedRight(cache, path[|path| - 2].node, path[|path| - 1].childIdx);
      CountedLater(cache, path[..|path| - 1]);
    }
  }

  /** One step of a descent towards a key. */
  lemma SeekStep(cache: Nodes, n: Node, target: Key, i: nat, later: seq<Node>)
    requires Tree(cache, n) && n.level > 0 && IsChildFor(n.All(), target, i)
    ensures ChildTree(cache, n, i)
    ensures Seek(cache, n, target) + later == Seek(cache, Child(cache, n, i), target) + (Right(cache, n, i + 1) + later)
  {
    hide IsChildFor, Right;
    ChildInRange(n.All(), target, i);
    IsChildForUnique(n.All(), target, i, ChildFor(n, target));
    assert ChildTree(cache, n, i);
    Regroup(Seek(cache, Child(cache, n, i), target), Right(cache, n, i + 1), later);
  }

  // ---- positioning in a leaf ----

  /** Rank of a record among all keys and kinds; Normal comes before Deleted. */
  function FullRank(r: Rec): int { 2 * r.key + (if r.kind.Deleted? then 1 else 0) }

  /** Position in a run of the least record not below the target, the first of equal ones;
      0 if every record is below it. */
  ghost predicate IsLeastIn(rs: seq<Rec>, target: Key, off: nat) {
    if forall r :: r in rs ==> FullRank(r) < 2 * target then off == 0
    else
      && 1 <= off <= |rs| && FullRank(rs[off - 1]) >= 2 * target
      && (forall r :: r in rs && FullRank(r) >= 2 * target ==> FullRank(rs[off - 1]) <= FullRank(r))
      && (forall x :: 0 <= x < off - 1 ==> FullRank(rs[x]) != FullRank(rs[off - 1]))
  }

  method LeastInSorted(rs: seq<Rec>, target: Key) returns (off: nat)
    requires Strict(rs)
    ensures IsLeastIn(rs, target, off)
  {
    var lo, hi, lb := 1, |rs|, |rs| + 1;
    while lo <= hi
      invariant 1 <= lo <= hi + 1 == lb <= |rs| + 1
      invariant forall i :: 0 <= i < lo - 1 ==> FullRank(rs[i]) < 2 * target
      invariant forall i :: hi <= i < |rs| ==> FullRank(rs[i]) >= 2 * target
      decreases hi - lo
    {
      var mid := (lo + hi) / 2;
      if FullRank(rs[mid - 1]) < 2 * target { lo := mid + 1; } else { lb, hi := mid, mid - 1; }
    }
    off := if lb <= |rs| then lb else 0;
    if lb <= |rs| { assert rs[lb - 1] in rs; }
  }

  method LeastInAppended(rs: seq<Rec>, target: Key) returns (off: nat)
    ensures IsLeastIn(rs, target, off)
  {
    off := 0;
    for i := 0 to |rs|
      invariant off <= i
      invariant off == 0 ==> forall x :: 0 <= x < i ==> FullRank(rs[x]) < 2 * target
      invariant off > 0 ==>
                  && FullRank(rs[off - 1]) >= 2 * target
                  && (forall x :: 0 <= x < i && FullRank(rs[x]) >= 2 * target ==>
                        FullRank(rs[off - 1]) <= FullRank(rs[x]))
                  && (forall x :: 0 <= x < off - 1 ==> FullRank(rs[x]) != FullRank(rs[off - 1]))
    {
      if FullRank(rs[i]) >= 2 * target && (off == 0 || FullRank(rs[i]) < FullRank(rs[off - 1])) {
        off := i + 1;
      }
    }
    if off > 0 { assert rs[off - 1] in rs; }
  }

  /** The run a position over all runs belongs to, given where runs 1 and 2 start. */
  function RunNo(x: nat, r1: nat, r2: nat): nat { if x < r1 then 0 else if x < r2 then 1 else 2 }

  /** A run behind the given number of records has a number of its own. */
  ghost predicate InRuns(before: nat, run: nat, no: nat, r1: nat, r2: nat) {
    && (forall x :: 0 <= x < before ==> RunNo(x, r1, r2) < no)
    && (forall x :: before <= x < before + run ==> RunNo(x, r1, r2) == no)
  }

  /** Position of the least record not below the target: of equal ones the first in the
      latest run holding one. 0 if every record is below it. */
  ghost predicate IsBest(rs: seq<Rec>, r1: nat, r2: nat, target: Key, off: nat) {
    if off == 0 then forall x :: 0 <= x < |rs| ==> FullRank(rs[x]) < 2 * target
    else
      && off <= |rs| && FullRank(rs[off - 1]) >= 2 * target
      && forall x :: 0 <= x < |rs| && FullRank(rs[x]) >= 2 * target ==>
           || FullRank(rs[off - 1]) < FullRank(rs[x])
           || (FullRank(rs[off - 1]) == FullRank(rs[x]) &&
                 (RunNo(x, r1, r2) < RunNo(off - 1, r1, r2) ||
                  (RunNo(x, r1, r2) == RunNo(off - 1, r1, r2) && off - 1 <= x)))
  }

  /** Adding the next run: its own best replaces the best so far if it is not greater. */
  lemma BestExtend(before: seq<Rec>, run: seq<Rec>, no: nat, r1: nat, r2: nat, target: Key, best: nat, local: nat)
    requires InRuns(|before|, |run|, no, r1, r2)
    requires IsBest(before, r1, r2, target, best) && IsLeastIn(run, target, local)
    ensures best <= |before| && local <= |run|
    ensures var wins := local > 0 && (best == 0 || FullRank(run[local - 1]) <= FullRank(before[best - 1]));
            IsBest(before + run, r1, r2, target, if wins then |before| + local else best)
  {
    var all := before + run;
    forall x | |before| <= x < |all| ensures all[x] == run[x - |before|] && all[x] in run {}
    forall x | 0 <= x < |before| ensures all[x] == before[x] {}
  }

  lemma BestNone(r1: nat, r2: nat, target: Key)
    ensures IsBest([], r1, r2, target, 0)
  {}

  /** Where a search starts reading: for the least key at the first record, in an empty leaf
      nowhere, otherwise at the best record, or at the first one if there is none. */
  ghost predicate IsLanding(n: Node, target: Key, off: nat) {
    if target == MIN_KEY then off == 1
    else if n.keyCount == 0 then off == 0
    else
      var r1, r2 := |n.s0.recs|, |n.s0.recs| + |n.s1.recs|;
      (off >= 1 && IsBest(n.All(), r1, r2, target, off)) || (off == 1 && IsBest(n.All(), r1, r2, target, 0))
  }

  /** The records of the first runs of a leaf. */
  ghost function RunsTo(n: Node, si: nat): seq<Rec>
    requires si <= 3
  {
    if si == 0 then [] else if si == 1 then n.s0.recs else if si == 2 then n.s0.recs + n.s1.recs else n.All()
  }

  lemma NextRun(n: Node, si: nat)
    requires si < 3
    ensures var run := [n.s0.recs, n.s1.recs, n.s2.recs][si];
            && RunsTo(n, si + 1) == RunsTo(n, si) + run
            && InRuns(|RunsTo(n, si)|, |run|, si, |n.s0.recs|, |n.s0.recs| + |n.s1.recs|)
  {}

  lemma RunsPrefix(n: Node, si: nat)
    requires si <= 3
    ensures |RunsTo(n, si)| <= |n.All()| && forall x :: 0 <= x < |RunsTo(n, si)| ==> RunsTo(n, si)[x] == n.All()[x]
  {}

  method Position(n: Node, target: Key) returns (off: nat)
    requires n.Wf()
    ensures IsLanding(n, target, off)
  {
    hide IsBest, IsLeastIn, FullRank, InRuns, RunsTo;
    if target == MIN_KEY { return 1; }
    if n.keyCount == 0 { return 0; }
    var runs := [n.s0.recs, n.s1.recs, n.s2.recs];
    ghost var r1, r2 := |n.s0.recs|, |n.s0.recs| + |n.s1.recs|;
    var cumul := 0;
    off := 0;
    RunsEnds(n);
    BestNone(r1, r2, target);
    for si := 0 to 3
      invariant cumul == |RunsTo(n, si)| && off <= cumul && IsBest(RunsTo(n, si), r1, r2, target, off)
    {
      var local;
      if si == 0 {
        local := LeastInSorted(runs[si], target);
      } else {
        local := LeastInAppended(runs[si], target);
      }
      NextRun(n, si);
      RunsPrefix(n, si);
      BestExtend(RunsTo(n, si), runs[si], si, r1, r2, target, off, local);
      if local > 0 && (off == 0 || FullRank(runs[si][local - 1]) <= FullRank(n.All()[off - 1])) {
        off := cumul + local;
      }
      cumul := cumul + |runs[si]|;
    }
    if off == 0 { off := 1; }
  }

  lemma RunsEnds(n: Node)
    ensures RunsTo(n, 0) == [] && RunsTo(n, 3) == n.All()
  {}

  // ---- the iterator ----

  class BtreeIter {
    const cache: Nodes
    var path: seq<Level>
    var pos: Key

    ghost predicate Valid()
      reads this
    {
      && IsStack(cache, path) && Top(path).level == 0
      && (path[|path| - 1].offset >= 1 || Top(path).keyCount == 0)
    }

    /** The records of the current leaf from the current position on. */
    ghost function Here(): seq<Rec>
      requires Valid()
      reads this
    {
      CountedLater(cache, path);
      Window(Top(path), path[|path| - 1].offset)
    }

    /** The records of the later leaves. */
    ghost function Beyond(): seq<Rec>
      requires Valid()
      reads this
    {
      CountedLater(cache, path);
      Flat(Later(cache, path))
    }

    /** The records behind the current one. */
    ghost function After(): seq<Rec>
      requires Valid()
      reads this
    {
      (if Here() == [] then [] else Here()[1..]) + Beyond()
    }

    /** Starts at the leaf for a key, positioned there. */
    constructor (root: Node, cache: Nodes, target: Key)
      requires Tree(cache, root)
      ensures Valid() && this.cache == cache
      ensures [Top(path)] + Later(cache, path) == Seek(cache, root, target)
      ensures IsLanding(Top(path), target, path[|path| - 1].offset)
      ensures pos == if Here() != [] then Here()[0].key else target
    {
      hide Tree, Seek, Right, IsLanding, Window;
      this.cache := cache;
      this.path := [Level(root, 1, 0)];
      pos := target;
      new;
      assert IsStack(cache, path) by { OneLevel(cache, root); }
      Descend(target);
      StackTop(cache, path);
      var leaf := path[|path| - 1].node;
      TreeWf(cache, leaf);
      var off := Position(leaf, target);
      StackMove(cache, path, off);
      path := path[|path| - 1 := path[|path| - 1].(offset := off)];
      LandingOffset(leaf, target, off);
      var e := Peek();
      if e.Some? { pos := e.value.key; }
    }

    /** Descends from the last level of the path to the leaf for a key. */
    method Descend(target: Key)
      requires IsStack(cache, path)
      modifies this`path
      ensures IsStack(cache, path) && Top(path).level == 0
      ensures old(Top(path)).level > 0 ==> path[|path| - 1].offset == 1
      ensures old(Top(path)).level == 0 ==> path == old(path)
      ensures StackTree(cache, old(path)) &&
              [Top(path)] + Later(cache, path) == Seek(cache, old(Top(path)), target) + old(Later(cache, path))
    {
      hide ChildFor, IsChildFor, Seek, Right, Later, LinkOk, TreeAt, Tree;
      StackTop(cache, path);
      ghost var all := Seek(cache, Top(path), target) + Later(cache, path);
      while path[|path| - 1].node.level > 0
        invariant IsStack(cache, path) && Tree(cache, Top(path))
        invariant path == old(path) || path[|path| - 1].offset == 1
        invariant old(Top(path)).level == 0 ==> path == old(path)
        invariant Seek(cache, Top(path), target) + Later(cache, path) == all
        decreases path[|path| - 1].node.level
      {
        var n := path[|path| - 1].node;
        TreeInner(cache, n);
        var child, idx := FindChildNode(n, target);
        SeekStep(cache, n, target, idx - 1, Later(cache, path));
        StackPush(cache, path, idx - 1, 1);
        path := path + [Level(cache[child], 1, idx)];
      }
      SeekLeaf(cache, Top(path), target);
    }

    /** The record at the current position. */
    method Peek() returns (o: Option<Rec>)
      requires Valid()
      ensures o == if Here() == [] then None else Some(Here()[0])
    {
      CountedLater(cache, path);
      var top := path[|path| - 1];
      if top.offset == 0 { return None; }
      o := ReadEntryByGlobalIdx(top.node, top.offset);
    }

    /** Moves to the next record: in this leaf while the entry counter admits it, then to
        the next leaf with a record. */
    method Advance() returns (ok: bool)
      requires Valid()
      modifies this
      ensures ok <==> old(After()) != []
      ensures ok ==> Valid() && Here() != [] && pos == Here()[0].key
      ensures ok ==> Here() + Beyond() == old(After())
    {
      hide Tree, LinkOk, Later, Flat, Window;
      CountedLater(cache, path);
      WindowStep(Top(path), path[|path| - 1].offset);
      var top := path[|path| - 1];
      if top.offset < top.node.keyCount {
        StackMove(cache, path, top.offset + 1);
        path := path[|path| - 1 := top.(offset := top.offset + 1)];
        var e := ReadEntryByGlobalIdx(top.node, top.offset + 1);
        if e.Some? {
          pos := e.value.key;
          return true;
        }
      }
      ok := BackUpAndAdvance();
    }

    /** Leaves the current leaf for the next one with a record. */
    method BackUpAndAdvance() returns (ok: bool)
      requires Valid()
      modifies this
      ensures ok <==> old(Beyond()) != []
      ensures ok ==> Valid() && Here() != [] && pos == Here()[0].key
      ensures ok ==> Here() + Beyond() == old(Beyond())
    {
      hide Tree, LinkOk, Later, Flat, Window, Right, Seek;
      CountedLater(cache, path);
      ghost var rest := Flat(Later(cache, path));
      while |path| >= 2
        invariant IsStack(cache, path) && AllCounted(Later(cache, path)) && Flat(Later(cache, path)) == rest
        decreases |Later(cache, path)|, |path|
      {
        var current := path[|path| - 1];
        ghost var later := Later(cache, path);
        BackStep(cache, path);
        path := path[..|path| - 1];
        var parent := path[|path| - 1].node;
        var next := current.childIdx + 1;
        if next <= parent.keyCount {
          var e := ReadEntryByGlobalIdx(parent, next);
          path := path + [Level(cache[e.value.val.paddr], 1, next)];
          Descend(MIN_KEY);
          assert [Top(path)] + Later(cache, path) == later;
          CountedLater(cache, path);
          FlatCons(Top(path), Later(cache, path));
          var first := Peek();
          if first.Some? {
            pos := first.value.key;
            return true;
          }
        }
      }
      OneLater(cache, path);
      ok := false;
    }
  }

  lemma OneLater(cache: Nodes, path: seq<Level>)
    requires IsStack(cache, path) && |path| == 1
    ensures Later(cache, path) == [] && Flat([]) == []
  {}

  lemma FlatCons(n: Node, later: seq<Node>)
    requires n.Counted() && AllCounted(later)
    ensures AllCounted([n] + later) && Flat([n] + later) == Window(n, 1) + Flat(later)
  {
    assert ([n] + later)[1..] == later;
  }

  /** Leaving a node for its next sibling: either there is none and what is later stays, or
      the sibling's leaves come next. */
  lemma BackStep(cache: Nodes, path: seq<Level>)
    requires IsStack(cache, path) && |path| > 1
    ensures var init, at := path[..|path| - 1], path[|path| - 1].childIdx;
            var up := Top(init);
            && IsStack(cache, init) && Tree(cache, up) && up.level > 0 && up.keyCount == |up.All()| && at >= 1
            && (at >= up.keyCount ==> Later(cache, path) == Later(cache, init))
            && (at < up.keyCount ==>
                  && ChildTree(cache, up, at)
                  && var q := init + [Level(Child(cache, up, at), 1, at + 1)];
                     IsStack(cache, q) && Seek(cache, Top(q), MIN_KEY) + Later(cache, q) == Later(cache, path))
  {
    hide Seek;
    StackInit(cache, path);
    var init, at := path[..|path| - 1], path[|path| - 1].childIdx;
    var up := Top(init);
    assert LinkOk(cache, path, |path| - 1);
    if at < up.keyCount { StackPush(cache, init, at, 1); }
  }

  lemma LandingOffset(n: Node, target: Key, off: nat)
    requires IsLanding(n, target, off)
    ensures off >= 1 || n.keyCount == 0
  {}

  lemma WindowStep(n: Node, offset: nat)
    requires n.Counted()
    ensures Window(n, offset) != [] ==>
              Window(n, offset)[1..] == if offset < n.keyCount then Window(n, offset + 1) else []
    ensures 1 <= offset < n.keyCount ==>
              Window(n, offset) != [] && offset + 1 <= |n.All()| && Window(n, offset + 1)[0] == n.All()[offset]
  {}

  ghost predicate StackTree(cache: Nodes, path: seq<Level>) {
    path != [] && Tree(cache, Top(path))
  }

  lemma OneLevel(cache: Nodes, root: Node)
    requires Tree(cache, root)
    ensures IsStack(cache, [Level(root, 1, 0)])
  {}

  lemma TreeWf(cache: Nodes, n: Node)
    requires Tree(cache, n)
    ensures n.Wf() && n.Counted()
  {}

  lemma TreeInner(cache: Nodes, n: Node)
    requires Tree(cache, n) && n.level > 0
    ensures n.Wf() && Clean(n.All()) && n.keyCount == |n.All()| > 0
    ensures forall i :: 0 <= i < |n.All()| ==> ChildThere(cache, n, i)
  {
    forall i | 0 <= i < |n.All()| ensures ChildThere(cache, n, i) { assert ChildTree(cache, n, i); }
  }

  ghost predicate ChildThere(cache: Nodes, n: Node, i: nat)
    requires n.level > 0 && i < |n.All()|
  {
    var c := n.All()[i].val.paddr;
    c in cache && cache[c].level == n.level - 1
  }

  lemma SeekLeaf(cache: Nodes, n: Node, target: Key)
    requires Tree(cache, n) && n.level == 0
    ensures Seek(cache, n, target) == [n]
  {}
}
