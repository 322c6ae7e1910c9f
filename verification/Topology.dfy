/** The topology check: a recursive walk over a tree that accepts it or finds a fault. */
module Topology {
  import opened Sequences
  import StableSort

  /** An entry as the check sees it: its rank in key order, its position, its pointer. */
  datatype Entry = Entry(key: int, pos: nat, paddr: nat)

  /** A node with its recorded span; an unset bound carries the extreme value. */
  datatype TNode = TNode(level: nat, entries: seq<Entry>, minKey: nat, maxKey: nat)

  type Tree = map<nat, TNode>

  const POS_MIN: nat := 0
  const POS_MAX: nat := 0x1_0000_0000_0000_0000_0000_0000_0000_0000_0000_0000 - 1

  function KeyOf(e: Entry): int { e.key }

  function Sorted(n: TNode): (s: seq<Entry>)
    ensures |s| == |n.entries|
  {
    StableSort.Sort(n.entries, KeyOf)
  }

  // ---- what the check is for ----

  /** A leaf's entries lie within its recorded span, as far as that is set. */
  predicate LeafOk(n: TNode) {
    var s := Sorted(n);
    s != [] ==>
      && (n.minKey != POS_MAX ==> n.minKey <= s[0].pos)
      && (n.maxKey != POS_MIN ==> s[|s| - 1].pos <= n.maxKey)
  }

  /** Everything below the node is in order. */
  ghost predicate WellFormed(cache: Tree, n: TNode)
    decreases n.level, 1
  {
    if n.level == 0 then LeafOk(n)
    else n.entries != [] &&
         forall i {:trigger ChildFine(cache, n, i)} :: 0 <= i < |n.entries| ==> ChildFine(cache, n, i)
  }

  /** Child i is cached, one level lower, begins behind the child before it, and is itself
      in order. */
  ghost predicate ChildFine(cache: Tree, n: TNode, i: nat)
    requires n.level > 0 && i < |n.entries|
    decreases n.level, 0
  {
    var c := Sorted(n)[i].paddr;
    && c != 0 && c in cache && cache[c].level == n.level - 1
    && (i > 0 ==> Behind(cache, Sorted(n)[i - 1].paddr, c))
    && WellFormed(cache, cache[c])
  }

  predicate Behind(cache: Tree, prev: nat, c: nat) {
    prev in cache && c in cache && cache[prev].maxKey < cache[c].minKey
  }

  /** The child addresses met below a node, in the order of the walk. */
  ghost function Reached(cache: Tree, n: TNode): seq<nat>
    decreases n.level, 1, 0
  {
    if n.level == 0 then [] else ReachedUpTo(cache, n, |n.entries|)
  }

  ghost function ReachedUpTo(cache: Tree, n: TNode, i: nat): seq<nat>
    requires n.level > 0 && i <= |n.entries|
    decreases n.level, 0, i
  {
    if i == 0 then []
    else
      var c := Sorted(n)[i - 1].paddr;
      ReachedUpTo(cache, n, i - 1) + [c] +
      if c in cache && cache[c].level == n.level - 1 then Reached(cache, cache[c]) else []
  }

  /** No address twice, and none seen before. */
  ghost predicate Fresh(s: seq<nat>, visited: set<nat>) {
    (forall i, j :: 0 <= i < j < |s| ==> s[i] != s[j]) && forall i :: 0 <= i < |s| ==> s[i] !in visited
  }

  lemma FreshConcat(a: seq<nat>, b: seq<nat>, visited: set<nat>)
    ensures Fresh(a + b, visited) <==> Fresh(a, visited) && Fresh(b, visited + SetOf(a))
    ensures SetOf(a + b) == SetOf(a) + SetOf(b)
  {
    var s := a + b;
    if Fresh(s, visited) {
      forall i, j | 0 <= i < j < |a| ensures a[i] != a[j] { assert s[i] != s[j]; }
      forall i, j | 0 <= i < j < |b| ensures b[i] != b[j] { assert s[|a| + i] != s[|a| + j]; }
      forall i | 0 <= i < |a| ensures a[i] !in visited { assert s[i] !in visited; }
      forall i | 0 <= i < |b| ensures b[i] !in visited + SetOf(a) {
        assert s[|a| + i] !in visited;
        forall j | 0 <= j < |a| ensures a[j] != b[i] { assert s[j] != s[|a| + i]; }
      }
    }
    if Fresh(a, visited) && Fresh(b, visited + SetOf(a)) {
      forall i, j | 0 <= i < j < |s| ensures s[i] != s[j] {
        if i < |a| <= j { assert a[i] in SetOf(a) && s[j] == b[j - |a|]; }
      }
    }
    assert forall x :: x in s <==> x in a || x in b;
  }

  // ---- the walk ----

  /** Accepts exactly the trees that are in order and reach no node twice. */
  method ValidateTreeNode(n: TNode, cache: Tree, visited: set<nat>) returns (ok: bool, seen: set<nat>)
    ensures ok <==> WellFormed(cache, n) && Fresh(Reached(cache, n), visited)
    ensures ok ==> seen == visited + SetOf(Reached(cache, n))
    decreases n.level
  {
    hide WellFormed, Fresh, Reached, ReachedUpTo, ChildFine;
    var entries := StableSort.Sort(n.entries, KeyOf);
    seen := visited;
    if n.level == 0 {
      LeafCase(cache, n, visited);
      ok := ValidateLeaf(n, entries);
      return;
    }
    InnerCase(cache, n, visited);
    if entries == [] { return false, seen; }
    var prevMax: nat := 0;
    for i := 0 to |entries|
      invariant UpTo(cache, n, i, visited) && seen == visited + SetOf(ReachedUpTo(cache, n, i))
      invariant i > 0 ==> entries[i - 1].paddr in cache && prevMax == cache[entries[i - 1].paddr].maxKey
    {
      var c := entries[i].paddr;
      NextChild(cache, n, i, visited);
      if c == 0 { return false, seen; }
      if c in seen { return false, seen; }
      seen := seen + {c};
      if c !in cache { return false, seen; }
      var child := cache[c];
      if child.level != n.level - 1 { return false, seen; }
      if i > 0 && child.minKey <= prevMax { return false, seen; }
      ok, seen := ValidateTreeNode(child, cache, seen);
      if !ok { return false, seen; }
      prevMax := child.maxKey;
    }
    ok := true;
  }

  method ValidateLeaf(n: TNode, entries: seq<Entry>) returns (ok: bool)
    requires entries == Sorted(n)
    ensures ok == LeafOk(n)
  {
    if entries == [] { return true; }
    var first, last := entries[0].pos, entries[|entries| - 1].pos;
    if n.minKey != POS_MAX && n.minKey > first { return false; }
    if n.maxKey != POS_MIN && n.maxKey < last { return false; }
    ok := true;
  }

  lemma LeafCase(cache: Tree, n: TNode, visited: set<nat>)
    requires n.level == 0
    ensures WellFormed(cache, n) == LeafOk(n) && Fresh(Reached(cache, n), visited) && SetOf(Reached(cache, n)) == {}
  {}

  /** The first i children are in order and reach nothing twice. */
  ghost predicate UpTo(cache: Tree, n: TNode, i: nat, visited: set<nat>)
    requires n.level > 0 && i <= |n.entries|
  {
    Fresh(ReachedUpTo(cache, n, i), visited) &&
    forall j {:trigger ChildFine(cache, n, j)} :: 0 <= j < i ==> ChildFine(cache, n, j)
  }

  lemma InnerCase(cache: Tree, n: TNode, visited: set<nat>)
    requires n.level > 0
    ensures n.entries == [] ==> !WellFormed(cache, n)
    ensures n.entries != [] ==>
              ((WellFormed(cache, n) && Fresh(Reached(cache, n), visited)) <==> UpTo(cache, n, |n.entries|, visited))
    ensures Reached(cache, n) == ReachedUpTo(cache, n, |n.entries|)
    ensures UpTo(cache, n, 0, visited) && SetOf(ReachedUpTo(cache, n, 0)) == {}
    ensures forall i :: 0 <= i <= |n.entries| && !UpTo(cache, n, i, visited) ==> !UpTo(cache, n, |n.entries|, visited)
  {
    forall i | 0 <= i <= |n.entries| && UpTo(cache, n, |n.entries|, visited) ensures UpTo(cache, n, i, visited) {
      UpToShrinks(cache, n, i, |n.entries|, visited);
    }
  }

  lemma {:induction false} UpToShrinks(cache: Tree, n: TNode, i: nat, j: nat, visited: set<nat>)
    requires n.level > 0 && i <= j <= |n.entries| && UpTo(cache, n, j, visited)
    ensures UpTo(cache, n, i, visited)
    decreases j - i
  {
    hide UpTo, WellFormed, Fresh, Reached, ReachedUpTo;
    if i < j {
      NextChild(cache, n, j - 1, visited);
      UpToShrinks(cache, n, i, j - 1, visited);
    }
  }

  /** What the next child must satisfy. */
  lemma NextChild(cache: Tree, n: TNode, i: nat, visited: set<nat>)
    requires n.level > 0 && i < |n.entries|
    ensures var c, before := Sorted(n)[i].paddr, ReachedUpTo(cache, n, i);
            && (UpTo(cache, n, i + 1, visited) <==>
                  && UpTo(cache, n, i, visited) && c !in visited + SetOf(before)
                  && c != 0 && c in cache && cache[c].level == n.level - 1
                  && (i > 0 ==> Behind(cache, Sorted(n)[i - 1].paddr, c))
                  && WellFormed(cache, cache[c]) && Fresh(Reached(cache, cache[c]), visited + SetOf(before) + {c}))
            && (c in cache && cache[c].level == n.level - 1 ==>
                  visited + SetOf(ReachedUpTo(cache, n, i + 1)) ==
                      (visited + SetOf(before) + {c}) + SetOf(Reached(cache, cache[c])))
  {
    hide WellFormed;
    var c, before := Sorted(n)[i].paddr, ReachedUpTo(cache, n, i);
    var below: seq<nat> := if c in cache && cache[c].level == n.level - 1 then Reached(cache, cache[c]) else [];
    assert ReachedUpTo(cache, n, i + 1) == (before + [c]) + below;
    FreshConcat(before + [c], below, visited);
    FreshConcat(before, [c], visited);
    assert SetOf([c]) == {c};
    assert visited + SetOf(before + [c]) == visited + SetOf(before) + {c};
    assert Fresh([c], visited + SetOf(before)) <==> c !in visited + SetOf(before) by {
      assert [c][0] == c;
    }
    assert ChildFine(cache, n, i) <==>
             && c != 0 && c in cache && cache[c].level == n.level - 1
             && (i > 0 ==> Behind(cache, Sorted(n)[i - 1].paddr, c)) && WellFormed(cache, cache[c]);
  }

  // ---- what acceptance says about siblings ----

  /** Spans of the children of an accepted node are pairwise disjoint and increasing if each
      child's recorded span is not inverted. */
  lemma SiblingsIncrease(cache: Tree, n: TNode, i: nat, j: nat)
    requires n.level > 0 && i < j < |n.entries| && WellFormed(cache, n)
    requires forall k :: i < k < j ==>
               Sorted(n)[k].paddr in cache ==> cache[Sorted(n)[k].paddr].minKey <= cache[Sorted(n)[k].paddr].maxKey
    ensures Behind(cache, Sorted(n)[i].paddr, Sorted(n)[j].paddr)
    decreases j - i
  {
    assert ChildFine(cache, n, j);
    if i < j - 1 {
      SiblingsIncrease(cache, n, i, j - 1);
    }
  }

  /** The i-th child in key order has a recorded span. */
  ghost predicate Spans(cache: Tree, n: TNode, i: nat)
    requires i < |n.entries|
  {
    var c := Sorted(n)[i].paddr;
    c in cache && cache[c].minKey <= cache[c].maxKey
  }

  ghost predicate InOrder(cache: Tree, n: TNode, i: nat, j: nat)
    requires i < |n.entries| && j < |n.entries|
  {
    Spans(cache, n, i) && Spans(cache, n, j) ==> Behind(cache, Sorted(n)[i].paddr, Sorted(n)[j].paddr)
  }

  /** Children i and j have only unset spans between them, and at least one. */
  ghost predicate AcrossUnset(cache: Tree, n: TNode, i: nat, j: nat)
    requires i < |n.entries| && j < |n.entries|
  {
    i + 1 < j && forall k :: i < k < j ==> !Spans(cache, n, k)
  }

  /** In an accepted node the recorded spans of siblings are disjoint and increasing exactly
      if those are that have only unset spans between them: the check looks at direct
      neighbours, and has seen all others. */
  lemma SiblingsIncreaseIff(cache: Tree, n: TNode)
    requires n.level > 0 && WellFormed(cache, n)
    ensures (forall i, j {:trigger InOrder(cache, n, i, j)} ::
               0 <= i < j < |n.entries| ==> InOrder(cache, n, i, j)) <==>
            (forall i, j {:trigger InOrder(cache, n, i, j)} ::
               0 <= i < j < |n.entries| && AcrossUnset(cache, n, i, j) ==> InOrder(cache, n, i, j))
  {
    if forall i, j {:trigger InOrder(cache, n, i, j)} ::
         0 <= i < j < |n.entries| && AcrossUnset(cache, n, i, j) ==> InOrder(cache, n, i, j)
    {
      forall i, j | 0 <= i < j < |n.entries| ensures InOrder(cache, n, i, j) { OrderThrough(cache, n, i, j); }
    }
  }

  lemma {:induction false} OrderThrough(cache: Tree, n: TNode, i: nat, j: nat)
    requires n.level > 0 && WellFormed(cache, n)
    requires forall i, j {:trigger InOrder(cache, n, i, j)} ::
               0 <= i < j < |n.entries| && AcrossUnset(cache, n, i, j) ==> InOrder(cache, n, i, j)
    requires i < j < |n.entries|
    ensures InOrder(cache, n, i, j)
    decreases j - i
  {
    if j == i + 1 {
      assert ChildFine(cache, n, j);
    } else if exists k :: i < k < j && Spans(cache, n, k) {
      var k :| i < k < j && Spans(cache, n, k);
      OrderThrough(cache, n, i, k);
      OrderThrough(cache, n, k, j);
    } else {
      assert AcrossUnset(cache, n, i, j);
    }
  }

  /** Without that condition they need not be: the check compares neighbours only, and lets
      a child that never got an entry pass, whose span is still unset. */
  lemma InvertedSpanHidesOverlap() returns (cache: Tree, n: TNode)
    ensures WellFormed(cache, n) && Fresh(Reached(cache, n), {})
    ensures |n.entries| == 3 && !Behind(cache, Sorted(n)[0].paddr, Sorted(n)[2].paddr)
  {
    var a, b, c := TNode(0, [], 0, 10), TNode(0, [], POS_MAX, POS_MIN), TNode(0, [], 6, 20);
    cache := map[1 := a, 2 := b, 3 := c];
    var es := [Entry(0, 0, 1), Entry(1, 1, 2), Entry(2, 2, 3)];
    n := TNode(1, es, 0, 20);
    SortedThree(es);
    assert ChildFine(cache, n, 0) && ChildFine(cache, n, 1) && ChildFine(cache, n, 2);
    forall i | 0 <= i < |n.entries| ensures ChildFine(cache, n, i) {}
    assert ReachedUpTo(cache, n, 1) == [1];
    assert ReachedUpTo(cache, n, 2) == [1, 2];
    assert ReachedUpTo(cache, n, 3) == [1, 2, 3];
  }

  lemma SortedThree(es: seq<Entry>)
    requires |es| == 3 && es[0].key < es[1].key < es[2].key
    ensures StableSort.Sort(es, KeyOf) == es
  {
    assert es[1..][1..] == [es[2]] && es[1..][0] == es[1] && [es[2]][1..] == [];
    assert StableSort.Sort([es[2]], KeyOf) == [es[2]];
    assert es[1..] == [es[1], es[2]];
    assert StableSort.Sort(es[1..], KeyOf) == [es[1], es[2]];
    assert es == [es[0]] + es[1..];
  }

  // ---- the visible entries ----

  ghost predicate Increasing(s: seq<nat>) {
    forall i, j :: 0 <= i < j < |s| ==> s[i] < s[j]
  }

  /** Positions in order and none twice: accepted exactly if strictly increasing. */
  method CheckEntries(entries: seq<nat>) returns (ok: bool)
    ensures ok <==> Increasing(entries)
  {
    for i := 1 to if |entries| == 0 then 1 else |entries|
      invariant forall x, y :: 0 <= x < y < i && y < |entries| ==> entries[x] <= entries[y]
    {
      if entries[i] < entries[i - 1] { return false; }
    }
    var seen: set<nat> := {};
    for i := 0 to |entries|
      invariant forall x :: x in seen <==> x in entries[..i]
      invariant Increasing(entries[..i])
    {
      if entries[i] in seen {
        var x :| 0 <= x < i && entries[x] == entries[i];
        return false;
      }
      forall x | 0 <= x < i ensures entries[x] < entries[i] { assert entries[..i][x] in entries[..i]; }
      seen := seen + {entries[i]};
    }
    assert entries[..|entries|] == entries;
    ok := true;
  }

  /** One tree to check: root, cache, and the positions iteration shows. */
  datatype Checked = Checked(root: TNode, cache: Tree, entries: seq<nat>)

  /** Checks tree after tree and stops at the first fault. */
  method CheckTopology(trees: seq<Checked>) returns (ok: bool)
    ensures ok <==> forall i :: 0 <= i < |trees| ==>
                      WellFormed(trees[i].cache, trees[i].root) &&
                      Fresh(Reached(trees[i].cache, trees[i].root), {}) && Increasing(trees[i].entries)
  {
    for i := 0 to |trees|
      invariant forall j :: 0 <= j < i ==>
                  WellFormed(trees[j].cache, trees[j].root) && Fresh(Reached(trees[j].cache, trees[j].root), {}) &&
                  Increasing(trees[j].entries)
    {
      var seen;
      ok, seen := ValidateTreeNode(trees[i].root, trees[i].cache, {});
      if !ok { return; }
      ok := CheckEntries(trees[i].entries);
      if !ok { return; }
    }
    ok := true;
  }
}
