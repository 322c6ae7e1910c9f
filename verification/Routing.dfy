/** Lookups among the routing entries of an inner node. */
module Routing {
  import opened Wrappers
  import opened Records
  import opened BtreeNodes
  import StableSort

  /** A routing entry with its 1-based position across all runs. */
  datatype Entry = Entry(key: Key, paddr: nat, idx: nat)

  function EntryKey(e: Entry): int { e.key }

  /** Position i holds the last key not above the target, or the least key if there is none. */
  ghost predicate IsChildFor(rs: seq<Rec>, target: Key, i: nat) {
    && i < |rs|
    && if exists r :: r in rs && r.key <= target
       then rs[i].key <= target && forall r :: r in rs && r.key <= target ==> r.key <= rs[i].key
       else forall r :: r in rs ==> rs[i].key <= r.key
  }

  lemma ChildInRange(rs: seq<Rec>, target: Key, i: nat)
    requires IsChildFor(rs, target, i)
    ensures i < |rs|
  {}

  /** In a routing node the answer is one position only. */
  lemma IsChildForUnique(rs: seq<Rec>, target: Key, i: nat, j: nat)
    requires Distinct(rs) && IsChildFor(rs, target, i) && IsChildFor(rs, target, j)
    ensures i == j
  {
    assert rs[i] in rs && rs[j] in rs;
    assert rs[i].key == rs[j].key;
  }

  /** The child of an inner node to descend into, and its position: a binary search over the
      search array when the node is one compacted run, a sorted scan over all runs otherwise. */
  method FindChildNode(n: Node, target: Key) returns (addr: nat, idx: nat)
    requires n.Wf() && Clean(n.All())
    ensures n.keyCount == 0 ==> addr == 0 && idx == 0
    ensures n.keyCount > 0 && n.All() != [] ==> IsAnswer(n.All(), target, addr, idx)
  {
    if n.keyCount == 0 { return 0, 0; }
    if n.s0.aux && n.s1.recs == [] && n.s2.recs == [] {
      assert n.All() == n.s0.recs;
      if n.s0.recs == [] { return 0, 0; }
      idx := SearchAux(n.s0.recs, target);
      addr := n.s0.recs[idx - 1].val.paddr;
    } else {
      addr, idx := ScanRuns(n, target);
    }
  }

  method SearchAux(rs: seq<Rec>, target: Key) returns (idx: nat)
    requires rs != [] && Strict(rs)
    ensures 1 <= idx <= |rs| && IsChildFor(rs, target, idx - 1)
  {
    var lo, hi := 1, |rs|;
    var best := 0;
    while lo <= hi
      invariant 1 <= lo <= hi + 1 <= |rs| + 1 && 0 <= best < lo
      invariant forall i :: 0 <= i < lo - 1 ==> rs[i].key < target
      invariant forall i :: hi <= i < |rs| ==> target < rs[i].key
      invariant best == lo - 1
      decreases hi - lo
    {
      var mid := (lo + hi) / 2;
      var k := rs[mid - 1].key;
      if target == k {
        assert rs[mid - 1] in rs;
        return mid;
      } else if target > k {
        best, lo := mid, mid + 1;
      } else {
        hi := mid - 1;
      }
    }
    if best > 0 {
      assert rs[best - 1] in rs && rs[best - 1].key <= target;
      idx := best;
    } else {
      idx := 1;
    }
  }

  function Entries(rs: seq<Rec>): (es: seq<Entry>)
    ensures |es| == |rs|
    ensures forall i :: 0 <= i < |rs| ==> es[i] == Entry(rs[i].key, rs[i].val.paddr, i + 1)
  {
    seq(|rs|, i requires 0 <= i < |rs| => Entry(rs[i].key, rs[i].val.paddr, i + 1))
  }

  method CollectEntries(rs: seq<Rec>) returns (es: seq<Entry>)
    ensures es == Entries(rs)
  {
    es := [];
    for i := 0 to |rs|
      invariant es == Entries(rs)[..i]
    {
      es := es + [Entry(rs[i].key, rs[i].val.paddr, i + 1)];
    }
  }

  function SortedEntries(rs: seq<Rec>): (s: seq<Entry>)
    ensures |s| == |rs|
  {
    StableSort.Sort(Entries(rs), EntryKey)
  }

  lemma SortedEntriesStrict(rs: seq<Rec>)
    requires Distinct(rs)
    ensures var s := SortedEntries(rs); forall i, j :: 0 <= i < j < |s| ==> s[i].key < s[j].key
  {
    SortedEntriesFacts(rs);
  }

  /** What the sorted entries of a routing node are. */
  lemma SortedEntriesFacts(rs: seq<Rec>)
    requires Distinct(rs)
    ensures var s := SortedEntries(rs);
            && (forall i, j :: 0 <= i < j < |s| ==> s[i].key < s[j].key)
            && (forall e :: e in s ==>
                  1 <= e.idx <= |rs| && e.key == rs[e.idx - 1].key && e.paddr == rs[e.idx - 1].val.paddr)
            && (forall r :: r in rs ==> exists j :: 0 <= j < |s| && s[j].key == r.key && s[j].paddr == r.val.paddr)
  {
    var es, s := Entries(rs), SortedEntries(rs);
    assert StableSort.DistinctKeys(es, EntryKey);
    StableSort.SortDistinct(es, EntryKey);
    StableSort.SortMembers(es, EntryKey);
    forall i, j | 0 <= i < j < |s| ensures s[i].key < s[j].key {
      assert EntryKey(s[i]) < EntryKey(s[j]);
    }
    forall r | r in rs ensures exists j :: 0 <= j < |s| && s[j].key == r.key && s[j].paddr == r.val.paddr {
      var i :| 0 <= i < |rs| && rs[i] == r;
      assert es[i] in s;
    }
  }

  /** The last of the sorted entries whose key is not above the target. */
  method LastNotAbove(s: seq<Entry>, target: Key) returns (best: Option<Entry>)
    requires forall i, j :: 0 <= i < j < |s| ==> s[i].key < s[j].key
    ensures best.None? ==> forall j :: 0 <= j < |s| ==> s[j].key > target
    ensures best.Some? ==> best.value in s && best.value.key <= target
    ensures best.Some? ==> forall j :: 0 <= j < |s| && s[j].key <= target ==> s[j].key <= best.value.key
  {
    best := None;
    for i := 0 to |s|
      invariant best.None? ==> forall j :: 0 <= j < i ==> s[j].key > target
      invariant best.Some? ==> best.value in s && best.value.key <= target
      invariant best.Some? ==> forall j :: 0 <= j < i && s[j].key <= target ==> s[j].key <= best.value.key
    {
      if s[i].key <= target { best := Some(s[i]); }
    }
  }

  method ScanRuns(n: Node, target: Key) returns (addr: nat, idx: nat)
    requires Clean(n.All())
    ensures n.All() != [] ==> IsAnswer(n.All(), target, addr, idx)
  {
    var entries := CollectEntries(n.All());
    entries := StableSort.Sort(entries, EntryKey);
    addr, idx := PickChild(n.All(), entries, target);
  }

  method PickChild(ghost rs: seq<Rec>, s: seq<Entry>, target: Key) returns (addr: nat, idx: nat)
    requires Distinct(rs) && s == SortedEntries(rs)
    ensures rs != [] ==> IsAnswer(rs, target, addr, idx)
  {
    SortedEntriesStrict(rs);
    hide *;
    var best := LastNotAbove(s, target);
    ScanResult(rs, target, best);
    if best.Some? { return best.value.paddr, best.value.idx; }
    if s != [] { return s[0].paddr, s[0].idx; }
    return 0, 0;
  }

  /** Address and position of the entry to descend into. */
  ghost predicate IsAnswer(rs: seq<Rec>, target: Key, addr: nat, idx: nat) {
    1 <= idx <= |rs| && addr == rs[idx - 1].val.paddr && IsChildFor(rs, target, idx - 1)
  }

  lemma ScanResult(rs: seq<Rec>, target: Key, best: Option<Entry>)
    requires Distinct(rs)
    requires var s := SortedEntries(rs);
             && (best.None? ==> forall j :: 0 <= j < |s| ==> s[j].key > target)
             && (best.Some? ==> best.value in s && best.value.key <= target)
             && (best.Some? ==> forall j :: 0 <= j < |s| && s[j].key <= target ==> s[j].key <= best.value.key)
    ensures var s := SortedEntries(rs);
            && (best.Some? ==> IsAnswer(rs, target, best.value.paddr, best.value.idx))
            && (best.None? && s != [] ==> IsAnswer(rs, target, s[0].paddr, s[0].idx))
  {
    SortedEntriesFacts(rs);
    var s := SortedEntries(rs);
    if best.Some? {
      assert rs[best.value.idx - 1] in rs;
    } else if s != [] {
      assert s[0] in s;
    }
  }

  // ---- neighbours ----

  /** l and r are next to each other among the keys of the map. */
  ghost predicate Next(m: map<Key, BchVal>, l: Key, r: Key) {
    && l in m && r in m && l < r
    && forall x :: x in m ==> x <= l || r <= x
  }

  ghost predicate ChildOnce(m: map<Key, BchVal>, k: Key) {
    k in m && forall x :: x in m && m[x].paddr == m[k].paddr ==> x == k
  }

  /** The neighbour, in key order, of the child under routing key k. */
  method FindSibling(n: Node, child: nat, isLeft: bool, ghost k: Key) returns (o: Option<(Key, nat)>)
    requires Clean(n.All()) && n.keyCount == |n.All()|
    requires ChildOnce(n.Map(), k) && n.Map()[k].paddr == child
    ensures o.Some? ==>
              && (if isLeft then Next(n.Map(), o.value.0, k) else Next(n.Map(), k, o.value.0))
              && n.Map()[o.value.0].paddr == o.value.1
    ensures o.None? ==> forall x :: x in n.Map() ==> if isLeft then k <= x else x <= k
  {
    if n.keyCount == 0 { return None; }
    var entries := CollectEntries(n.All());
    entries := StableSort.Sort(entries, EntryKey);
    var pos := 0;
    while pos < |entries| && entries[pos].paddr != child
      invariant 0 <= pos <= |entries|
      invariant forall j :: 0 <= j < pos ==> entries[j].paddr != child
    {
      pos := pos + 1;
    }
    SiblingResult(n.All(), k, pos);
    if pos == |entries| { return None; }
    if isLeft {
      if pos > 0 { return Some((entries[pos - 1].key, entries[pos - 1].paddr)); }
    } else {
      if pos + 1 < |entries| { return Some((entries[pos + 1].key, entries[pos + 1].paddr)); }
    }
    return None;
  }

  lemma SiblingResult(rs: seq<Rec>, k: Key, pos: nat)
    requires Clean(rs) && ChildOnce(View(rs), k)
    requires var s := SortedEntries(rs);
             && pos <= |s| && (pos < |s| ==> s[pos].paddr == View(rs)[k].paddr)
             && forall j :: 0 <= j < pos ==> s[j].paddr != View(rs)[k].paddr
    ensures var s, m := SortedEntries(rs), View(rs);
            && pos < |s| && s[pos].key == k
            && (pos > 0 ==> Next(m, s[pos - 1].key, k) && m[s[pos - 1].key].paddr == s[pos - 1].paddr)
            && (pos + 1 < |s| ==> Next(m, k, s[pos + 1].key) && m[s[pos + 1].key].paddr == s[pos + 1].paddr)
            && (pos == 0 ==> forall x :: x in m ==> k <= x)
            && (pos + 1 == |s| ==> forall x :: x in m ==> x <= k)
  {
    hide SortedEntries, View, Clean;
    SortedIsMap(rs);
    var s, m := SortedEntries(rs), View(rs);
    var j :| 0 <= j < |s| && s[j].key == k;
    assert s[j].paddr == m[k].paddr;
    assert pos < |s|;
    assert s[pos].key in m && m[s[pos].key].paddr == s[pos].paddr;
    assert s[pos].key == k;
  }

  lemma SortedIsMap(rs: seq<Rec>)
    requires Clean(rs)
    ensures var s, m := SortedEntries(rs), View(rs);
            && (forall i, j :: 0 <= i < j < |s| ==> s[i].key < s[j].key)
            && (forall i :: 0 <= i < |s| ==> s[i].key in m && m[s[i].key].paddr == s[i].paddr)
            && (forall k :: k in m ==> exists j :: 0 <= j < |s| && s[j].key == k)
  {
    SortedEntriesFacts(rs);
    CleanView(rs);
    var s, m := SortedEntries(rs), View(rs);
    forall i | 0 <= i < |s| ensures s[i].key in m && m[s[i].key].paddr == s[i].paddr {
      assert s[i] in s;
    }
    forall k | k in m ensures exists j :: 0 <= j < |s| && s[j].key == k {
      var i :| 0 <= i < |rs| && rs[i].key == k;
      assert rs[i] in rs;
    }
  }

  // ---- entries by position ----

  /** Position of the entry leading to an address, counted over all runs from 1. */
  method FindEntryIndex(n: Node, addr: nat) returns (o: Option<nat>)
    ensures o.Some? ==> 1 <= o.value <= |n.All()| && n.All()[o.value - 1].val.paddr == addr
    ensures o.None? ==> forall r :: r in n.All() ==> r.val.paddr != addr
  {
    var all := n.All();
    for i := 0 to |all|
      invariant forall j :: 0 <= j < i ==> all[j].val.paddr != addr
    {
      if all[i].val.paddr == addr { return Some(i + 1); }
    }
    return None;
  }

  /** Reads the entry at a position counted over all runs, walking from run to run. */
  method ReadEntryByGlobalIdx(n: Node, idx: nat) returns (o: Option<Rec>)
    requires idx >= 1
    ensures o == if idx <= |n.All()| then Some(n.All()[idx - 1]) else None
  {
    var remaining := idx;
    if n.s0.recs != [] {
      if remaining <= |n.s0.recs| { return Some(n.s0.recs[remaining - 1]); }
      remaining := remaining - |n.s0.recs|;
    }
    if n.s1.recs != [] {
      if remaining <= |n.s1.recs| { return Some(n.s1.recs[remaining - 1]); }
      remaining := remaining - |n.s1.recs|;
    }
    if n.s2.recs != [] {
      if remaining <= |n.s2.recs| { return Some(n.s2.recs[remaining - 1]); }
    }
    return None;
  }
}
