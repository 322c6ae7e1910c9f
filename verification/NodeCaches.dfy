/** The node cache: clean nodes in LRU order, dirty nodes, and dirty nodes drained for a
    later write, with leaf-first eviction and a second-chance shrinker. */
module NodeCaches {
  import opened Wrappers
  import opened Sequences
  import StableSort

  const MAX_CLEAN: nat := 1024
  const MAX_DIRTY: nat := 256
  const MIN_KEEP: nat := 64

  /** A cached node as far as the cache looks at it. */
  datatype CNode = CNode(level: nat, accessed: bool, pins: nat, willMakeReachable: bool, data: nat)

  type Cached = map<nat, CNode>

  /** The queue lists the clean nodes, each once. */
  ghost predicate Lists(lru: seq<nat>, clean: Cached) {
    NoRepeats(lru) && forall id :: id in lru <==> id in clean
  }

  ghost predicate Apart(a: Cached, b: Cached) {
    forall id :: id in a ==> id !in b
  }

  ghost predicate LevelsOk(nodes: Cached, levels: map<nat, nat>) {
    forall id :: id in nodes ==> id in levels && levels[id] == nodes[id].level
  }

  ghost predicate CacheOk(clean: Cached, lru: seq<nat>, dirty: Cached, pending: Cached, levels: map<nat, nat>) {
    && Lists(lru, clean)
    && Apart(clean, dirty) && Apart(clean, pending) && Apart(dirty, pending)
    && |clean| <= MAX_CLEAN && |dirty| < MAX_DIRTY
    && LevelsOk(clean, levels) && LevelsOk(dirty, levels) && LevelsOk(pending, levels)
  }

  lemma WithoutMember(lru: seq<nat>, p: nat, id: nat)
    requires NoRepeats(lru) && p < |lru|
    ensures id in Without(lru, p) <==> id in lru && id != lru[p]
  {
    var r := Without(lru, p);
    if id in lru && id != lru[p] {
      var i :| 0 <= i < |lru| && lru[i] == id;
      assert r[if i < p then i else i - 1] == id;
    }
    if id in r {
      var i :| 0 <= i < |r| && r[i] == id;
      assert lru[if i < p then i else i + 1] == id;
    }
  }

  lemma WithoutDistinct(lru: seq<nat>, p: nat)
    requires NoRepeats(lru) && p < |lru|
    ensures NoRepeats(Without(lru, p))
  {
    var r := Without(lru, p);
    forall i, j | 0 <= i < j < |r| ensures r[i] != r[j] {
      assert r[i] == lru[if i < p then i else i + 1] && r[j] == lru[if j < p then j else j + 1];
    }
  }

  lemma WithoutLists(lru: seq<nat>, clean: Cached, p: nat)
    requires Lists(lru, clean) && p < |lru|
    ensures lru[p] in clean && Lists(Without(lru, p), clean - {lru[p]}) && lru[p] !in Without(lru, p)
    ensures |clean - {lru[p]}| == |clean| - 1
  {
    hide Without, NoRepeats;
    assert lru[p] in lru;
    WithoutDistinct(lru, p);
    forall id: nat ensures id in Without(lru, p) <==> id in lru && id != lru[p] { WithoutMember(lru, p, id); }
    RemoveOne(clean, lru[p]);
  }

  lemma RemoveOne(clean: Cached, id: nat)
    requires id in clean
    ensures |clean - {id}| == |clean| - 1
  {
    assert (clean - {id}).Keys == clean.Keys - {id};
    assert |clean - {id}| == |(clean - {id}).Keys| && |clean| == |clean.Keys|;
  }

  lemma AppendLists(lru: seq<nat>, clean: Cached, id: nat, n: CNode)
    requires Lists(lru, clean) && id !in clean
    ensures Lists(lru + [id], clean[id := n]) && |clean[id := n]| == |clean| + 1
  {
    assert clean[id := n].Keys == clean.Keys + {id};
    assert |clean[id := n]| == |clean[id := n].Keys| && |clean| == |clean.Keys|;
    forall x | x in clean[id := n] ensures x in lru + [id] {
      assert (lru + [id])[|lru|] == id;
      if x != id { assert x in lru; }
    }
  }

  method IndexOf(s: seq<nat>, id: nat) returns (o: Option<nat>)
    ensures o.Some? ==> o.value < |s| && s[o.value] == id && id !in s[..o.value]
    ensures o.None? ==> id !in s
  {
    for i := 0 to |s|
      invariant id !in s[..i]
    {
      if s[i] == id { return Some(i); }
    }
    o := None;
  }

  // ---- which node to evict ----

  predicate Protected(n: CNode) { n.willMakeReachable || n.pins > 0 }

  /** An unprotected leaf. */
  predicate Victim(clean: Cached, levels: map<nat, nat>, id: nat) {
    id in clean && !Protected(clean[id]) && LevelOf(levels, id) == 0
  }

  function LevelOf(levels: map<nat, nat>, id: nat): nat { if id in levels then levels[id] else 0 }

  /** The least recently used unprotected leaf; without one, the least recently used node. */
  ghost predicate IsChoice(clean: Cached, lru: seq<nat>, levels: map<nat, nat>, p: nat) {
    && p < |lru|
    && if exists i :: 0 <= i < |lru| && Victim(clean, levels, lru[i])
       then Victim(clean, levels, lru[p]) && forall i :: 0 <= i < p ==> !Victim(clean, levels, lru[i])
       else p == 0
  }

  ghost function Choice(clean: Cached, lru: seq<nat>, levels: map<nat, nat>): (p: nat)
    requires lru != []
    ensures p < |lru| && IsChoice(clean, lru, levels, p)
  {
    ChoiceExists(clean, lru, levels);
    var p: nat :| IsChoice(clean, lru, levels, p);
    p
  }

  lemma ChoiceExists(clean: Cached, lru: seq<nat>, levels: map<nat, nat>)
    requires lru != []
    ensures exists p: nat :: IsChoice(clean, lru, levels, p)
  {
    if exists i :: 0 <= i < |lru| && Victim(clean, levels, lru[i]) {
      var p := FirstVictim(clean, lru, levels, 0);
      assert IsChoice(clean, lru, levels, p);
    } else {
      assert IsChoice(clean, lru, levels, 0);
    }
  }

  lemma {:induction false} FirstVictim(clean: Cached, lru: seq<nat>, levels: map<nat, nat>, from: nat) returns (p: nat)
    requires from <= |lru| && exists i :: from <= i < |lru| && Victim(clean, levels, lru[i])
    ensures from <= p < |lru| && Victim(clean, levels, lru[p])
    ensures forall i :: from <= i < p ==> !Victim(clean, levels, lru[i])
    decreases |lru| - from
  {
    p := from;
    if !Victim(clean, levels, lru[from]) { p := FirstVictim(clean, lru, levels, from + 1); }
  }

  /** The clean side of the cache. */
  datatype Shelf = Shelf(clean: Cached, lru: seq<nat>, levels: map<nat, nat>)

  /** Evicting the node at a queue position. */
  function Evicted(s: Shelf, p: nat): Shelf
    requires p < |s.lru|
  {
    Shelf(s.clean - {s.lru[p]}, Without(s.lru, p), s.levels - {s.lru[p]})
  }

  lemma EvictedOk(s: Shelf, dirty: Cached, pending: Cached, p: nat)
    requires CacheOk(s.clean, s.lru, dirty, pending, s.levels) && p < |s.lru|
    ensures var t := Evicted(s, p);
            CacheOk(t.clean, t.lru, dirty, pending, t.levels) && |t.clean| == |s.clean| - 1 && |t.lru| < |s.lru|
  {
    hide Without;
    WithoutLists(s.lru, s.clean, p);
  }

  /** What an eviction loop leaves: at the limit, one node less. */
  ghost function Roomy(s: Shelf): Shelf
    requires |s.clean| >= MAX_CLEAN ==> s.lru != []
  {
    if |s.clean| >= MAX_CLEAN then Evicted(s, Choice(s.clean, s.lru, s.levels)) else s
  }

  // ---- scanning for the shrinker ----

  /** Dropped by the shrinker: neither protected nor used since the last scan. */
  predicate Stale(clean: Cached, id: nat) { id in clean && !Protected(clean[id]) && !clean[id].accessed }

  /** A node that was scanned but is kept loses its accessed mark, unless it is protected. */
  function Spared(n: CNode): CNode { if Protected(n) then n else n.(accessed := false) }

  /** The clean nodes after the given ids were scanned. */
  function Scanned(clean: Cached, ids: seq<nat>): Cached {
    map id | id in clean && !(id in ids && Stale(clean, id)) :: if id in ids then Spared(clean[id]) else clean[id]
  }

  /** The queue without the stale ones of the given ids. */
  function Unstale(lru: seq<nat>, clean: Cached, ids: seq<nat>): seq<nat> {
    if lru == [] then []
    else if lru[0] in ids && Stale(clean, lru[0]) then Unstale(lru[1..], clean, ids)
    else [lru[0]] + Unstale(lru[1..], clean, ids)
  }

  /** Drained and dirty nodes together. */
  function Both(pending: Cached, dirty: Cached): Cached { pending + dirty }

  /** At the limit all dirty nodes are drained, below it none is. */
  ghost predicate DrainedAt(dirty: Cached, pending: Cached, dirty': Cached, pending': Cached) {
    if |dirty| >= MAX_DIRTY then dirty' == map[] && pending' == pending + dirty
    else dirty' == dirty && pending' == pending
  }

  lemma BothAt(pending: Cached, dirty: Cached, id: nat)
    ensures id in Both(pending, dirty) <==> id in dirty || id in pending
    ensures id in dirty ==> Both(pending, dirty)[id] == dirty[id]
    ensures id in pending && id !in dirty ==> Both(pending, dirty)[id] == pending[id]
  {}

  lemma BothUpdate(pending: Cached, dirty: Cached, id: nat, n: CNode)
    ensures Both(pending, dirty[id := n]) == Both(pending, dirty)[id := n]
    ensures id !in dirty ==> Both(pending[id := n], dirty) == Both(pending, dirty)[id := n]
  {
    assert pending + dirty[id := n] == (pending + dirty)[id := n];
    if id !in dirty { assert pending[id := n] + dirty == (pending + dirty)[id := n]; }
  }

  /** Draining moves nodes, it loses none. */
  lemma BothDrained(pending: Cached, dirty: Cached)
    ensures Both(pending + dirty, map[]) == Both(pending, dirty)
  {
    assert (pending + dirty) + map[] == pending + dirty;
  }

  lemma BothMoved(pending: Cached, dirty: Cached, id: nat)
    requires id in dirty
    ensures Both(pending[id := dirty[id]], dirty - {id}) == Both(pending, dirty)
  {}

  function Removed(m: Cached, id: nat): Cached { m - {id} }

  lemma RemovedAbsent(m: Cached, id: nat)
    ensures id !in m ==> Removed(m, id) == m
    ensures Removed(m, id) == m - {id}
  {}

  lemma BothLosesDirty(pending: Cached, dirty: Cached, id: nat)
    requires id !in pending
    ensures Both(pending, Removed(dirty, id)) == Removed(Both(pending, dirty), id)
  {}

  lemma BothLosesPending(pending: Cached, dirty: Cached, id: nat)
    requires id !in dirty
    ensures Both(Removed(pending, id), dirty) == Removed(Both(pending, dirty), id)
  {}

  // ---- the cache ----

  class NodeCache {
    var clean: Cached
    var lru: seq<nat>
    var dirty: Cached
    var pending: Cached
    var levels: map<nat, nat>

    ghost predicate Valid()
      reads this
    {
      CacheOk(clean, lru, dirty, pending, levels)
    }

    /** The nodes that still have to be written. */
    ghost function Unwritten(): Cached
      reads this
    {
      Both(pending, dirty)
    }

    constructor ()
      ensures Valid() && clean == map[] && Unwritten() == map[]
    {
      clean, lru, dirty, pending, levels := map[], [], map[], map[], map[];
    }

    /** Finds a node wherever it is. */
    method Get(id: nat) returns (o: Option<CNode>)
      requires Valid()
      ensures o == if id in Unwritten() then Some(Unwritten()[id]) else if id in clean then Some(clean[id]) else None
    {
      if id in dirty { return Some(dirty[id]); }
      if id in pending { return Some(pending[id]); }
      if id in clean { return Some(clean[id]); }
      o := None;
    }

    ghost function Clean(): Shelf
      reads this
    {
      Shelf(clean, lru, levels)
    }

    /** Evicts the least recently used unprotected leaf, if there is one. */
    method EvictOneLeaf() returns (evicted: bool)
      requires Valid()
      modifies this`clean, this`lru, this`levels
      ensures Valid()
      ensures evicted <==> exists i :: 0 <= i < |old(lru)| && Victim(old(clean), old(levels), old(lru)[i])
      ensures Clean() == if evicted then Evicted(old(Clean()), Choice(old(clean), old(lru), old(levels)))
                         else old(Clean())
    {
      hide Without, CacheOk, Lists, IsChoice;
      var hasLeaf := false;
      for i := 0 to |lru|
        invariant !hasLeaf ==> forall j :: 0 <= j < i ==> LevelOf(levels, lru[j]) != 0
      {
        if LevelOf(levels, lru[i]) == 0 { hasLeaf := true; }
      }
      if !hasLeaf { return false; }
      var front := 0;
      while front < |lru|
        invariant front <= |lru| && Valid() && Clean() == old(Clean())
        invariant forall i :: 0 <= i < front ==> !Victim(clean, levels, lru[i])
      {
        var id := lru[front];
        ListedIsClean(clean, lru, dirty, pending, levels, front);
        if !Protected(clean[id]) && LevelOf(levels, id) == 0 {
          FirstIsChoice(clean, lru, levels, front);
          EvictedOk(Clean(), dirty, pending, front);
          lru := Without(lru, front);
          clean := clean - {id};
          levels := levels - {id};
          return true;
        }
        front := front + 1;
      }
      evicted := false;
    }

    /** Makes room for one clean node: at the limit, one node goes. */
    method EnsureRoom()
      requires Valid()
      modifies this`clean, this`lru, this`levels
      ensures Valid() && |clean| < MAX_CLEAN
      ensures (|old(clean)| >= MAX_CLEAN ==> old(lru) != []) && Clean() == Roomy(old(Clean()))
    {
      hide Without, Lists, IsChoice, Victim;
      QueueFull(lru, clean);
      while |clean| >= MAX_CLEAN
        invariant Valid() && (|clean| >= MAX_CLEAN ==> Clean() == old(Clean()))
        invariant |clean| < MAX_CLEAN ==> Clean() == Roomy(old(Clean()))
        decreases |lru|
      {
        EvictedOk(Clean(), dirty, pending, Choice(clean, lru, levels));
        var evicted := EvictOneLeaf();
        if !evicted {
          if lru == [] { break; }
          NoVictim(clean, lru, levels);
          var id := lru[0];
          lru := lru[1..];
          clean := clean - {id};
          levels := levels - {id};
        }
      }
    }

    /** Moves an id to the back of the queue. */
    method LruPromote(id: nat)
      modifies this`lru
      ensures lru == Promoted(old(lru), id)
    {
      var p := IndexOf(lru, id);
      if p.Some? {
        PromotedAt(lru, id, p.value);
        lru := Without(lru, p.value) + [id];
      } else {
        PromotedAbsent(lru, id);
      }
    }

    /** Finds a node, or takes the loaded one in as the most recently used clean node. */
    method GetOrLoad(id: nat, loaded: CNode) returns (n: CNode)
      requires Valid()
      modifies this
      ensures Valid() && n.accessed
      ensures id in old(Unwritten()) ==>
                n == old(Unwritten())[id].(accessed := true) && Unwritten() == old(Unwritten())[id := n] &&
                Clean() == old(Clean())
      ensures id in old(clean) ==>
                && n == old(clean)[id].(accessed := true) && Unwritten() == old(Unwritten())
                && Clean() == Shelf(old(clean)[id := n], Promoted(old(lru), id), old(levels))
      ensures id !in old(Unwritten()) && id !in old(clean) ==>
                && n == loaded.(accessed := true) && Unwritten() == old(Unwritten())
                && (|old(clean)| >= MAX_CLEAN ==> old(lru) != [])
                && Clean() == Added(Roomy(old(Clean())), id, n)
    {
      hide CacheOk, Roomy, Promoted, Lists, Both;
      BothAt(pending, dirty, id);
      Sides(clean, lru, dirty, pending, levels);
      if id in dirty || id in pending {
        n := HitUnwritten(id);
      } else if id in clean {
        n := HitClean(id);
      } else {
        n := Load(id, loaded);
      }
    }

    method HitUnwritten(id: nat) returns (n: CNode)
      requires Valid() && id in Unwritten()
      modifies this`dirty, this`pending
      ensures Valid() && n == old(Unwritten())[id].(accessed := true) && Unwritten() == old(Unwritten())[id := n]
    {
      hide CacheOk, Both, Lists;
      Sides(clean, lru, dirty, pending, levels);
      BothAt(pending, dirty, id);
      if id in dirty {
        n := dirty[id].(accessed := true);
        BothUpdate(pending, dirty, id, n);
        TouchOk(clean, lru, dirty, pending, levels, id, n);
        dirty := dirty[id := n];
      } else {
        n := pending[id].(accessed := true);
        BothUpdate(pending, dirty, id, n);
        TouchOk(clean, lru, dirty, pending, levels, id, n);
        pending := pending[id := n];
      }
    }

    method HitClean(id: nat) returns (n: CNode)
      requires Valid() && id in clean
      modifies this`clean, this`lru
      ensures Valid() && n == old(clean)[id].(accessed := true)
      ensures Clean() == Shelf(old(clean)[id := n], Promoted(old(lru), id), levels)
    {
      hide CacheOk, Promoted;
      n := clean[id].(accessed := true);
      TouchOk(clean, lru, dirty, pending, levels, id, n);
      PromotedOk(clean[id := n], lru, dirty, pending, levels, id);
      clean := clean[id := n];
      LruPromote(id);
    }

    method Load(id: nat, loaded: CNode) returns (n: CNode)
      requires Valid() && id !in clean && id !in dirty && id !in pending
      modifies this`clean, this`lru, this`levels
      ensures Valid() && n == loaded.(accessed := true)
      ensures (|old(clean)| >= MAX_CLEAN ==> old(lru) != []) && Clean() == Added(Roomy(old(Clean())), id, n)
    {
      hide CacheOk, Roomy;
      EnsureRoom();
      RoomyFewer(old(Clean()), id);
      n := loaded.(accessed := true);
      AddedOk(Clean(), dirty, pending, id, n);
      levels := levels[id := n.level];
      clean := clean[id := n];
      lru := lru + [id];
    }

    /** Takes a node in as clean. The queue and the three maps stay in order exactly if the
        node was dirty, when nothing happens, or was not there at all. */
    method InsertClean(id: nat, node: CNode)
      requires Valid()
      modifies this
      ensures Valid() <==> id in old(dirty) || (id !in old(clean) && id !in old(pending))
      ensures Unwritten() == old(Unwritten())
      ensures id in old(dirty) ==> Clean() == old(Clean())
      ensures id !in old(clean) && id !in old(Unwritten()) ==>
                && (|old(clean)| >= MAX_CLEAN ==> old(lru) != [])
                && Clean() == Added(Roomy(old(Clean())), id, node.(accessed := true))
    {
      hide CacheOk, Roomy, Evicted, Promoted;
      Sides(clean, lru, dirty, pending, levels);
      if id in dirty { return; }
      if id in clean {
        clean := clean - {id};
        LruPromote(id);
        clean := clean[id := node];
        lru := lru + [id];
        TwiceQueued(old(lru), id);
        NotDistinct(clean, lru, dirty, pending, levels);
        return;
      }
      EnsureRoom();
      RoomyFewer(old(Clean()), id);
      if id !in pending { AddedOk(Clean(), dirty, pending, id, node.(accessed := true)); }
      levels := levels[id := node.level];
      clean := clean[id := node.(accessed := true)];
      lru := lru + [id];
      if id in pending {
        Sides(old(clean), old(lru), old(dirty), old(pending), old(levels));
        NotApart(clean, lru, dirty, pending, levels, id);
      }
    }

    /** Takes an id out of the clean side; its level stays known. */
    method Unlist(id: nat)
      requires Valid() && id in clean
      modifies this`clean, this`lru
      ensures CacheOk(clean, lru, dirty, pending, levels)
      ensures Clean() == Unlisted(old(Clean()), id)
    {
      hide CacheOk;
      UnlistedOk(Clean(), dirty, pending, id);
      var p := IndexOf(lru, id);
      FirstIs(lru, id, p.value);
      lru := Without(lru, p.value);
      clean := clean - {id};
    }

    /** Drains the dirty nodes once there are too many; they stay findable. */
    method AutoFlush()
      requires Lists(lru, clean) && Apart(clean, dirty) && Apart(clean, pending) && |clean| <= MAX_CLEAN
      requires LevelsOk(clean, levels) && LevelsOk(dirty, levels) && LevelsOk(pending - dirty.Keys, levels)
      modifies this`dirty, this`pending
      ensures Unwritten() == old(Unwritten())
      ensures Valid() <==> old(Apart(dirty, pending)) || |old(dirty)| >= MAX_DIRTY
      ensures DrainedAt(old(dirty), old(pending), dirty, pending)
    {
      hide Lists, Both, LevelsOk;
      FlushedOk(clean, lru, dirty, pending, levels);
      if |dirty| >= MAX_DIRTY {
        BothDrained(pending, dirty);
        pending := pending + dirty;
        dirty := map[];
      }
    }

    /** A clean node becomes dirty; any other id is left alone. */
    method MarkDirty(id: nat)
      requires Valid()
      modifies this
      ensures Valid()
      ensures Unwritten() == if id in old(clean) then old(Unwritten())[id := old(clean)[id]] else old(Unwritten())
      ensures Clean() == if id in old(clean) then Unlisted(old(Clean()), id) else old(Clean())
      ensures DrainedAt(if id in old(clean) then old(dirty)[id := old(clean)[id]] else old(dirty), old(pending),
                        dirty, pending)
    {
      hide Lists, Unlisted, Both;
      if id in clean {
        var n := clean[id];
        Unlist(id);
        UnlistedGone(old(Clean()), id);
        BothUpdate(pending, dirty, id, n);
        dirty := dirty[id := n];
      }
      AutoFlush();
    }

    /** A changed node comes in as dirty. Everything stays in order unless the id is waiting
        to be written and this node does not fill up the dirty side. */
    method InsertDirty(id: nat, node: CNode)
      requires Valid()
      modifies this
      ensures Valid() <==> id in old(dirty) || id !in old(pending) || |old(dirty)| + 1 >= MAX_DIRTY
      ensures id in old(dirty) ==> Unwritten() == old(Unwritten()) && Clean() == old(Clean())
      ensures id !in old(dirty) ==> Unwritten() == old(Unwritten())[id := node]
      ensures id !in old(dirty) ==> clean == old(clean) - {id}
      ensures id !in old(dirty) ==> DrainedAt(old(dirty)[id := node], old(pending), dirty, pending)
    {
      hide Lists, Unlisted, Both, LevelsOk;
      if id in dirty { return; }
      if id in clean {
        Unlist(id);
        UnlistedGone(old(Clean()), id);
      }
      NewDirty(clean, dirty, pending, levels, id, node);
      BothUpdate(pending, dirty, id, node);
      levels := levels[id := node.level];
      dirty := dirty[id := node];
      AutoFlush();
    }

    /** Takes a node out for good. */
    method Remove(id: nat) returns (o: Option<CNode>)
      requires Valid()
      modifies this
      ensures Valid()
      ensures o == if id in old(clean) then Some(old(clean)[id])
                   else if id in old(Unwritten()) then Some(old(Unwritten())[id]) else None
      ensures Unwritten() == if id in old(clean) then old(Unwritten()) else Removed(old(Unwritten()), id)
      ensures clean == Removed(old(clean), id)
    {
      hide CacheOk, Unlisted, Both, Lists, Removed;
      OnOneSide(clean, lru, dirty, pending, levels, id);
      RemovedAbsent(clean, id);
      if id in clean {
        o := Some(clean[id]);
        Unlist(id);
        UnlistedGone(old(Clean()), id);
        LevelGone(clean, lru, dirty, pending, levels, id);
        levels := levels - {id};
      } else {
        o := RemoveUnwritten(id);
      }
    }

    method RemoveUnwritten(id: nat) returns (o: Option<CNode>)
      requires Valid() && id !in clean
      modifies this`dirty, this`pending, this`levels
      ensures Valid() && Unwritten() == Removed(old(Unwritten()), id)
      ensures o == if id in old(Unwritten()) then Some(old(Unwritten())[id]) else None
    {
      hide CacheOk, Both, Lists, Removed;
      OnOneSide(clean, lru, dirty, pending, levels, id);
      BothAt(pending, dirty, id);
      if id in dirty {
        BothLosesDirty(pending, dirty, id);
        RemovedDirty(clean, lru, dirty, pending, levels, id);
        o := Some(dirty[id]);
        dirty := Removed(dirty, id);
        levels := levels - {id};
      } else if id in pending {
        BothLosesPending(pending, dirty, id);
        RemovedPending(clean, lru, dirty, pending, levels, id);
        o := Some(pending[id]);
        pending := Removed(pending, id);
        levels := levels - {id};
      } else {
        RemovedAbsent(Both(pending, dirty), id);
        o := None;
      }
    }

    /** Drains one dirty node, any of them. */
    method CannibalizePhase2() returns (o: Option<(nat, CNode)>)
      requires Valid()
      modifies this`dirty, this`pending
      ensures Valid() && Unwritten() == old(Unwritten())
      ensures o.None? <==> old(dirty) == map[]
      ensures o.None? ==> pending == old(pending) && dirty == old(dirty)
      ensures o.Some? ==>
                && o.value.0 in old(dirty) && o.value.1 == old(dirty)[o.value.0]
                && dirty == old(dirty) - {o.value.0} && pending == old(pending)[o.value.0 := o.value.1]
    {
      hide Lists, Both;
      if dirty.Keys == {} { return None; }
      var id :| id in dirty;
      BothMoved(pending, dirty, id);
      RemoveOne(dirty, id);
      o := Some((id, dirty[id]));
      pending := pending[id := dirty[id]];
      dirty := dirty - {id};
    }

    /** Takes the listed nodes out of the dirty and the drained ones. */
    method TakeAll(ids: seq<nat>) returns (nodes: seq<(nat, CNode)>)
      requires Apart(dirty, pending) && NoRepeats(ids) && forall id :: id in ids <==> id in dirty || id in pending
      modifies this`dirty, this`pending
      ensures dirty == map[] && pending == map[] && EachOnce(nodes, old(Unwritten()))
    {
      hide Both, EachOnce;
      ghost var taken: set<nat>, was := {}, Unwritten();
      nodes := [];
      for i := 0 to |ids|
        invariant |nodes| == i &&
                  forall j :: 0 <= j < i ==> nodes[j].0 == ids[j] && ids[j] in was && was[ids[j]] == nodes[j].1
        invariant dirty == old(dirty) - taken && pending == old(pending) - taken
        invariant forall id :: id in taken <==> id in ids[..i]
      {
        var id := ids[i];
        assert id in ids && id !in ids[..i];
        BothAt(old(pending), old(dirty), id);
        var c := TakeOne(id);
        nodes := nodes + [(id, c)];
        taken := taken + {id};
      }
      forall id | id in was ensures id in ids { BothAt(old(pending), old(dirty), id); }
      AllTaken(ids, nodes, was);
    }

    method TakeOne(id: nat) returns (c: CNode)
      requires Apart(dirty, pending) && (id in dirty || id in pending)
      modifies this`dirty, this`pending
      ensures dirty == old(dirty) - {id} && pending == old(pending) - {id}
      ensures c == if id in old(dirty) then old(dirty)[id] else old(pending)[id]
    {
      if id in dirty {
        c := dirty[id];
        dirty := dirty - {id};
      } else {
        c := pending[id];
        pending := pending - {id};
      }
    }

    method DropLevels(ids: seq<nat>)
      requires LevelsOk(clean, levels) && forall id :: id in ids ==> id !in clean
      modifies this`levels
      ensures LevelsOk(clean, levels)
    {
      for i := 0 to |ids|
        invariant LevelsOk(clean, levels)
      {
        assert ids[i] in ids;
        levels := levels - {ids[i]};
      }
    }

    /** Hands back all nodes that have to be written, children before parents. */
    method FlushDirty() returns (nodes: seq<(nat, CNode)>)
      requires Valid()
      modifies this
      ensures Valid() && Unwritten() == map[] && clean == old(clean) && lru == old(lru)
      ensures EachOnce(nodes, old(Unwritten())) && ChildrenFirst(nodes)
    {
      hide CacheOk, Lists, Both, EachOnce, LevelsOk, ChildrenFirst;
      Sides(clean, lru, dirty, pending, levels);
      CleanPart(clean, lru, dirty, pending, levels);
      var ids := ListKeys(dirty);
      var more := ListKeys(pending);
      JoinedOnce(ids, more);
      ids := ids + more;
      nodes := TakeAll(ids);
      NoneLeft(pending, dirty);
      DropLevels(ids);
      CleanOnly(clean, lru, levels);
      SortKeepsOnce(nodes, old(Unwritten()));
      nodes := StableSort.Sort(nodes, ByLevel);
    }

    /** Looks at one clean node: it goes, gets a second chance, or is protected. */
    method ScanOne(id: nat) returns (gone: bool)
      requires Valid() && id in clean
      modifies this`clean, this`lru, this`levels
      ensures Valid() && gone == Stale(old(clean), id)
      ensures clean == if gone then old(clean) - {id} else old(clean)[id := Spared(old(clean)[id])]
      ensures lru == if gone then Dropped(old(lru), id) else old(lru)
      ensures |clean| == if gone then |old(clean)| - 1 else |old(clean)|
    {
      hide CacheOk, Lists, LevelsOk, Without, Dropped;
      var n := clean[id];
      SameSize(clean, id, Spared(n));
      if Protected(n) {
        assert clean[id := n] == clean;
        return false;
      }
      if n.accessed {
        TouchOk(clean, lru, dirty, pending, levels, id, n.(accessed := false));
        clean := clean[id := n.(accessed := false)];
        return false;
      }
      RemoveOne(clean, id);
      OnOneSide(clean, lru, dirty, pending, levels, id);
      Unlist(id);
      LevelGone(clean, lru, dirty, pending, levels, id);
      levels := levels - {id};
      gone := true;
    }

    /** Scans the least recently used nodes, as many as asked for but so that 64 stay: a node
        used since the last scan gets a second chance, an unprotected other one goes. */
    method Shrink(target: nat) returns (freed: nat)
      requires Valid()
      modifies this
      ensures Valid() && Unwritten() == old(Unwritten())
      ensures var spare := if |old(clean)| > 64 then |old(clean)| - 64 else 0;
              var n := if target < spare then target else spare;
              n <= |old(lru)| && Swept(old(clean), old(lru), n, clean, lru)
      ensures freed == |old(clean).Keys - clean.Keys|
      ensures freed + |clean| == |old(clean)| && freed <= target
      ensures |clean| >= MIN_KEEP || clean == old(clean)
    {
      hide CacheOk, Lists, ScanTo, LevelsOk, Both, Swept;
      ghost var s := Clean();
      Sides(clean, lru, dirty, pending, levels);
      ListCount(lru, clean);
      var maxEvict := if |clean| > MIN_KEEP then |clean| - MIN_KEEP else 0;
      var goal := if target < maxEvict then target else maxEvict;
      ScannedIs(s, goal);
      if goal == 0 {
        ScanStart(s);
        return 0;
      }
      var scanLimit := goal + 64;
      freed := ScanFront(lru[..if scanLimit < |lru| then scanLimit else |lru|], goal);
      FewerKeys(clean.Keys, s.clean.Keys);
    }

    /** Scans nodes from the front of the queue until the goal is reached. */
    method ScanFront(ids: seq<nat>, goal: nat) returns (freed: nat)
      requires Valid() && goal <= |ids| <= |lru| && forall i :: 0 <= i < |ids| ==> ids[i] == lru[i]
      modifies this`clean, this`lru, this`levels
      ensures Valid() && (clean, lru) == ScanTo(old(Clean()), goal)
      ensures freed + |clean| == |old(clean)| && freed <= goal
    {
      hide CacheOk, Lists, ScanTo, Both, Apart, LevelsOk;
      ghost var s := Clean();
      Sides(clean, lru, dirty, pending, levels);
      ScanStart(s);
      freed := 0;
      var scanned := 0;
      while scanned < |ids|
        invariant freed <= scanned <= goal && freed + |clean| == |s.clean|
        invariant Valid() && (clean, lru) == ScanTo(s, scanned)
      {
        if scanned >= goal { break; }
        var id := ids[scanned];
        var gone := ScanAt(id, s, scanned);
        scanned := scanned + 1;
        if gone { freed := freed + 1; }
      }
    }

    method ScanAt(id: nat, ghost s: Shelf, ghost i: nat) returns (gone: bool)
      requires Valid() && Lists(s.lru, s.clean) && i < |s.lru| && id == s.lru[i] && (clean, lru) == ScanTo(s, i)
      modifies this`clean, this`lru, this`levels
      ensures Valid() && (clean, lru) == ScanTo(s, i + 1)
      ensures |clean| == if gone then |old(clean)| - 1 else |old(clean)|
    {
      hide CacheOk, Lists, ScanTo, LevelsOk, Dropped, Stale, Spared;
      ScanOn(s, i);
      gone := ScanOne(id);
    }
  }

  lemma ListCount(lru: seq<nat>, clean: Cached)
    requires Lists(lru, clean)
    ensures |lru| == |clean|
    decreases |lru|
  {
    if lru == [] {
      if clean != map[] { QueueFull(lru, clean); EmptyCount(clean); }
    } else {
      WithoutLists(lru, clean, 0);
      ListCount(Without(lru, 0), clean - {lru[0]});
    }
  }

  lemma EmptyCount(m: Cached)
    ensures |m| == 0 ==> m == map[]
  {
    if |m| == 0 { assert |m.Keys| == 0 && m.Keys == {}; }
  }

  /** Nodes and queue after the first i queued nodes were scanned. */
  function ScanTo(s: Shelf, i: nat): (Cached, seq<nat>)
    requires i <= |s.lru|
  {
    (Scanned(s.clean, s.lru[..i]), Unstale(s.lru, s.clean, s.lru[..i]))
  }

  lemma ScanStart(s: Shelf)
    ensures ScanTo(s, 0) == (s.clean, s.lru)
  {
    UnstaleNone(s.lru, s.clean);
    assert s.lru[..0] == [] && Scanned(s.clean, []) == s.clean;
  }

  lemma ScanOn(s: Shelf, i: nat)
    requires Lists(s.lru, s.clean) && i < |s.lru|
    ensures var id, c := s.lru[i], ScanTo(s, i).0;
            && id in c && Stale(c, id) == Stale(s.clean, id)
            && ScanTo(s, i + 1) ==
               if Stale(c, id) then (c - {id}, Dropped(ScanTo(s, i).1, id))
               else (c[id := Spared(c[id])], ScanTo(s, i).1)
  {
    hide Scanned, Unstale, Dropped;
    ScanNext(s.clean, s.lru, i);
    assert s.lru[..i + 1] == s.lru[..i] + [s.lru[i]];
    ScanStep(s.clean, s.lru, s.lru[..i], s.lru[i]);
  }

  /** A scan drops nothing that was used since the last scan, pinned, or about to be made
      reachable, and nothing it did not look at. */
  lemma ScanKeeps(s: Shelf, i: nat, id: nat)
    requires i <= |s.lru| && id in s.clean
    ensures id !in ScanTo(s, i).0 <==>
              id in s.lru[..i] && !s.clean[id].accessed && s.clean[id].pins == 0 && !s.clean[id].willMakeReachable
  {}

  /** Of the first n queued nodes those not used since the last scan are gone, unless pinned
      or about to be made reachable, and the unprotected others have lost their accessed mark;
      no other node has changed, and those kept stand in their order. */
  ghost predicate Swept(clean: Cached, lru: seq<nat>, n: nat, clean': Cached, lru': seq<nat>)
    requires n <= |lru|
  {
    && (forall id :: id in clean ==>
          (id !in clean' <==>
             && id in lru[..n] && !clean[id].accessed && clean[id].pins == 0 && !clean[id].willMakeReachable))
    && (forall id :: id in clean' ==>
          && id in clean
          && clean'[id] == if id in lru[..n] && clean[id].pins == 0 && !clean[id].willMakeReachable
                           then clean[id].(accessed := false)
                           else clean[id])
    && lru' == Kept(lru, clean'.Keys)
  }

  /** A scan does that. */
  lemma ScannedIs(s: Shelf, n: nat)
    requires Lists(s.lru, s.clean) && n <= |s.lru|
    ensures Swept(s.clean, s.lru, n, ScanTo(s, n).0, ScanTo(s, n).1) && ScanTo(s, n).0.Keys <= s.clean.Keys
  {
    UnstaleKept(s.lru, s.clean, s.lru[..n]);
  }

  lemma {:induction false} UnstaleKept(lru: seq<nat>, clean: Cached, ids: seq<nat>)
    requires forall id :: id in lru ==> id in clean
    ensures Unstale(lru, clean, ids) == Kept(lru, Scanned(clean, ids).Keys)
  {
    if lru != [] { UnstaleKept(lru[1..], clean, ids); }
  }

  lemma FewerKeys(a: set<nat>, b: set<nat>)
    requires a <= b
    ensures |b - a| == |b| - |a|
  {}

  lemma {:induction false} UnstaleNone(lru: seq<nat>, clean: Cached)
    ensures Unstale(lru, clean, []) == lru
  {
    if lru != [] { UnstaleNone(lru[1..], clean); }
  }

  /** The next id to scan is a clean node not scanned before. */
  lemma ScanNext(clean: Cached, lru: seq<nat>, i: nat)
    requires Lists(lru, clean) && i < |lru|
    ensures lru[i] in clean && lru[i] !in lru[..i]
  {
    assert lru[i] in lru;
  }

  lemma ScanStep(clean: Cached, lru: seq<nat>, ids: seq<nat>, id: nat)
    requires Lists(lru, clean) && id in clean && id !in ids
    ensures id in Scanned(clean, ids) && Scanned(clean, ids)[id] == clean[id]
    ensures Stale(Scanned(clean, ids), id) == Stale(clean, id)
    ensures Stale(clean, id) ==>
              && Scanned(clean, ids + [id]) == Scanned(clean, ids) - {id}
              && Unstale(lru, clean, ids + [id]) == Dropped(Unstale(lru, clean, ids), id)
    ensures !Stale(clean, id) ==>
              && Scanned(clean, ids + [id]) == Scanned(clean, ids)[id := Spared(clean[id])]
              && Unstale(lru, clean, ids + [id]) == Unstale(lru, clean, ids)
    ensures Protected(clean[id]) ==> Scanned(clean, ids)[id := Spared(clean[id])] == Scanned(clean, ids)
  {
    hide Scanned, Unstale, Dropped;
    ScannedStep(clean, ids, id);
    UnstaleStep(lru, clean, ids, id);
  }

  lemma ScannedStep(clean: Cached, ids: seq<nat>, id: nat)
    requires id in clean && id !in ids
    ensures id in Scanned(clean, ids) && Scanned(clean, ids)[id] == clean[id]
    ensures Stale(Scanned(clean, ids), id) == Stale(clean, id)
    ensures Scanned(clean, ids + [id]) ==
            if Stale(clean, id) then Scanned(clean, ids) - {id} else Scanned(clean, ids)[id := Spared(clean[id])]
    ensures Protected(clean[id]) ==> Scanned(clean, ids)[id := Spared(clean[id])] == Scanned(clean, ids)
  {
    var more := ids + [id];
    assert forall x :: x in more <==> x in ids || x == id;
  }

  lemma {:induction false} UnstaleStep(lru: seq<nat>, clean: Cached, ids: seq<nat>, id: nat)
    requires NoRepeats(lru) && id !in ids
    ensures Unstale(lru, clean, ids + [id]) ==
            if Stale(clean, id) then Dropped(Unstale(lru, clean, ids), id) else Unstale(lru, clean, ids)
  {
    if lru != [] {
      UnstaleStep(lru[1..], clean, ids, id);
      var u := Unstale(lru[1..], clean, ids);
      assert ([lru[0]] + u)[1..] == u;
      assert lru[0] in ids + [id] <==> lru[0] in ids || lru[0] == id;
      if lru[0] == id && Stale(clean, id) {
        UnstaleAbsent(lru[1..], clean, ids, id);
      }
    }
  }

  lemma {:induction false} UnstaleAbsent(lru: seq<nat>, clean: Cached, ids: seq<nat>, id: nat)
    requires id !in lru
    ensures Unstale(lru, clean, ids + [id]) == Unstale(lru, clean, ids)
  {
    if lru != [] {
      assert lru[0] in lru;
      UnstaleAbsent(lru[1..], clean, ids, id);
    }
  }

  function Promoted(lru: seq<nat>, id: nat): seq<nat> {
    if lru == [] then []
    else if lru[0] == id then lru[1..] + [id]
    else [lru[0]] + Promoted(lru[1..], id)
  }

  lemma {:induction false} PromotedAt(lru: seq<nat>, id: nat, p: nat)
    requires p < |lru| && lru[p] == id && id !in lru[..p]
    ensures Promoted(lru, id) == Without(lru, p) + [id]
  {
    if p == 0 {
    } else {
      assert lru[0] == lru[..p][0];
      assert lru[1..][..p - 1] == lru[..p][1..];
      PromotedAt(lru[1..], id, p - 1);
    }
  }

  lemma {:induction false} PromotedAbsent(lru: seq<nat>, id: nat)
    requires id !in lru
    ensures Promoted(lru, id) == lru
  {
    if lru != [] {
      assert lru[0] in lru;
      PromotedAbsent(lru[1..], id);
    }
  }

  function Added(s: Shelf, id: nat, n: CNode): Shelf {
    Shelf(s.clean[id := n], s.lru + [id], s.levels[id := n.level])
  }

  lemma AddedOk(s: Shelf, dirty: Cached, pending: Cached, id: nat, n: CNode)
    requires CacheOk(s.clean, s.lru, dirty, pending, s.levels) && |s.clean| < MAX_CLEAN
    requires id !in s.clean && id !in dirty && id !in pending
    ensures var t := Added(s, id, n); CacheOk(t.clean, t.lru, dirty, pending, t.levels)
  {
    AppendLists(s.lru, s.clean, id, n);
  }

  /** Who is where. */
  lemma Sides(clean: Cached, lru: seq<nat>, dirty: Cached, pending: Cached, levels: map<nat, nat>)
    requires CacheOk(clean, lru, dirty, pending, levels)
    ensures Apart(clean, dirty) && Apart(clean, pending) && Apart(dirty, pending)
    ensures Lists(lru, clean)
  {}

  lemma RoomyFewer(s: Shelf, id: nat)
    requires |s.clean| >= MAX_CLEAN ==> s.lru != []
    ensures id !in s.clean ==> id !in Roomy(s).clean
  {}

  lemma OnOneSide(clean: Cached, lru: seq<nat>, dirty: Cached, pending: Cached, levels: map<nat, nat>, id: nat)
    requires CacheOk(clean, lru, dirty, pending, levels)
    ensures id in clean ==> id !in dirty && id !in pending
    ensures id in dirty ==> id !in pending
  {}

  /** A node changes but for its level: everything stays in place. */
  lemma TouchOk(clean: Cached, lru: seq<nat>, dirty: Cached, pending: Cached, levels: map<nat, nat>, id: nat, n: CNode)
    requires CacheOk(clean, lru, dirty, pending, levels)
    ensures id in clean && n.level == clean[id].level ==> CacheOk(clean[id := n], lru, dirty, pending, levels)
    ensures id in dirty && n.level == dirty[id].level ==> CacheOk(clean, lru, dirty[id := n], pending, levels)
    ensures id in pending && n.level == pending[id].level ==> CacheOk(clean, lru, dirty, pending[id := n], levels)
  {
    SameSize(clean, id, n);
    SameSize(dirty, id, n);
  }

  lemma SameSize(m: Cached, id: nat, n: CNode)
    ensures id in m ==> m[id := n].Keys == m.Keys && |m[id := n]| == |m|
  {
    if id in m {
      assert m[id := n].Keys == m.Keys;
      assert |m[id := n]| == |m[id := n].Keys| && |m| == |m.Keys|;
    }
  }

  lemma PromotedOk(clean: Cached, lru: seq<nat>, dirty: Cached, pending: Cached, levels: map<nat, nat>, id: nat)
    requires CacheOk(clean, lru, dirty, pending, levels) && id in clean
    ensures CacheOk(clean, Promoted(lru, id), dirty, pending, levels)
  {
    hide Without;
    var p := FirstOf(lru, id);
    PromotedAt(lru, id, p);
    WithoutLists(lru, clean, p);
    AppendLists(Without(lru, p), clean - {id}, id, clean[id]);
    assert (clean - {id})[id := clean[id]] == clean;
  }

  lemma {:induction false} FirstOf(s: seq<nat>, id: nat) returns (p: nat)
    requires id in s
    ensures p < |s| && s[p] == id && id !in s[..p]
  {
    if s[0] == id {
      p := 0;
    } else {
      p := FirstOf(s[1..], id);
      p := p + 1;
      assert s[..p] == [s[0]] + s[1..][..p - 1];
    }
  }

  /** Promoting an id and appending it again queues it twice. */
  lemma TwiceQueued(lru: seq<nat>, id: nat)
    requires id in lru
    ensures !NoRepeats(Promoted(lru, id) + [id])
  {
    var p := FirstOf(lru, id);
    PromotedAt(lru, id, p);
    var q := Promoted(lru, id) + [id];
    assert q[|q| - 1] == q[|q| - 2] == id;
  }

  lemma NotDistinct(clean: Cached, lru: seq<nat>, dirty: Cached, pending: Cached, levels: map<nat, nat>)
    requires !NoRepeats(lru)
    ensures !CacheOk(clean, lru, dirty, pending, levels)
  {}

  lemma NotApart(clean: Cached, lru: seq<nat>, dirty: Cached, pending: Cached, levels: map<nat, nat>, id: nat)
    requires (id in clean && id in pending) || (id in dirty && id in pending)
    ensures !CacheOk(clean, lru, dirty, pending, levels)
  {}

  lemma ListedIsClean(clean: Cached, lru: seq<nat>, dirty: Cached, pending: Cached, levels: map<nat, nat>, p: nat)
    requires CacheOk(clean, lru, dirty, pending, levels) && p < |lru|
    ensures lru[p] in clean
  {
    assert lru[p] in lru;
  }

  lemma FirstIsChoice(clean: Cached, lru: seq<nat>, levels: map<nat, nat>, p: nat)
    requires p < |lru| && Victim(clean, levels, lru[p]) && forall i :: 0 <= i < p ==> !Victim(clean, levels, lru[i])
    ensures p == Choice(clean, lru, levels)
  {}

  lemma NoVictim(clean: Cached, lru: seq<nat>, levels: map<nat, nat>)
    requires lru != [] && !exists i :: 0 <= i < |lru| && Victim(clean, levels, lru[i])
    ensures Choice(clean, lru, levels) == 0 && Without(lru, 0) == lru[1..]
  {}

  lemma QueueFull(lru: seq<nat>, clean: Cached)
    requires Lists(lru, clean)
    ensures |clean| > 0 ==> lru != []
  {
    if |clean| > 0 {
      assert clean.Keys != {} by { assert |clean| == |clean.Keys|; }
      var id :| id in clean;
      assert id in lru;
    }
  }

  // ---- leaving the clean side ----

  function Unlisted(s: Shelf, id: nat): Shelf
  {
    Shelf(s.clean - {id}, Dropped(s.lru, id), s.levels)
  }

  lemma {:induction false} FirstIs(lru: seq<nat>, id: nat, p: nat)
    requires p < |lru| && lru[p] == id && id !in lru[..p]
    ensures Dropped(lru, id) == Without(lru, p)
  {
    if p > 0 {
      assert lru[0] == lru[..p][0];
      assert lru[1..][..p - 1] == lru[..p][1..];
      FirstIs(lru[1..], id, p - 1);
    }
  }

  lemma UnlistedOk(s: Shelf, dirty: Cached, pending: Cached, id: nat)
    requires CacheOk(s.clean, s.lru, dirty, pending, s.levels) && id in s.clean
    ensures var t := Unlisted(s, id); CacheOk(t.clean, t.lru, dirty, pending, t.levels)
    ensures id in s.lru
  {
    hide Without, LevelsOk;
    var p := FirstOf(s.lru, id);
    FirstIs(s.lru, id, p);
    FewerLevels(s.clean, s.levels, id);
    WithoutLists(s.lru, s.clean, p);
  }

  lemma FewerLevels(nodes: Cached, levels: map<nat, nat>, id: nat)
    requires LevelsOk(nodes, levels)
    ensures LevelsOk(nodes - {id}, levels)
  {}

  lemma UnlistedGone(s: Shelf, id: nat)
    ensures var t := Unlisted(s, id); t.clean == s.clean - {id} && t.levels == s.levels
  {}

  /** Draining the dirty nodes resolves any overlap with the drained ones. */
  lemma FlushedOk(clean: Cached, lru: seq<nat>, dirty: Cached, pending: Cached, levels: map<nat, nat>)
    requires Lists(lru, clean) && Apart(clean, dirty) && Apart(clean, pending) && |clean| <= MAX_CLEAN
    requires LevelsOk(clean, levels) && LevelsOk(dirty, levels) && LevelsOk(pending - dirty.Keys, levels)
    ensures CacheOk(clean, lru, map[], pending + dirty, levels)
    ensures |dirty| < MAX_DIRTY ==> (CacheOk(clean, lru, dirty, pending, levels) <==> Apart(dirty, pending))
  {
    hide Lists, LevelsOk, Apart;
    DrainedLevels(dirty, pending, levels);
    DrainedApart(clean, dirty, pending);
  }

  lemma DrainedApart(clean: Cached, dirty: Cached, pending: Cached)
    requires Apart(clean, dirty) && Apart(clean, pending)
    ensures Apart(clean, pending + dirty) && Apart(clean, map[]) && Apart(map[], pending + dirty)
    ensures Apart(dirty, pending) ==> pending - dirty.Keys == pending
  {
    if Apart(dirty, pending) { assert (pending - dirty.Keys).Keys == pending.Keys; }
  }

  lemma DrainedLevels(dirty: Cached, pending: Cached, levels: map<nat, nat>)
    requires LevelsOk(dirty, levels) && LevelsOk(pending - dirty.Keys, levels)
    ensures LevelsOk(pending + dirty, levels) && LevelsOk(map[], levels)
  {
    forall id | id in pending + dirty ensures id in levels && levels[id] == (pending + dirty)[id].level {
      if id !in dirty { assert id in pending - dirty.Keys; }
    }
  }

  lemma RemovedDirty(clean: Cached, lru: seq<nat>, dirty: Cached, pending: Cached, levels: map<nat, nat>, id: nat)
    requires CacheOk(clean, lru, dirty, pending, levels) && id in dirty
    ensures CacheOk(clean, lru, Removed(dirty, id), pending, levels - {id})
  {
    hide Lists;
    RemoveOne(dirty, id);
  }

  lemma RemovedPending(clean: Cached, lru: seq<nat>, dirty: Cached, pending: Cached, levels: map<nat, nat>, id: nat)
    requires CacheOk(clean, lru, dirty, pending, levels) && id in pending
    ensures CacheOk(clean, lru, dirty, Removed(pending, id), levels - {id})
  {
    hide Lists;
  }

  lemma LevelGone(clean: Cached, lru: seq<nat>, dirty: Cached, pending: Cached, levels: map<nat, nat>, id: nat)
    requires CacheOk(clean, lru, dirty, pending, levels) && id !in clean && id !in dirty && id !in pending
    ensures CacheOk(clean, lru, dirty, pending, levels - {id})
  {}

  lemma CleanPart(clean: Cached, lru: seq<nat>, dirty: Cached, pending: Cached, levels: map<nat, nat>)
    requires CacheOk(clean, lru, dirty, pending, levels)
    ensures LevelsOk(clean, levels) && |clean| <= MAX_CLEAN
  {}

  lemma CleanOnly(clean: Cached, lru: seq<nat>, levels: map<nat, nat>)
    requires Lists(lru, clean) && |clean| <= MAX_CLEAN && LevelsOk(clean, levels)
    ensures CacheOk(clean, lru, map[], map[], levels)
  {}

  lemma NewDirty(clean: Cached, dirty: Cached, pending: Cached, levels: map<nat, nat>, id: nat, n: CNode)
    requires id !in dirty && id !in clean
    requires LevelsOk(clean, levels) && LevelsOk(dirty, levels) && LevelsOk(pending, levels)
    ensures LevelsOk(clean, levels[id := n.level]) && LevelsOk(dirty[id := n], levels[id := n.level])
    ensures LevelsOk(pending - dirty[id := n].Keys, levels[id := n.level])
    ensures |dirty[id := n]| == |dirty| + 1
  {
    assert dirty[id := n].Keys == dirty.Keys + {id};
    assert |dirty[id := n]| == |dirty[id := n].Keys| && |dirty| == |dirty.Keys|;
  }

  // ---- flushing ----

  function ByLevel(x: (nat, CNode)): int { x.1.level }

  /** Levels do not fall: no node comes before one of a lower level, such as its children. */
  ghost predicate ChildrenFirst(nodes: seq<(nat, CNode)>) {
    forall i, j :: 0 <= i < j < |nodes| ==> nodes[i].1.level <= nodes[j].1.level
  }

  /** The list holds every entry of the map, each once. */
  ghost predicate EachOnce(nodes: seq<(nat, CNode)>, m: Cached) {
    && (forall i, j :: 0 <= i < j < |nodes| ==> nodes[i].0 != nodes[j].0)
    && (forall i :: 0 <= i < |nodes| ==> nodes[i].0 in m && m[nodes[i].0] == nodes[i].1)
    && (forall id :: id in m ==> exists i :: 0 <= i < |nodes| && nodes[i].0 == id)
  }

  lemma AllTaken(ids: seq<nat>, nodes: seq<(nat, CNode)>, m: Cached)
    requires |nodes| == |ids| && NoRepeats(ids)
    requires forall j :: 0 <= j < |ids| ==> nodes[j].0 == ids[j] && ids[j] in m && m[ids[j]] == nodes[j].1
    requires forall id :: id in m ==> id in ids
    ensures EachOnce(nodes, m)
  {
    forall id | id in m ensures exists i :: 0 <= i < |nodes| && nodes[i].0 == id {
      var i :| 0 <= i < |ids| && ids[i] == id;
      assert nodes[i].0 == id;
    }
  }

  lemma JoinedOnce(a: seq<nat>, b: seq<nat>)
    requires NoRepeats(a) && NoRepeats(b) && forall x :: x in a ==> x !in b
    ensures NoRepeats(a + b)
  {
    forall i, j | 0 <= i < j < |a + b| ensures (a + b)[i] != (a + b)[j] {
      if i < |a| <= j { assert a[i] in a && b[j - |a|] in b; }
    }
  }

  lemma NoneLeft(pending: Cached, dirty: Cached)
    ensures pending == map[] && dirty == map[] ==> Both(pending, dirty) == map[]
  {}

  /** Sorting by level keeps each entry once. */
  lemma SortKeepsOnce(nodes: seq<(nat, CNode)>, m: Cached)
    requires EachOnce(nodes, m)
    ensures EachOnce(StableSort.Sort(nodes, ByLevel), m) && ChildrenFirst(StableSort.Sort(nodes, ByLevel))
  {
    var s := StableSort.Sort(nodes, ByLevel);
    StableSort.SortIsStable(nodes, ByLevel);
    StableSort.SortMembers(nodes, ByLevel);
    forall i, j | 0 <= i < j < |s| ensures s[i].1.level <= s[j].1.level { assert ByLevel(s[i]) <= ByLevel(s[j]); }
    forall i | 0 <= i < |s| ensures s[i].0 in m && m[s[i].0] == s[i].1 { assert s[i] in s && s[i] in nodes; }
    forall id | id in m ensures exists i :: 0 <= i < |s| && s[i].0 == id {
      var i :| 0 <= i < |nodes| && nodes[i].0 == id;
      assert nodes[i] in nodes && nodes[i] in s;
    }
    forall i, j | 0 <= i < j < |s| ensures s[i].0 != s[j].0 {
      if s[i].0 == s[j].0 {
        assert s[i] == s[j];
        TwiceCounts(s, i, j);
        OnceCounts(nodes, s[i]);
      }
    }
  }

  lemma TwiceCounts(s: seq<(nat, CNode)>, i: nat, j: nat)
    requires i < j < |s| && s[i] == s[j]
    ensures multiset(s)[s[i]] >= 2
  {
    assert s == s[..j] + s[j..];
    assert s[..j][i] in s[..j] && s[j..][0] in s[j..];
  }

  lemma {:induction false} OnceCounts(s: seq<(nat, CNode)>, x: (nat, CNode))
    requires forall i, j :: 0 <= i < j < |s| ==> s[i].0 != s[j].0
    ensures multiset(s)[x] <= 1
  {
    if s != [] {
      var init := s[..|s| - 1];
      OnceCounts(init, x);
      assert s == init + [s[|s| - 1]];
      forall i | 0 <= i < |init| ensures init[i] != s[|s| - 1] { assert s[i].0 != s[|s| - 1].0; }
      assert s[|s| - 1] !in init;
    }
  }

  /** The keys of a map, in some order. */
  method ListKeys(m: Cached) returns (ids: seq<nat>)
    ensures NoRepeats(ids) && forall id :: id in ids <==> id in m
  {
    ids := [];
    var todo := m.Keys;
    while todo != {}
      invariant NoRepeats(ids) && todo <= m.Keys && forall id :: id in ids <==> id in m && id !in todo
      decreases |todo|
    {
      var id :| id in todo;
      todo := todo - {id};
      ids := ids + [id];
    }
  }
}
