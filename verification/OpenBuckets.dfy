/** The pool of open buckets: a fixed array of entries threaded by an intrusive freelist
    and by intrusive hash chains. */
module OpenBuckets {
  import opened Wrappers
  import opened Sequences

  /** Entries 1..128; index 0 is the null link. */
  const OPEN_BUCKETS_COUNT: nat := 128

  datatype Entry = Entry(valid: bool, pin: nat, group: nat, bucket: nat, sectorsFree: nat,
                         freelist: nat, hash: nat, onPartial: bool, gen: nat)

  const EMPTY_ENTRY := Entry(false, 0, 0, 0, 0, 0, 0, false, 0)

  /** What a valid entry says, without its links. */
  datatype OpenBucket = OpenBucket(pin: nat, group: nat, bucket: nat, sectorsFree: nat, onPartial: bool, gen: nat)

  type Slots = (nat, nat) -> nat

  function Shown(e: Entry): OpenBucket {
    OpenBucket(e.pin, e.group, e.bucket, e.sectorsFree, e.onPartial, e.gen)
  }

  /** The open buckets by entry index. */
  function Opens(es: seq<Entry>): map<nat, OpenBucket> {
    map x: nat | 1 <= x < |es| && es[x].valid :: Shown(es[x])
  }

  // ---- links ----

  function First(s: seq<nat>): nat { if s == [] then 0 else s[0] }

  function Next(s: seq<nat>, i: nat): nat { if i + 1 < |s| then s[i + 1] else 0 }

  ghost predicate FreeAt(es: seq<Entry>, free: seq<nat>, i: nat)
    requires i < |free|
  {
    1 <= free[i] < |es| && !es[free[i]].valid && es[free[i]].freelist == Next(free, i)
  }

  /** The freelist from head visits exactly the invalid entries, each once. */
  ghost predicate FreeOk(es: seq<Entry>, head: nat, free: seq<nat>) {
    && head == First(free) && NoRepeats(free)
    && (forall i {:trigger FreeAt(es, free, i)} :: 0 <= i < |free| ==> FreeAt(es, free, i))
    && (forall x :: 1 <= x < |es| && !es[x].valid ==> x in free)
  }

  ghost predicate InSlot(es: seq<Entry>, slotOf: Slots, x: nat, s: nat) {
    1 <= x < |es| && es[x].valid && slotOf(es[x].group, es[x].bucket) == s
  }

  ghost predicate LinkAt(es: seq<Entry>, slotOf: Slots, s: nat, chain: seq<nat>, i: nat)
    requires i < |chain|
  {
    InSlot(es, slotOf, chain[i], s) && es[chain[i]].hash == Next(chain, i)
  }

  /** The hash chain of a slot visits exactly the valid entries of that slot, each once. */
  ghost predicate ChainOk(es: seq<Entry>, slotOf: Slots, s: nat, head: nat, chain: seq<nat>) {
    && head == First(chain) && NoRepeats(chain)
    && (forall i {:trigger LinkAt(es, slotOf, s, chain, i)} :: 0 <= i < |chain| ==> LinkAt(es, slotOf, s, chain, i))
    && (forall x {:trigger InSlot(es, slotOf, x, s)} :: InSlot(es, slotOf, x, s) ==> x in chain)
  }

  /** An entry that is not open holds no pin and is on no list. */
  ghost predicate IdleOk(es: seq<Entry>) {
    forall x :: 1 <= x < |es| && !es[x].valid ==> es[x].pin == 0 && !es[x].onPartial
  }

  /** The pool but for its freelist. */
  ghost predicate LinksOk(es: seq<Entry>, slots: seq<nat>, slotOf: Slots, chains: seq<seq<nat>>) {
    && |es| == OPEN_BUCKETS_COUNT + 1 && |slots| == |chains| == OPEN_BUCKETS_COUNT
    && (forall g, b :: slotOf(g, b) < OPEN_BUCKETS_COUNT)
    && IdleOk(es)
    && (forall s {:trigger ChainOk(es, slotOf, s, slots[s], chains[s])} ::
          0 <= s < OPEN_BUCKETS_COUNT ==> ChainOk(es, slotOf, s, slots[s], chains[s]))
  }

  ghost predicate PoolOk(es: seq<Entry>, slots: seq<nat>, head: nat, slotOf: Slots, free: seq<nat>,
                         chains: seq<seq<nat>>) {
    LinksOk(es, slots, slotOf, chains) && FreeOk(es, head, free)
  }

  /** A walk along the freelist never comes to its end. */
  ghost predicate Circular(es: seq<Entry>, head: nat) {
    exists c: set<nat> :: Circle(es, head, c)
  }

  ghost predicate Circle(es: seq<Entry>, head: nat, c: set<nat>) {
    head in c && forall x :: x in c ==> 1 <= x < |es| && es[x].freelist in c
  }

  // ---- taking and giving back an entry ----

  /** The entry at the head of the freelist is opened and put in front of its chain. */
  lemma AllocKeepsPool(es: seq<Entry>, slots: seq<nat>, head: nat, slotOf: Slots, free: seq<nat>, chains: seq<seq<nat>>,
                       e: Entry, s: nat)
    requires PoolOk(es, slots, head, slotOf, free, chains) && head != 0
    requires e.valid && s == slotOf(e.group, e.bucket) && e.hash == slots[s]
    ensures 1 <= head < |es| && !es[head].valid && free != []
    ensures PoolOk(es[head := e], slots[s := head], es[head].freelist, slotOf, free[1..],
                   chains[s := [head] + chains[s]])
    ensures Opens(es[head := e]) == Opens(es)[head := Shown(e)]
  {
    assert s < |slots| && s < |chains|;
    assert free != [] && free[0] == head && FreeAt(es, free, 0);
    var es', slots' := es[head := e], slots[s := head];
    AllocFree(es, head, free, e);
    var chains' := chains[s := [head] + chains[s]];
    forall t | 0 <= t < OPEN_BUCKETS_COUNT ensures ChainOk(es', slotOf, t, slots'[t], chains'[t]) {
      assert ChainOk(es, slotOf, t, slots[t], chains[t]);
      OpenedChain(es, slotOf, t, slots[t], chains[t], head, e);
    }
  }

  lemma AllocFree(es: seq<Entry>, head: nat, free: seq<nat>, e: Entry)
    requires FreeOk(es, head, free) && IdleOk(es) && free != [] && FreeAt(es, free, 0) && e.valid
    ensures FreeOk(es[head := e], es[head].freelist, free[1..]) && IdleOk(es[head := e])
  {
    var es', free' := es[head := e], free[1..];
    forall i | 0 <= i < |free'| ensures FreeAt(es', free', i) { assert FreeAt(es, free, i + 1); }
    forall x | 1 <= x < |es'| && !es'[x].valid ensures x in free' {
      assert x in free;
      var i :| 0 <= i < |free| && free[i] == x;
      assert free'[i - 1] == x;
    }
  }

  /** Opening an entry puts it in front of its own chain and leaves the others alone. */
  lemma OpenedChain(es: seq<Entry>, slotOf: Slots, t: nat, first: nat, chain: seq<nat>, idx: nat, e: Entry)
    requires ChainOk(es, slotOf, t, first, chain) && 1 <= idx < |es| && !es[idx].valid && e.valid
    requires slotOf(e.group, e.bucket) == t ==> e.hash == first
    ensures if slotOf(e.group, e.bucket) == t then ChainOk(es[idx := e], slotOf, t, idx, [idx] + chain)
            else ChainOk(es[idx := e], slotOf, t, first, chain)
  {
    var es' := es[idx := e];
    var own := slotOf(e.group, e.bucket) == t;
    var c := if own then [idx] + chain else chain;
    forall i | 0 <= i < |c| ensures LinkAt(es', slotOf, t, c, i) {
      var j := if own then i - 1 else i;
      if j >= 0 { assert LinkAt(es, slotOf, t, chain, j); }
    }
    forall i | 0 <= i < |chain| ensures chain[i] != idx { assert LinkAt(es, slotOf, t, chain, i); }
    forall x | InSlot(es', slotOf, x, t) ensures x in c {
      if x != idx { assert InSlot(es, slotOf, x, t) && x in chain; }
    }
  }

  /** Unlinking position p of a chain: the entry before it takes over its link. */
  lemma UnlinkChain(es: seq<Entry>, slotOf: Slots, s: nat, head: nat, chain: seq<nat>, p: nat, es': seq<Entry>)
    requires ChainOk(es, slotOf, s, head, chain) && p < |chain| && |es'| == |es|
    requires chain[p] < |es| && !es'[chain[p]].valid
    requires forall x :: 0 <= x < |es| && x != chain[p] ==>
               && es'[x].valid == es[x].valid && es'[x].group == es[x].group && es'[x].bucket == es[x].bucket
               && es'[x].hash == if p > 0 && x == chain[p - 1] then es[chain[p]].hash else es[x].hash
    ensures ChainOk(es', slotOf, s, if p == 0 then es[chain[0]].hash else head, Without(chain, p))
  {
    var idx, c := chain[p], Without(chain, p);
    forall i | 0 <= i < |c| ensures LinkAt(es', slotOf, s, c, i) {
      var j := if i < p then i else i + 1;
      assert c[i] == chain[j] && LinkAt(es, slotOf, s, chain, j) && LinkAt(es, slotOf, s, chain, p);
    }
    assert LinkAt(es, slotOf, s, chain, 0) && LinkAt(es, slotOf, s, chain, p);
    forall x | InSlot(es', slotOf, x, s) ensures x in c {
      assert InSlot(es, slotOf, x, s);
      var j :| 0 <= j < |chain| && chain[j] == x;
      assert x == c[if j < p then j else j - 1];
    }
  }

  /** A chain of another slot does not see the entry. */
  lemma OtherChain(es: seq<Entry>, slotOf: Slots, s: nat, head: nat, chain: seq<nat>, idx: nat, prev: nat,
                   es': seq<Entry>)
    requires ChainOk(es, slotOf, s, head, chain) && |es'| == |es|
    requires idx < |es| && !InSlot(es, slotOf, idx, s) && !es'[idx].valid
    requires forall x :: 0 <= x < |es| && x != idx ==>
               && es'[x].valid == es[x].valid && es'[x].group == es[x].group && es'[x].bucket == es[x].bucket
               && (x != prev ==> es'[x].hash == es[x].hash)
    requires prev == 0 || !InSlot(es, slotOf, prev, s)
    ensures ChainOk(es', slotOf, s, head, chain)
  {
    forall i | 0 <= i < |chain| ensures LinkAt(es', slotOf, s, chain, i) {
      assert LinkAt(es, slotOf, s, chain, i);
    }
    forall x | InSlot(es', slotOf, x, s) ensures x in chain { assert InSlot(es, slotOf, x, s); }
  }

  /** The entries after closing entry idx at position p of its chain. */
  function Closed(es: seq<Entry>, idx: nat, prev: nat, head: nat): seq<Entry>
    requires idx < |es| && prev < |es|
  {
    var linked := if prev == 0 then es else es[prev := es[prev].(hash := es[idx].hash)];
    linked[idx := linked[idx].(valid := false, pin := 0, onPartial := false, freelist := head)]
  }

  /** Unlinking an open entry at any position of its chain and pushing it on the freelist. */
  lemma PutKeepsPool(es: seq<Entry>, slots: seq<nat>, head: nat, slotOf: Slots, free: seq<nat>, chains: seq<seq<nat>>,
                     idx: nat, s: nat, p: nat)
    requires PoolOk(es, slots, head, slotOf, free, chains) && 1 <= idx < |es| && es[idx].valid
    requires s == slotOf(es[idx].group, es[idx].bucket) && p < |chains[s]| && chains[s][p] == idx
    ensures var prev := if p == 0 then 0 else chains[s][p - 1];
            && prev < |es|
            && var es' := Closed(es, idx, prev, head);
               && PoolOk(es', if p == 0 then slots[s := es[idx].hash] else slots, idx, slotOf, [idx] + free,
                         chains[s := Without(chains[s], p)])
               && Opens(es') == Opens(es) - {idx}
  {
    hide LinksOk, IdleOk, Opens;
    LinkedIdle(es, slots, slotOf, chains);
    PutKeepsLinks(es, slots, head, slotOf, chains, idx, s, p);
    ClosedFree(es, head, free, idx, if p == 0 then 0 else chains[s][p - 1]);
  }

  lemma LinkedIdle(es: seq<Entry>, slots: seq<nat>, slotOf: Slots, chains: seq<seq<nat>>)
    requires LinksOk(es, slots, slotOf, chains)
    ensures IdleOk(es) && |slots| == |chains| == OPEN_BUCKETS_COUNT && forall g, b :: slotOf(g, b) < OPEN_BUCKETS_COUNT
  {}

  lemma PutKeepsLinks(es: seq<Entry>, slots: seq<nat>, head: nat, slotOf: Slots, chains: seq<seq<nat>>,
                      idx: nat, s: nat, p: nat)
    requires LinksOk(es, slots, slotOf, chains) && 1 <= idx < |es| && es[idx].valid
    requires s == slotOf(es[idx].group, es[idx].bucket) && p < |chains[s]| && chains[s][p] == idx
    ensures var prev := if p == 0 then 0 else chains[s][p - 1];
            && prev < |es| && prev != idx && (prev == 0 <==> p == 0) && (prev == 0 || es[prev].valid)
            && var es' := Closed(es, idx, prev, head);
               && LinksOk(es', if p == 0 then slots[s := es[idx].hash] else slots, slotOf,
                          chains[s := Without(chains[s], p)])
               && Opens(es') == Opens(es) - {idx}
  {
    var chain := chains[s];
    assert ChainOk(es, slotOf, s, slots[s], chain);
    var prev := if p == 0 then 0 else chain[p - 1];
    assert p > 0 ==> LinkAt(es, slotOf, s, chain, p - 1) && prev != idx;
    var es' := Closed(es, idx, prev, head);
    var slots', chains' := if p == 0 then slots[s := es[idx].hash] else slots, chains[s := Without(chain, p)];
    forall t | 0 <= t < OPEN_BUCKETS_COUNT ensures ChainOk(es', slotOf, t, slots'[t], chains'[t]) {
      assert ChainOk(es, slotOf, t, slots[t], chains[t]);
      if t == s {
        UnlinkChain(es, slotOf, s, slots[s], chain, p, es');
      } else {
        OtherChain(es, slotOf, t, slots[t], chains[t], idx, prev, es');
      }
    }
    ClosedOpens(es, idx, prev, head);
  }

  /** An entry that is not open is in no chain; pushing it on the freelist changes none. */
  lemma PutIdleLinks(es: seq<Entry>, slots: seq<nat>, head: nat, slotOf: Slots, chains: seq<seq<nat>>, idx: nat)
    requires LinksOk(es, slots, slotOf, chains) && 1 <= idx < |es| && !es[idx].valid
    ensures LinksOk(Closed(es, idx, 0, head), slots, slotOf, chains)
    ensures Opens(Closed(es, idx, 0, head)) == Opens(es)
  {
    var es' := Closed(es, idx, 0, head);
    forall t | 0 <= t < OPEN_BUCKETS_COUNT ensures ChainOk(es', slotOf, t, slots[t], chains[t]) {
      assert ChainOk(es, slotOf, t, slots[t], chains[t]);
      OtherChain(es, slotOf, t, slots[t], chains[t], idx, 0, es');
    }
  }

  lemma ClosedFree(es: seq<Entry>, head: nat, free: seq<nat>, idx: nat, prev: nat)
    requires FreeOk(es, head, free) && IdleOk(es) && 1 <= idx < |es| && es[idx].valid
    requires prev < |es| && prev != idx && (prev == 0 || es[prev].valid)
    ensures FreeOk(Closed(es, idx, prev, head), idx, [idx] + free) && IdleOk(Closed(es, idx, prev, head))
  {
    var es', f := Closed(es, idx, prev, head), [idx] + free;
    forall i | 0 <= i < |f| ensures FreeAt(es', f, i) {
      if i > 0 { assert f[i] == free[i - 1] && FreeAt(es, free, i - 1); }
    }
    forall i | 0 <= i < |free| ensures free[i] != idx { assert FreeAt(es, free, i); }
    forall x | 1 <= x < |es'| && !es'[x].valid ensures x in f {
      if x != idx { assert !es[x].valid && x in free; }
    }
  }

  lemma ClosedOpens(es: seq<Entry>, idx: nat, prev: nat, head: nat)
    requires 1 <= idx < |es| && prev < |es| && prev != idx
    ensures Opens(Closed(es, idx, prev, head)) == Opens(es) - {idx}
  {}

  /** Changing what an open entry says about pins, space and lists keeps every link. */
  lemma TouchKeepsLinks(es: seq<Entry>, slots: seq<nat>, slotOf: Slots, chains: seq<seq<nat>>, idx: nat, e: Entry)
    requires LinksOk(es, slots, slotOf, chains) && 1 <= idx < |es| && es[idx].valid
    requires e == es[idx].(pin := e.pin, sectorsFree := e.sectorsFree, onPartial := e.onPartial)
    ensures LinksOk(es[idx := e], slots, slotOf, chains)
    ensures Opens(es[idx := e]) == Opens(es)[idx := Shown(e)]
  {
    var es' := es[idx := e];
    forall s | 0 <= s < OPEN_BUCKETS_COUNT ensures ChainOk(es', slotOf, s, slots[s], chains[s]) {
      assert ChainOk(es, slotOf, s, slots[s], chains[s]);
      TouchedChain(es, slotOf, s, slots[s], chains[s], idx, e);
    }
  }

  lemma TouchKeepsFree(es: seq<Entry>, head: nat, idx: nat, e: Entry)
    requires 1 <= idx < |es| && es[idx].valid
    requires e == es[idx].(pin := e.pin, sectorsFree := e.sectorsFree, onPartial := e.onPartial)
    ensures forall free: seq<nat> :: FreeOk(es, head, free) ==> FreeOk(es[idx := e], head, free)
    ensures Circular(es, head) ==> Circular(es[idx := e], head)
  {
    var es' := es[idx := e];
    forall free: seq<nat> | FreeOk(es, head, free) ensures FreeOk(es', head, free) {
      forall i | 0 <= i < |free| ensures FreeAt(es', free, i) { assert FreeAt(es, free, i); }
    }
    if Circular(es, head) {
      var c: set<nat> :| Circle(es, head, c);
      assert Circle(es', head, c);
    }
  }

  lemma TouchedChain(es: seq<Entry>, slotOf: Slots, s: nat, first: nat, chain: seq<nat>, idx: nat, e: Entry)
    requires ChainOk(es, slotOf, s, first, chain) && 1 <= idx < |es| && es[idx].valid
    requires e == es[idx].(pin := e.pin, sectorsFree := e.sectorsFree, onPartial := e.onPartial)
    ensures ChainOk(es[idx := e], slotOf, s, first, chain)
  {
    var es' := es[idx := e];
    forall i | 0 <= i < |chain| ensures LinkAt(es', slotOf, s, chain, i) { assert LinkAt(es, slotOf, s, chain, i); }
    forall x | InSlot(es', slotOf, x, s) ensures x in chain { assert InSlot(es, slotOf, x, s); }
  }

  lemma FreeMembers(es: seq<Entry>, head: nat, free: seq<nat>, x: nat)
    requires FreeOk(es, head, free)
    ensures x in free <==> 1 <= x < |es| && !es[x].valid
  {
    if x in free {
      var i :| 0 <= i < |free| && free[i] == x;
      assert FreeAt(es, free, i);
    }
  }

  /** The freelist holds as many entries as are not open. */
  lemma FreeCounts(es: seq<Entry>, head: nat, free: seq<nat>)
    requires FreeOk(es, head, free) && |es| == OPEN_BUCKETS_COUNT + 1
    ensures |free| + |Opens(es)| == OPEN_BUCKETS_COUNT
  {
    var closed, open, ids := SetOf(free), Opens(es).Keys, Ids(OPEN_BUCKETS_COUNT);
    DistinctCount(free);
    forall x: nat ensures x in closed <==> x in ids && x !in open { FreeMembers(es, head, free, x); }
    Partition(closed, open, ids);
    assert |Opens(es)| == |open|;
  }

  lemma Partition(a: set<nat>, b: set<nat>, c: set<nat>)
    requires b <= c && forall x: nat :: x in a <==> x in c && x !in b
    ensures |a| + |b| == |c|
  {
    assert a == c - b;
  }

  lemma {:induction false} DistinctCount(s: seq<nat>)
    requires NoRepeats(s)
    ensures |SetOf(s)| == |s|
  {
    if s != [] {
      DistinctCount(s[..|s| - 1]);
      assert SetOf(s) == SetOf(s[..|s| - 1]) + {s[|s| - 1]};
    }
  }

  /** The indices of the pool's entries. */
  ghost function Ids(n: nat): (r: set<nat>)
    ensures |r| == n && forall x :: x in r <==> 1 <= x <= n
  {
    if n == 0 then {} else Ids(n - 1) + {n}
  }

  // ---- the pool ----

  class OpenBucketPool {
    const entries: array<Entry>
    const hashSlots: array<nat>
    const slotOf: Slots
    var freelistHead: nat
    var nrFree: nat
    var partialList: seq<nat>
    var nrPartial: nat
    ghost var free: seq<nat>
    ghost var chains: seq<seq<nat>>

    ghost predicate Valid()
      reads this, entries, hashSlots
    {
      Linked() && FreeOk(entries[..], freelistHead, free) && nrFree == |free|
    }

    /** In order but for the freelist. */
    ghost predicate Linked()
      reads this, entries, hashSlots
    {
      && entries.Length == OPEN_BUCKETS_COUNT + 1 && hashSlots.Length == |chains| == OPEN_BUCKETS_COUNT
      && LinksOk(entries[..], hashSlots[..], slotOf, chains)
      && nrPartial == |partialList| && forall i :: 0 <= i < |partialList| ==> 1 <= partialList[i] <= OPEN_BUCKETS_COUNT
    }

    /** The freelist runs in a circle. */
    ghost predicate Broken()
      reads this, entries, hashSlots
    {
      Linked() && Circular(entries[..], freelistHead)
    }

    /** The open buckets. */
    ghost function Open(): map<nat, OpenBucket>
      reads this, entries
    {
      Opens(entries[..])
    }

    /** Builds the freelist 1 -> 2 -> ... -> 128 and empty chains. */
    constructor (slotOf: Slots)
      requires forall g, b :: slotOf(g, b) < OPEN_BUCKETS_COUNT
      ensures Valid() && Open() == map[] && fresh(entries) && fresh(hashSlots) && this.slotOf == slotOf
      ensures nrFree == OPEN_BUCKETS_COUNT && partialList == []
    {
      entries := new Entry[OPEN_BUCKETS_COUNT + 1](_ => EMPTY_ENTRY);
      hashSlots := new nat[OPEN_BUCKETS_COUNT](_ => 0);
      this.slotOf := slotOf;
      freelistHead, nrFree, partialList, nrPartial := 1, OPEN_BUCKETS_COUNT, [], 0;
      free := seq(OPEN_BUCKETS_COUNT, i => i + 1);
      chains := seq(OPEN_BUCKETS_COUNT, i => []);
      new;
      for i := 1 to OPEN_BUCKETS_COUNT
        modifies entries
        invariant forall x :: 1 <= x < i ==> entries[x] == EMPTY_ENTRY.(freelist := x + 1)
        invariant forall x :: i <= x <= OPEN_BUCKETS_COUNT ==> entries[x] == EMPTY_ENTRY
        invariant entries[0] == EMPTY_ENTRY
        invariant forall x :: 0 <= x < hashSlots.Length ==> hashSlots[x] == 0
      {
        entries[i] := entries[i].(freelist := i + 1);
      }
      entries[OPEN_BUCKETS_COUNT] := entries[OPEN_BUCKETS_COUNT].(freelist := 0);
      EmptyPool(entries[..], hashSlots[..], slotOf, free, chains);
    }

    /** Opens a bucket. It fails exactly when all entries are open. */
    method AllocLocked(group: nat, bucket: nat, sectorsFree: nat, gen: nat) returns (o: Option<nat>)
      requires Valid()
      modifies this, entries, hashSlots
      ensures Valid() && partialList == old(partialList)
      ensures o.None? <==> |old(Open())| == OPEN_BUCKETS_COUNT
      ensures o.None? ==> Open() == old(Open()) && nrFree == old(nrFree)
      ensures o.Some? ==> o.value !in old(Open()) && nrFree == old(nrFree) - 1
      ensures o.Some? ==> Open() == old(Open())[o.value := OpenBucket(1, group, bucket, sectorsFree, false, gen)]
    {
      hide PoolOk, FreeOk, Opens;
      FirstFree(entries[..], hashSlots[..], freelistHead, slotOf, free, chains);
      if freelistHead == 0 { return None; }
      var idx, next := freelistHead, entries[freelistHead].freelist;
      var s := slotOf(group, bucket);
      var e := entries[idx].(pin := 1, valid := true, group := group, bucket := bucket, sectorsFree := sectorsFree,
                             gen := gen, hash := hashSlots[s]);
      AllocKeepsPool(entries[..], hashSlots[..], freelistHead, slotOf, free, chains, e, s);
      entries[idx] := e;
      hashSlots[s] := idx;
      freelistHead := next;
      free, chains := free[1..], chains[s := [idx] + chains[s]];
      nrFree := nrFree - 1;
      o := Some(idx);
      assert entries[..] == old(entries[..])[idx := e];
      assert hashSlots[..] == old(hashSlots[..])[s := idx];
    }

    /** Closes an entry: out of its chain, wherever it stands there, and onto the freelist.
        The null index and indices past the pool are ignored. The pool stays in order exactly
        if the entry was open; otherwise the freelist runs in a circle, and goes on to. */
    method Put(idx: nat)
      requires Linked()
      modifies this, entries, hashSlots
      ensures Linked()
      ensures old(Valid()) ==>
                (Valid() <==> (1 <= idx <= OPEN_BUCKETS_COUNT ==> idx in old(Open()))) && (Valid() || Broken())
      ensures old(Broken()) ==> Broken()
      ensures Open() == old(Open()) - {idx} && partialList == old(partialList)
      ensures nrFree == if 1 <= idx <= OPEN_BUCKETS_COUNT then old(nrFree) + 1 else old(nrFree)
      ensures forall x :: 0 <= x < entries.Length ==> entries[x].sectorsFree == old(entries[x].sectorsFree)
    {
      hide LinksOk, FreeOk, IdleOk;
      if idx == 0 || idx >= entries.Length {
        assert idx !in Open();
        return;
      }
      var s := slotOf(entries[idx].group, entries[idx].bucket);
      ghost var es, head := entries[..], freelistHead;
      ChainOf(es, hashSlots[..], slotOf, chains, s, idx);
      ghost var chain := chains[s];
      var cur, prev;
      ghost var p;
      cur, prev, p := FindInChain(idx, s, chain);
      if es[idx].valid {
        PutKeepsLinks(es, hashSlots[..], head, slotOf, chains, idx, s, p);
      } else {
        PutIdleLinks(es, hashSlots[..], head, slotOf, chains, idx);
      }
      Close(idx, s, cur, prev, p);
      PutFreelist(es, head, old(free), idx, if cur == idx then prev else 0);
    }

    /** Walks a chain to an entry, keeping the entry before it; to the end if it is not there. */
    method FindInChain(idx: nat, s: nat, ghost chain: seq<nat>) returns (cur: nat, prev: nat, ghost p: nat)
      requires s < hashSlots.Length && idx != 0
      requires ChainOk(entries[..], slotOf, s, hashSlots[s], chain)
      ensures cur == if idx in chain then idx else 0
      ensures idx in chain ==> p < |chain| && chain[p] == idx && prev == if p == 0 then 0 else chain[p - 1]
    {
      prev, p := 0, 0;
      NoNullLink(entries[..], slotOf, s, hashSlots[s], chain);
      cur := hashSlots[s];
      while cur != 0 && cur != idx
        invariant p <= |chain| && cur == (if p < |chain| then chain[p] else 0)
        invariant prev == if p == 0 then 0 else chain[p - 1]
        invariant forall j :: 0 <= j < p ==> chain[j] != idx
        decreases |chain| - p
      {
        assert LinkAt(entries[..], slotOf, s, chain, p);
        prev := cur;
        cur := entries[cur].hash;
        p := p + 1;
      }
    }

    /** Unlinks the entry if the walk found it, and pushes it on the freelist. */
    method Close(idx: nat, s: nat, cur: nat, prev: nat, ghost p: nat)
      requires Linked() && 1 <= idx <= OPEN_BUCKETS_COUNT && s < OPEN_BUCKETS_COUNT
      requires cur == if entries[idx].valid then idx else 0
      requires cur == idx ==>
                 && prev <= OPEN_BUCKETS_COUNT && prev != idx && (prev == 0 <==> p == 0)
                 && p < |chains[s]| && prev == (if p == 0 then 0 else chains[s][p - 1])
                 && LinksOk(Closed(entries[..], idx, prev, freelistHead),
                            if p == 0 then hashSlots[..][s := entries[idx].hash] else hashSlots[..], slotOf,
                            chains[s := Without(chains[s], p)])
      requires cur == 0 ==> LinksOk(Closed(entries[..], idx, 0, freelistHead), hashSlots[..], slotOf, chains)
      modifies this, entries, hashSlots
      ensures Linked() && entries[..] == old(Closed(entries[..], idx, if cur == idx then prev else 0, freelistHead))
      ensures freelistHead == idx && free == [idx] + old(free)
      ensures nrFree == old(nrFree) + 1 && partialList == old(partialList)
    {
      hide LinksOk;
      ghost var es' := Closed(entries[..], idx, if cur == idx then prev else 0, freelistHead);
      entries[idx] := entries[idx].(valid := false, pin := 0, onPartial := false);
      if cur == idx {
        var next := entries[idx].hash;
        if prev == 0 {
          hashSlots[s] := next;
        } else {
          entries[prev] := entries[prev].(hash := next);
        }
        chains := chains[s := Without(chains[s], p)];
        assert p == 0 ==> hashSlots[..] == old(hashSlots[..])[s := next];
      }
      entries[idx] := entries[idx].(freelist := freelistHead);
      freelistHead := idx;
      nrFree := nrFree + 1;
      free := [idx] + free;
      assert entries[..] == es';
    }

    /** Finds the open entry of a bucket. */
    method Lookup(group: nat, bucket: nat) returns (o: Option<nat>)
      requires Valid()
      ensures o.Some? ==> o.value in Open() && Open()[o.value].group == group && Open()[o.value].bucket == bucket
      ensures o.None? ==> forall x :: x in Open() ==> !(Open()[x].group == group && Open()[x].bucket == bucket)
    {
      var s := slotOf(group, bucket);
      ghost var chain, p := chains[s], 0;
      assert ChainOk(entries[..], slotOf, s, hashSlots[..][s], chain);
      NoNullLink(entries[..], slotOf, s, hashSlots[s], chain);
      var cur := hashSlots[s];
      while cur != 0
        invariant p <= |chain| && cur == (if p < |chain| then chain[p] else 0)
        invariant forall j :: 0 <= j < p ==> !KeyIs(entries[..], chain[j], group, bucket)
        decreases |chain| - p
      {
        assert LinkAt(entries[..], slotOf, s, chain, p);
        if entries[cur].group == group && entries[cur].bucket == bucket && entries[cur].valid {
          return Some(cur);
        }
        cur := entries[cur].hash;
        p := p + 1;
      }
      forall x | x in Open() ensures !(Open()[x].group == group && Open()[x].bucket == bucket) {
        ChainHasAll(entries[..], slotOf, s, hashSlots[s], chain, group, bucket, x);
      }
      o := None;
    }

    method IncPin(idx: nat)
      requires Valid() && (idx != 0 ==> idx in Open())
      modifies entries
      ensures Valid()
      ensures Open() == if idx == 0 then old(Open())
                        else old(Open())[idx := old(Open())[idx].(pin := old(Open())[idx].pin + 1)]
    {
      if idx != 0 {
        var e := entries[idx].(pin := entries[idx].pin + 1);
        Touch(idx, e);
      }
    }

    method Touch(idx: nat, e: Entry)
      requires Linked() && idx in Open()
      requires e == entries[idx].(pin := e.pin, sectorsFree := e.sectorsFree, onPartial := e.onPartial)
      modifies entries
      ensures Linked() && (old(Valid()) ==> Valid()) && (old(Broken()) ==> Broken())
      ensures Open() == old(Open())[idx := Shown(e)] && entries[..] == old(entries[..])[idx := e]
    {
      hide LinksOk, FreeOk, Circular;
      TouchKeepsLinks(entries[..], hashSlots[..], slotOf, chains, idx, e);
      TouchKeepsFree(entries[..], freelistHead, idx, e);
      entries[idx] := e;
      assert entries[..] == old(entries[..])[idx := e];
    }

    /** Drops a pin; the last one closes the entry. */
    method DecPinAndPut(idx: nat) returns (closed: bool)
      requires Valid() && (idx != 0 ==> idx in Open() && Open()[idx].pin >= 1)
      modifies this, entries, hashSlots
      ensures Valid() && partialList == old(partialList)
      ensures closed <==> idx != 0 && old(Open())[idx].pin == 1
      ensures Open() == if idx == 0 then old(Open()) else if closed then old(Open()) - {idx}
                        else old(Open())[idx := old(Open())[idx].(pin := old(Open())[idx].pin - 1)]
    {
      if idx == 0 { return false; }
      var prev := entries[idx].pin;
      var e := entries[idx].(pin := prev - 1);
      Touch(idx, e);
      if prev == 1 {
        Put(idx);
        return true;
      }
      closed := false;
    }

    /** Lists an open entry as having space left. */
    method AddToPartial(idx: nat)
      requires Linked()
      modifies this, entries
      ensures Linked() && (old(Valid()) ==> Valid()) && (old(Broken()) ==> Broken())
      ensures idx !in old(Open()) ==> Open() == old(Open()) && partialList == old(partialList)
      ensures idx in old(Open()) ==>
                && Open() == old(Open())[idx := old(Open())[idx].(onPartial := true)]
                && partialList == old(partialList) + [idx]
      ensures forall x :: 0 <= x < entries.Length ==> entries[x].sectorsFree == old(entries[x].sectorsFree)
    {
      if idx == 0 || idx >= entries.Length { return; }
      if !entries[idx].valid { return; }
      var e := entries[idx].(onPartial := true);
      Touch(idx, e);
      partialList := partialList + [idx];
      nrPartial := nrPartial + 1;
    }

    /** Takes the entry listed last that is still open and has space, dropping the ones
        listed behind it, and pins it. */
    method TakeFromPartial() returns (o: Option<nat>)
      requires Valid()
      modifies this, entries
      ensures Valid() && partialList <= old(partialList)
      ensures forall i :: |partialList| + (if o.Some? then 1 else 0) <= i < |old(partialList)| ==>
                            !Usable(old(Open()), old(partialList)[i])
      ensures o.None? ==> partialList == [] && Open() == old(Open())
      ensures o.Some? ==>
                && |partialList| < |old(partialList)| && old(partialList)[|partialList|] == o.value
                && Usable(old(Open()), o.value)
                && Open() == old(Open())[o.value :=
                     old(Open())[o.value].(pin := old(Open())[o.value].pin + 1, onPartial := false)]
    {
      while partialList != []
        invariant Valid() && partialList <= old(partialList) && Open() == old(Open())
        invariant forall i :: |partialList| <= i < |old(partialList)| ==> !Usable(Open(), old(partialList)[i])
        decreases |partialList|
      {
        var idx := partialList[|partialList| - 1];
        partialList := partialList[..|partialList| - 1];
        nrPartial := nrPartial - 1;
        if entries[idx].valid && entries[idx].sectorsFree > 0 {
          var e := entries[idx].(onPartial := false, pin := entries[idx].pin + 1);
          Touch(idx, e);
          return Some(idx);
        }
      }
      o := None;
    }
  }

  lemma NoNullLink(es: seq<Entry>, slotOf: Slots, s: nat, head: nat, chain: seq<nat>)
    requires ChainOk(es, slotOf, s, head, chain)
    ensures forall j :: 0 <= j < |chain| ==> chain[j] != 0
  {
    forall j | 0 <= j < |chain| ensures chain[j] != 0 { assert LinkAt(es, slotOf, s, chain, j); }
  }

  /** If no entry of a chain has the key, no open entry has. */
  lemma ChainHasAll(es: seq<Entry>, slotOf: Slots, s: nat, head: nat, chain: seq<nat>, group: nat, bucket: nat, x: nat)
    requires ChainOk(es, slotOf, s, head, chain) && s == slotOf(group, bucket)
    requires forall j :: 0 <= j < |chain| ==> !KeyIs(es, chain[j], group, bucket)
    requires 1 <= x < |es| && es[x].valid
    ensures !KeyIs(es, x, group, bucket)
  {
    if InSlot(es, slotOf, x, s) { assert x in chain; }
  }

  ghost predicate KeyIs(es: seq<Entry>, x: nat, group: nat, bucket: nat) {
    x < |es| && es[x].group == group && es[x].bucket == bucket
  }

  /** An open entry with space left. */
  ghost predicate Usable(open: map<nat, OpenBucket>, idx: nat) {
    idx in open && open[idx].sectorsFree > 0
  }

  lemma EmptyPool(es: seq<Entry>, slots: seq<nat>, slotOf: Slots, free: seq<nat>, chains: seq<seq<nat>>)
    requires |es| == OPEN_BUCKETS_COUNT + 1 && |slots| == |chains| == OPEN_BUCKETS_COUNT
    requires forall g, b :: slotOf(g, b) < OPEN_BUCKETS_COUNT
    requires forall x :: 1 <= x <= OPEN_BUCKETS_COUNT ==>
               es[x] == EMPTY_ENTRY.(freelist := if x < OPEN_BUCKETS_COUNT then x + 1 else 0)
    requires forall s :: 0 <= s < OPEN_BUCKETS_COUNT ==> slots[s] == 0 && chains[s] == []
    requires |free| == OPEN_BUCKETS_COUNT && forall i :: 0 <= i < |free| ==> free[i] == i + 1
    ensures PoolOk(es, slots, 1, slotOf, free, chains) && Opens(es) == map[]
  {
    forall i | 0 <= i < |free| ensures FreeAt(es, free, i) {}
    forall x | 1 <= x < |es| ensures x in free { assert free[x - 1] == x; }
    forall s | 0 <= s < OPEN_BUCKETS_COUNT ensures ChainOk(es, slotOf, s, slots[s], chains[s]) {}
  }

  /** The head of the freelist is null exactly when every entry is open. */
  lemma FirstFree(es: seq<Entry>, slots: seq<nat>, head: nat, slotOf: Slots, free: seq<nat>, chains: seq<seq<nat>>)
    requires PoolOk(es, slots, head, slotOf, free, chains)
    ensures head == 0 <==> |Opens(es)| == OPEN_BUCKETS_COUNT
    ensures head != 0 ==> 1 <= head < |es| && !es[head].valid && !es[head].onPartial && head !in Opens(es) && free != []
    ensures |es| == OPEN_BUCKETS_COUNT + 1 && |slots| == |chains| == OPEN_BUCKETS_COUNT
    ensures forall g, b :: slotOf(g, b) < OPEN_BUCKETS_COUNT
  {
    FreeCounts(es, head, free);
    if free != [] { assert FreeAt(es, free, 0); }
  }

  /** A freelist that runs in a circle does not read as any list. */
  lemma CircularNoList(es: seq<Entry>, head: nat, f: seq<nat>)
    requires Circular(es, head)
    ensures !FreeOk(es, head, f)
  {
    var c: set<nat> :| Circle(es, head, c);
    if f != [] { StaysInCircle(es, head, c, f, |f| - 1); }
  }

  lemma {:induction false} StaysInCircle(es: seq<Entry>, head: nat, c: set<nat>, f: seq<nat>, i: nat)
    requires Circle(es, head, c) && i < |f|
    ensures FreeOk(es, head, f) ==> f[i] in c && i + 1 < |f|
  {
    if i > 0 { StaysInCircle(es, head, c, f, i - 1); }
    assert FreeOk(es, head, f) ==> FreeAt(es, f, i) && (i > 0 ==> FreeAt(es, f, i - 1));
  }

  /** Pushing an entry on the freelist that is on it already makes it run in a circle. */
  lemma DoublePutBreaks(es: seq<Entry>, head: nat, free: seq<nat>, idx: nat, prev: nat)
    requires FreeOk(es, head, free) && idx in free && prev < |es|
    ensures idx < |es| && Circular(Closed(es, idx, prev, head), idx)
    ensures forall f: seq<nat> :: !FreeOk(Closed(es, idx, prev, head), idx, f)
  {
    var p := FirstAt(free, idx);
    assert FreeAt(es, free, p) && FreeAt(es, free, 0);
    var es', walk := Closed(es, idx, prev, head), free[..p + 1];
    var c := SetOf(walk);
    assert free[0] == walk[0] && walk[p] == idx;
    forall x | x in c ensures 1 <= x < |es'| && es'[x].freelist in c {
      var i :| 0 <= i < |walk| && walk[i] == x;
      assert FreeAt(es, free, i);
      if i < p { assert walk[i + 1] == free[i + 1]; }
    }
    assert Circle(es', idx, c);
    forall f: seq<nat> ensures !FreeOk(es', idx, f) { CircularNoList(es', idx, f); }
  }

  /** A circle stays one whatever is pushed in front of it. */
  lemma CircularStays(es: seq<Entry>, head: nat, idx: nat, prev: nat)
    requires Circular(es, head) && 1 <= idx < |es| && prev < |es|
    ensures Circular(Closed(es, idx, prev, head), idx)
  {
    var c: set<nat> :| Circle(es, head, c);
    assert Circle(Closed(es, idx, prev, head), idx, c + {idx});
  }

  /** What a put makes of the freelist. */
  lemma PutFreelist(es: seq<Entry>, head: nat, free: seq<nat>, idx: nat, prev: nat)
    requires 1 <= idx < |es| && prev < |es| && IdleOk(es) &&
               (es[idx].valid ==> prev != idx && (prev == 0 || es[prev].valid))
    ensures var es' := Closed(es, idx, prev, head);
            && (FreeOk(es, head, free) && es[idx].valid ==> FreeOk(es', idx, [idx] + free))
            && (FreeOk(es, head, free) && !es[idx].valid ==>
                  Circular(es', idx) && forall f: seq<nat> :: !FreeOk(es', idx, f))
            && (Circular(es, head) ==> Circular(es', idx))
  {
    if FreeOk(es, head, free) {
      if es[idx].valid {
        ClosedFree(es, head, free, idx, prev);
      } else {
        FreeMembers(es, head, free, idx);
        DoublePutBreaks(es, head, free, idx, prev);
      }
    }
    if Circular(es, head) { CircularStays(es, head, idx, prev); }
  }

  lemma {:induction false} FirstAt(s: seq<nat>, x: nat) returns (p: nat)
    requires x in s
    ensures p < |s| && s[p] == x && forall j :: 0 <= j < p ==> s[j] != x
  {
    if s[0] == x { return 0; }
    p := FirstAt(s[1..], x);
    p := p + 1;
  }

  /** The chain of an entry's slot, and whether the entry is in it. */
  lemma ChainOf(es: seq<Entry>, slots: seq<nat>, slotOf: Slots, chains: seq<seq<nat>>, s: nat, idx: nat)
    requires LinksOk(es, slots, slotOf, chains) && 1 <= idx < |es| && s == slotOf(es[idx].group, es[idx].bucket)
    ensures s < |slots| == |chains| && ChainOk(es, slotOf, s, slots[s], chains[s])
    ensures idx in chains[s] <==> es[idx].valid
    ensures IdleOk(es)
  {
    assert ChainOk(es, slotOf, s, slots[s], chains[s]);
    if es[idx].valid { assert InSlot(es, slotOf, idx, s); }
    forall i | 0 <= i < |chains[s]| && chains[s][i] == idx ensures es[idx].valid {
      assert LinkAt(es, slotOf, s, chains[s], i);
    }
  }
}
