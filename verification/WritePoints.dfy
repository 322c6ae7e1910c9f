/** The pool of write points: one slot per identity of written data, the least recently
    used one replaced when the pool is full. */
module WritePoints {
  import opened Wrappers
  import opened Sequences
  import opened OpenBuckets

  const WRITE_POINT_MAX: nat := 32
  const NUM_DEDICATED: nat := 3

  datatype WritePoint = WritePoint(identity: Option<nat>, lastUsed: nat, sectorsFree: nat, prevSectorsFree: nat,
                                   ptrs: seq<nat>, hint: nat)

  function NewPoint(hint: nat): WritePoint { WritePoint(None, 0, 0, 0, [], hint) }

  // ---- the abstract map: identities from least to most recently resolved ----

  /** Resolving an identity makes it the most recent one; at capacity the oldest goes. */
  function Resolved(order: seq<nat>, v: nat, capacity: nat): seq<nat> {
    if v in order then Dropped(order, v) + [v]
    else if |order| < capacity || order == [] then order + [v]
    else order[1..] + [v]
  }

  lemma {:induction false} DroppedIs(s: seq<nat>, v: nat)
    requires NoRepeats(s)
    ensures NoRepeats(Dropped(s, v)) && v !in Dropped(s, v)
    ensures forall x :: x in Dropped(s, v) <==> x in s && x != v
    ensures v in s ==> |Dropped(s, v)| == |s| - 1
    ensures v !in s ==> Dropped(s, v) == s
  {
    if s != [] {
      DroppedIs(s[1..], v);
      assert s == [s[0]] + s[1..];
      assert s[0] !in s[1..];
    }
  }

  // ---- the pool ----

  type Points = seq<WritePoint>
  type Slots = map<nat, nat>

  /** Identities and the active slots are in one-to-one correspondence; the slots behind
      them hold none. */
  ghost predicate Matched(pool: Points, ids: Slots, active: nat) {
    && active <= |pool|
    && (forall i :: 0 <= i < active ==> SlotHolds(pool, ids, i))
    && (forall i :: active <= i < |pool| ==> pool[i].identity.None?)
    && (forall v :: v in ids ==> ids[v] < active && pool[ids[v]].identity == Some(v))
  }

  ghost predicate SlotHolds(pool: Points, ids: Slots, i: nat)
    requires i < |pool|
  {
    pool[i].identity.Some? && pool[i].identity.value in ids && ids[pool[i].identity.value] == i
  }

  /** When an identity was last resolved. */
  function UsedAt(pool: Points, ids: Slots, v: nat): nat
    requires v in ids && ids[v] < |pool|
  {
    pool[ids[v]].lastUsed
  }

  /** The order lists exactly the identities held, by the time they were last resolved. */
  ghost predicate Ordered(pool: Points, ids: Slots, order: seq<nat>) {
    && NoRepeats(order)
    && (forall v :: v in order <==> v in ids)
    && (forall v :: v in ids ==> ids[v] < |pool|)
    && (forall i, j :: 0 <= i < j < |order| ==> Earlier(pool, ids, order[i], order[j]))
  }

  ghost predicate Earlier(pool: Points, ids: Slots, v: nat, w: nat) {
    v in ids && w in ids && ids[v] < |pool| && ids[w] < |pool| && UsedAt(pool, ids, v) < UsedAt(pool, ids, w)
  }

  ghost predicate Later(pool: Points, active: nat, now: nat) {
    active <= |pool| && forall i :: 0 <= i < active ==> pool[i].lastUsed < now
  }

  lemma EmptyIds(ids: Slots)
    requires forall v :: v !in ids
    ensures |ids| == 0
  {
    assert ids.Keys == {};
    assert |ids| == |ids.Keys|;
  }

  /** As many identities as active slots. */
  lemma {:induction false} MatchedCount(pool: Points, ids: Slots, active: nat)
    requires Matched(pool, ids, active)
    ensures |ids| == active
    decreases active
  {
    if active == 0 {
      assert forall v :: v !in ids;
      EmptyIds(ids);
    } else {
      assert SlotHolds(pool, ids, active - 1);
      var v := pool[active - 1].identity.value;
      MatchedShrink(pool, ids, active);
      MatchedCount(pool[active - 1 := pool[active - 1].(identity := None)], ids - {v}, active - 1);
      assert (ids - {v}).Keys == ids.Keys - {v};
      assert |ids - {v}| == |(ids - {v}).Keys| && |ids| == |ids.Keys|;
    }
  }

  /** Giving up the last active slot. */
  lemma MatchedShrink(pool: Points, ids: Slots, active: nat)
    requires Matched(pool, ids, active) && active > 0
    ensures SlotHolds(pool, ids, active - 1)
    ensures Matched(pool[active - 1 := pool[active - 1].(identity := None)],
                    ids - {pool[active - 1].identity.value}, active - 1)
  {
    assert SlotHolds(pool, ids, active - 1);
    var v := pool[active - 1].identity.value;
    var pool', ids' := pool[active - 1 := pool[active - 1].(identity := None)], ids - {v};
    forall i | 0 <= i < active - 1 ensures SlotHolds(pool', ids', i) { assert SlotHolds(pool, ids, i); }
  }

  /** Taking slot i, free or just given up, for a new identity. */
  lemma MatchedTake(pool: Points, ids: Slots, active: nat, i: nat, p: WritePoint, v: nat)
    requires i < |pool| && v !in ids && p.identity == Some(v)
    requires (i == active && Matched(pool, ids, active)) ||
             (i < active && Matched(pool, ids, active))
    ensures i == active ==> Matched(pool[i := p], ids[v := i], active + 1)
    ensures i < active ==>
              SlotHolds(pool, ids, i) && Matched(pool[i := p], (ids - {pool[i].identity.value})[v := i], active)
  {
    if i < active {
      assert SlotHolds(pool, ids, i);
      var pool', ids' := pool[i := p], (ids - {pool[i].identity.value})[v := i];
      forall j | 0 <= j < active ensures SlotHolds(pool', ids', j) { assert SlotHolds(pool, ids, j); }
    } else {
      var pool', ids' := pool[i := p], ids[v := i];
      forall j | 0 <= j < active + 1
        ensures SlotHolds(pool', ids', j)
      {
        if j < active { assert SlotHolds(pool, ids, j); }
      }
    }
  }

  /** A held identity is used again. */
  lemma MatchedTouch(pool: Points, ids: Slots, active: nat, i: nat, p: WritePoint)
    requires Matched(pool, ids, active) && i < |pool| && p.identity == pool[i].identity
    ensures Matched(pool[i := p], ids, active)
  {
    var pool' := pool[i := p];
    forall j | 0 <= j < active ensures SlotHolds(pool', ids, j) { assert SlotHolds(pool, ids, j); }
  }

  lemma OrderTouch(pool: Points, ids: Slots, active: nat, order: seq<nat>, v: nat, now: nat)
    requires Matched(pool, ids, active) && Ordered(pool, ids, order) && Later(pool, active, now) && v in ids
    ensures Ordered(pool[ids[v] := pool[ids[v]].(lastUsed := now)], ids, Dropped(order, v) + [v])
  {
    var pool', rest := pool[ids[v] := pool[ids[v]].(lastUsed := now)], Dropped(order, v);
    DroppedIs(order, v);
    var o := rest + [v];
    forall i, j | 0 <= i < j < |o| ensures Earlier(pool', ids, o[i], o[j]) {
      assert o[i] in rest && o[i] in ids && SlotHolds(pool, ids, ids[o[i]]);
      if j < |rest| {
        assert o[j] in rest;
        DroppedOrder(order, v, i, j);
        OtherSlot(pool, ids, active, v, o[i]);
        OtherSlot(pool, ids, active, v, o[j]);
      } else {
        OtherSlot(pool, ids, active, v, o[i]);
      }
    }
  }

  lemma OtherSlot(pool: Points, ids: Slots, active: nat, v: nat, w: nat)
    requires Matched(pool, ids, active) && v in ids && w in ids && v != w
    ensures ids[v] != ids[w]
  {}

  /** What is left after dropping keeps its order. */
  lemma {:induction false} DroppedOrder(s: seq<nat>, v: nat, i: nat, j: nat)
    requires NoRepeats(s) && i < j < |Dropped(s, v)|
    ensures exists x, y :: 0 <= x < y < |s| && s[x] == Dropped(s, v)[i] && s[y] == Dropped(s, v)[j]
  {
    if s[0] == v {
      assert s[i + 1] == s[1..][i] && s[j + 1] == s[1..][j];
    } else if i == 0 {
      var r := Dropped(s[1..], v);
      DroppedIs(s[1..], v);
      assert r[j - 1] in r && r[j - 1] in s[1..];
      var y :| 0 <= y < |s[1..]| && s[1..][y] == r[j - 1];
      assert s[y + 1] == r[j - 1];
    } else {
      DroppedOrder(s[1..], v, i - 1, j - 1);
      var x, y :| 0 <= x < y < |s[1..]| && s[1..][x] == Dropped(s[1..], v)[i - 1] &&
                  s[1..][y] == Dropped(s[1..], v)[j - 1];
      assert s[x + 1] == s[1..][x] && s[y + 1] == s[1..][y];
    }
  }

  /** A new identity in a free slot becomes the most recent one. */
  lemma OrderNew(pool: Points, ids: Slots, active: nat, order: seq<nat>, v: nat, p: WritePoint, now: nat)
    requires Matched(pool, ids, active) && Ordered(pool, ids, order) && Later(pool, active, now)
    requires active < |pool| && v !in ids && p.lastUsed == now
    ensures Ordered(pool[active := p], ids[v := active], order + [v])
  {
    var pool', ids', o := pool[active := p], ids[v := active], order + [v];
    forall i, j | 0 <= i < j < |o| ensures Earlier(pool', ids', o[i], o[j]) {
      assert o[i] in order && SlotHolds(pool, ids, ids[o[i]]);
      if j < |order| { assert o[j] in order && Earlier(pool, ids, order[i], order[j]); }
    }
  }

  /** The slot used longest ago holds the first identity of the order. */
  lemma OldestIsFirst(pool: Points, ids: Slots, active: nat, order: seq<nat>, i: nat)
    requires Matched(pool, ids, active) && Ordered(pool, ids, order) && i < active
    requires forall j :: 0 <= j < active ==> pool[i].lastUsed <= pool[j].lastUsed
    ensures order != [] && pool[i].identity == Some(order[0])
  {
    assert SlotHolds(pool, ids, i);
    var v := pool[i].identity.value;
    assert v in order;
    var x :| 0 <= x < |order| && order[x] == v;
    assert x > 0 ==> Earlier(pool, ids, order[0], order[x]);
  }

  /** Replacing the oldest identity. */
  lemma OrderReplace(pool: Points, ids: Slots, active: nat, order: seq<nat>, i: nat, v: nat, p: WritePoint, now: nat)
    requires Matched(pool, ids, active) && Ordered(pool, ids, order) && Later(pool, active, now)
    requires i < active && v !in ids && p.lastUsed == now && order != [] && pool[i].identity == Some(order[0])
    ensures Ordered(pool[i := p], (ids - {order[0]})[v := i], order[1..] + [v])
  {
    var pool', ids', o := pool[i := p], (ids - {order[0]})[v := i], order[1..] + [v];
    assert order == [order[0]] + order[1..];
    assert order[0] !in order[1..];
    forall x, y | 0 <= x < y < |o| ensures Earlier(pool', ids', o[x], o[y]) {
      ReplaceEarlier(pool, ids, active, order, i, v, p, now, x, y);
    }
    forall w ensures w in o <==> w in ids' {
      assert w in order <==> w in ids;
    }
  }

  lemma ReplaceEarlier(pool: Points, ids: Slots, active: nat, order: seq<nat>, i: nat, v: nat, p: WritePoint,
                       now: nat, x: nat, y: nat)
    requires Matched(pool, ids, active) && Ordered(pool, ids, order) && Later(pool, active, now)
    requires i < active && v !in ids && p.lastUsed == now && order != [] && pool[i].identity == Some(order[0])
    requires x < y < |order|
    ensures var o := order[1..] + [v]; Earlier(pool[i := p], (ids - {order[0]})[v := i], o[x], o[y])
  {
    var o := order[1..] + [v];
    assert o[x] == order[x + 1] && o[x] in order && SlotHolds(pool, ids, ids[o[x]]);
    OtherSlot(pool, ids, active, order[0], o[x]);
    if y < |order| - 1 {
      assert o[y] == order[y + 1] && o[y] in order;
      OtherSlot(pool, ids, active, order[0], o[y]);
      assert Earlier(pool, ids, order[x + 1], order[y + 1]);
    }
  }

  /** Dropping an identity together with its slot. */
  lemma OrderDrop(pool: Points, ids: Slots, active: nat, order: seq<nat>, v: nat)
    requires Matched(pool, ids, active) && Ordered(pool, ids, order) && v in ids
    ensures Ordered(pool[ids[v] := pool[ids[v]].(identity := None)], ids - {v}, Dropped(order, v))
  {
    var pool', ids', o := pool[ids[v] := pool[ids[v]].(identity := None)], ids - {v}, Dropped(order, v);
    DroppedIs(order, v);
    forall i, j | 0 <= i < j < |o| ensures Earlier(pool', ids', o[i], o[j]) {
      assert o[i] in o && o[j] in o;
      DroppedOrder(order, v, i, j);
    }
  }

  class WritePointPool {
    var pool: Points
    var ids: Slots
    var dedicated: Points
    var nrActive: nat

    ghost predicate Valid()
      reads this
    {
      1 <= |pool| <= WRITE_POINT_MAX && |dedicated| == NUM_DEDICATED && Matched(pool, ids, nrActive)
    }

    constructor (maxWritePoints: nat)
      ensures Valid() && ids == map[] && nrActive == 0
      ensures |pool| == if maxWritePoints == 0 then 1
                        else if maxWritePoints > WRITE_POINT_MAX then WRITE_POINT_MAX else maxWritePoints
      ensures Ordered(pool, ids, [])
    {
      var max := if maxWritePoints < 1 then 1
                 else if maxWritePoints > WRITE_POINT_MAX then WRITE_POINT_MAX else maxWritePoints;
      pool := seq(max, i requires 0 <= i < max => NewPoint(i));
      dedicated := [NewPoint(max), NewPoint(max + 1), NewPoint(max + 2)];
      ids, nrActive := map[], 0;
    }

    /** The active slot used longest ago, the first of them if several are. */
    method FindLru() returns (oldest: nat)
      requires Valid() && nrActive > 0
      ensures oldest < nrActive && forall j :: 0 <= j < nrActive ==> pool[oldest].lastUsed <= pool[j].lastUsed
      ensures forall j :: 0 <= j < oldest ==> pool[oldest].lastUsed < pool[j].lastUsed
    {
      oldest := 0;
      for i := 1 to nrActive
        invariant oldest < i
        invariant forall j :: 0 <= j < i ==> pool[oldest].lastUsed <= pool[j].lastUsed
        invariant forall j :: 0 <= j < oldest ==> pool[oldest].lastUsed < pool[j].lastUsed
      {
        if pool[i].lastUsed < pool[oldest].lastUsed { oldest := i; }
      }
    }

    /** Finds the slot of an identity, or gives it one. With a clock later than every earlier
        use, the pool is a map of the most recently resolved identities. */
    method ResolveHashed(v: nat, now: nat) returns (idx: nat)
      requires Valid()
      modifies this`pool, this`ids, this`nrActive
      ensures Valid() && |pool| == |old(pool)|
      ensures v in ids && ids[v] == idx && pool[idx].lastUsed == now
      ensures v in old(ids) ==> ids == old(ids) && nrActive == old(nrActive)
      ensures v !in old(ids) && old(nrActive) < |pool| ==>
                ids == old(ids)[v := old(nrActive)] && nrActive == old(nrActive) + 1
      ensures forall j :: 0 <= j < |pool| && j != idx ==> pool[j] == old(pool)[j]
      ensures pool[idx] == old(pool)[idx].(identity := Some(v), lastUsed := now)
      ensures old(Later(pool, nrActive, now)) ==> Later(pool, nrActive, now + 1)
      ensures old(Later(pool, nrActive, now)) ==>
                forall order :: old(Ordered(pool, ids, order)) ==> Ordered(pool, ids, Resolved(order, v, |pool|))
    {
      hide Matched, Ordered, Later, Resolved;
      if v in ids {
        idx := ids[v];
        HeldSlot(pool, ids, nrActive, v);
        TouchAll(pool, ids, nrActive, v, now);
        LaterNext(pool, nrActive, idx, pool[idx].(lastUsed := now), now);
        MatchedTouch(pool, ids, nrActive, idx, pool[idx].(lastUsed := now));
        pool := pool[idx := pool[idx].(lastUsed := now)];
        return;
      }
      ActiveBound(pool, ids, nrActive);
      if nrActive < |pool| {
        idx := nrActive;
        var p := pool[idx].(identity := Some(v), lastUsed := now);
        NewAll(pool, ids, nrActive, v, p, now);
        LaterNext(pool, nrActive, idx, p, now);
        MatchedTake(pool, ids, nrActive, idx, p, v);
        nrActive := nrActive + 1;
        pool := pool[idx := p];
        ids := ids[v := idx];
      } else {
        idx := FindLru();
        var p := pool[idx].(identity := Some(v), lastUsed := now);
        MatchedTake(pool, ids, nrActive, idx, p, v);
        ReplaceAll(pool, ids, nrActive, idx, v, p, now);
        LaterNext(pool, nrActive, idx, p, now);
        ids := ids - {pool[idx].identity.value};
        pool := pool[idx := p];
        ids := ids[v := idx];
      }
    }

    /** Gives up the last active slot if the write points strand too much space; its open
        buckets go to the partial list or are closed. The pool of open buckets stays in order
        exactly if each bucket that is full is open and listed once. */
    method TryDecrease(bucketSize: nat, freeSectors: nat, open: OpenBucketPool) returns (done: bool)
      requires Valid() && open.Valid()
      modifies this, open, open.entries, open.hashSlots
      ensures Valid() && |pool| == |old(pool)|
      ensures done <==> old(nrActive) > 1 && (old(nrActive) + NUM_DEDICATED) * bucketSize * 8 > freeSectors
      ensures !done ==> pool == old(pool) && ids == old(ids) && nrActive == old(nrActive)
      ensures !done ==> open.Valid() && open.Open() == old(open.Open())
      ensures done ==>
                && nrActive == old(nrActive) - 1 && old(pool)[nrActive].identity.Some?
                && ids == old(ids) - {old(pool)[nrActive].identity.value}
                && pool == old(pool)[nrActive := old(pool)[nrActive].(identity := None, ptrs := [], sectorsFree := 0)]
                && open.Open() == HandedBack(old(open.Open()), old(pool)[nrActive].ptrs)
                && (open.Valid() <==> ClosedOnce(old(open.entries[..]), old(pool)[nrActive].ptrs))
      ensures done ==> forall order :: old(Ordered(pool, ids, order)) ==>
                                         Ordered(pool, ids, Dropped(order, old(pool)[nrActive].identity.value))
      ensures forall now: nat :: old(Later(pool, nrActive, now)) ==> Later(pool, nrActive, now)
    {
      hide Matched, Ordered, Opens, OpenBucketPool.Valid, OpenBucketPool.Linked, OpenBucketPool.Broken, HandedBack,
        Dropped, ClosedOnce;
      PoolFacts(open);
      if nrActive <= 1 { return false; }
      if !((nrActive + NUM_DEDICATED) * bucketSize * 8 > freeSectors) { return false; }
      ActiveBound(pool, ids, nrActive);
      MatchedShrink(pool, ids, nrActive);
      DropAll(pool, ids, nrActive);
      nrActive := nrActive - 1;
      var wp := pool[nrActive];
      if wp.identity.Some? {
        pool := pool[nrActive := wp.(identity := None)];
        ids := ids - {wp.identity.value};
      }
      ghost var es := open.entries[..];
      HandedNone(open.Open(), wp.ptrs);
      ClosedNone(es, wp.ptrs);
      for i := 0 to |wp.ptrs|
        invariant open.Linked() && (open.Valid() || open.Broken())
        invariant open.Valid() <==> ClosedOnce(es, wp.ptrs[..i])
        invariant SameSpace(open.entries[..], es) && open.Open() == HandedBack(old(open.Open()), wp.ptrs[..i])
        invariant nrActive == old(nrActive) - 1 < |old(pool)| && dedicated == old(dedicated)
        invariant pool == old(pool)[nrActive := wp.(identity := None)]
        invariant ids == old(ids) - {wp.identity.value}
      {
        var idx := wp.ptrs[i];
        HandedNext(es, wp.ptrs, i);
        ClosedNext(es, wp.ptrs, i);
        BrokenOut(open);
        LinkedLength(open);
        var hasFree := 1 <= idx < open.entries.Length && open.entries[idx].sectorsFree > 0;
        if hasFree { open.AddToPartial(idx); } else { open.Put(idx); }
        BrokenOut(open);
      }
      assert wp.ptrs[..|wp.ptrs|] == wp.ptrs;
      CleanedMatched(pool, ids, nrActive);
      pool := pool[nrActive := pool[nrActive].(ptrs := [], sectorsFree := 0)];
      done := true;
    }
  }

  lemma PoolFacts(pool: OpenBucketPool)
    requires pool.Valid()
    ensures pool.Linked() && pool.entries.Length == OPEN_BUCKETS_COUNT + 1 && pool.Open() == Opens(pool.entries[..])
  {}

  lemma LinkedLength(pool: OpenBucketPool)
    requires pool.Linked()
    ensures pool.entries.Length == OPEN_BUCKETS_COUNT + 1 && pool.Open() == Opens(pool.entries[..])
  {}

  /** A circular freelist is not in order. */
  lemma BrokenOut(pool: OpenBucketPool)
    ensures pool.Broken() ==> !pool.Valid()
  {
    if pool.Broken() { CircularNoList(pool.entries[..], pool.freelistHead, pool.free); }
  }

  lemma LaterNext(pool: Points, active: nat, i: nat, p: WritePoint, now: nat)
    requires i < |pool| && i <= active && p.lastUsed == now
    ensures Later(pool, active, now) ==> Later(pool[i := p], if i == active then active + 1 else active, now + 1)
  {}

  lemma HeldSlot(pool: Points, ids: Slots, active: nat, v: nat)
    requires Matched(pool, ids, active) && v in ids
    ensures ids[v] < active <= |pool| && pool[ids[v]].identity == Some(v)
  {}

  lemma ActiveBound(pool: Points, ids: Slots, active: nat)
    requires Matched(pool, ids, active)
    ensures active <= |pool|
  {}

  lemma TouchAll(pool: Points, ids: Slots, active: nat, v: nat, now: nat)
    requires Matched(pool, ids, active) && v in ids && ids[v] < |pool|
    ensures Later(pool, active, now) ==>
              forall order :: Ordered(pool, ids, order) ==>
                                Ordered(pool[ids[v] := pool[ids[v]].(lastUsed := now)], ids, Resolved(order, v, |pool|))
  {
    forall order | Later(pool, active, now) && Ordered(pool, ids, order)
      ensures Ordered(pool[ids[v] := pool[ids[v]].(lastUsed := now)], ids, Resolved(order, v, |pool|))
    {
      OrderTouch(pool, ids, active, order, v, now);
      assert v in order;
    }
  }

  lemma {:induction false} OrderCount(order: seq<nat>, ids: Slots)
    requires NoRepeats(order) && forall v :: v in order <==> v in ids
    ensures |order| == |ids|
  {
    if order == [] {
      assert forall v :: v in ids <==> v in order;
      EmptyIds(ids);
    } else {
      var v := order[0];
      assert order == [v] + order[1..] && v in order;
      assert v !in order[1..];
      OrderCount(order[1..], ids - {v});
      assert (ids - {v}).Keys == ids.Keys - {v};
      assert |ids - {v}| == |(ids - {v}).Keys| && |ids| == |ids.Keys|;
    }
  }

  lemma NewAll(pool: Points, ids: Slots, active: nat, v: nat, p: WritePoint, now: nat)
    requires Matched(pool, ids, active) && active < |pool| && v !in ids && p.lastUsed == now
    ensures Later(pool, active, now) ==>
              forall order :: Ordered(pool, ids, order) ==>
                  Ordered(pool[active := p], ids[v := active], Resolved(order, v, |pool|))
  {
    forall order | Later(pool, active, now) && Ordered(pool, ids, order)
      ensures Ordered(pool[active := p], ids[v := active], Resolved(order, v, |pool|))
    {
      OrderNew(pool, ids, active, order, v, p, now);
      OrderCount(order, ids);
      MatchedCount(pool, ids, active);
    }
  }

  lemma ReplaceAll(pool: Points, ids: Slots, active: nat, i: nat, v: nat, p: WritePoint, now: nat)
    requires Matched(pool, ids, active) && active == |pool| && i < active && v !in ids && p.lastUsed == now
    requires forall j :: 0 <= j < active ==> pool[i].lastUsed <= pool[j].lastUsed
    ensures pool[i].identity.Some?
    ensures Later(pool, active, now) ==>
              forall order :: Ordered(pool, ids, order) ==>
                                Ordered(pool[i := p], (ids - {pool[i].identity.value})[v := i],
                                        Resolved(order, v, |pool|))
  {
    assert SlotHolds(pool, ids, i);
    forall order | Later(pool, active, now) && Ordered(pool, ids, order)
      ensures Ordered(pool[i := p], (ids - {pool[i].identity.value})[v := i], Resolved(order, v, |pool|))
    {
      OldestIsFirst(pool, ids, active, order, i);
      OrderReplace(pool, ids, active, order, i, v, p, now);
      OrderCount(order, ids);
      MatchedCount(pool, ids, active);
    }
  }

  lemma DropAll(pool: Points, ids: Slots, active: nat)
    requires Matched(pool, ids, active) && 0 < active <= |pool| && SlotHolds(pool, ids, active - 1)
    ensures var v := pool[active - 1].identity.value;
            var b := pool[active - 1 := pool[active - 1].(identity := None, ptrs := [], sectorsFree := 0)];
            forall order :: Ordered(pool, ids, order) ==> Ordered(b, ids - {v}, Dropped(order, v))
  {
    var v := pool[active - 1].identity.value;
    var b := pool[active - 1 := pool[active - 1].(identity := None, ptrs := [], sectorsFree := 0)];
    forall order | Ordered(pool, ids, order) ensures Ordered(b, ids - {v}, Dropped(order, v)) {
      OrderDrop(pool, ids, active, order, v);
      var a := pool[active - 1 := pool[active - 1].(identity := None)];
      OrderSame(a, b, ids - {v}, Dropped(order, v));
    }
  }

  /** The order depends on the times of use only. */
  lemma OrderSame(a: Points, b: Points, ids: Slots, order: seq<nat>)
    requires Ordered(a, ids, order) && |a| == |b| && forall i :: 0 <= i < |a| ==> a[i].lastUsed == b[i].lastUsed
    ensures Ordered(b, ids, order)
  {
    forall i, j | 0 <= i < j < |order|
      ensures Earlier(b, ids, order[i], order[j])
    {
      assert Earlier(a, ids, order[i], order[j]);
    }
  }

  lemma CleanedMatched(pool: Points, ids: Slots, active: nat)
    requires Matched(pool, ids, active) && active < |pool|
    ensures Matched(pool[active := pool[active].(ptrs := [], sectorsFree := 0)], ids, active)
  {
    MatchedTouch(pool, ids, active, active, pool[active].(ptrs := [], sectorsFree := 0));
  }

  /** An entry of the pool that has no space left, open or not. */
  predicate Full(es: seq<Entry>, idx: nat) { 1 <= idx < |es| && es[idx].sectorsFree == 0 }

  /** Each full bucket of the list is open and stands in it once. */
  ghost predicate ClosedOnce(es: seq<Entry>, ptrs: seq<nat>) {
    forall i :: 0 <= i < |ptrs| && Full(es, ptrs[i]) ==> es[ptrs[i]].valid && ptrs[i] !in ptrs[..i]
  }

  lemma ClosedNone(es: seq<Entry>, ptrs: seq<nat>)
    ensures ClosedOnce(es, ptrs[..0])
  {}

  lemma ClosedNext(es: seq<Entry>, ptrs: seq<nat>, i: nat)
    requires i < |ptrs|
    ensures ClosedOnce(es, ptrs[..i + 1]) <==>
            ClosedOnce(es, ptrs[..i]) && (Full(es, ptrs[i]) ==> es[ptrs[i]].valid && ptrs[i] !in ptrs[..i])
  {
    var a, b := ptrs[..i], ptrs[..i + 1];
    assert b[i] == ptrs[i] && b[..i] == a;
    forall j | 0 <= j < i ensures a[j] == b[j] && a[..j] == b[..j] {}
  }

  /** Buckets handed back: with space left they are listed as partial, else closed. */
  function HandedBack(open: map<nat, OpenBucket>, ptrs: seq<nat>): map<nat, OpenBucket> {
    map x | x in open && !(x in ptrs && open[x].sectorsFree == 0) ::
      if x in ptrs then open[x].(onPartial := true) else open[x]
  }

  lemma HandedNone(open: map<nat, OpenBucket>, ptrs: seq<nat>)
    ensures HandedBack(open, ptrs[..0]) == open
  {}

  /** One more bucket handed back. */
  lemma HandedNext(es: seq<Entry>, ptrs: seq<nat>, i: nat)
    requires i < |ptrs|
    ensures var o, idx := Opens(es), ptrs[i];
            var b, c := HandedBack(o, ptrs[..i]), HandedBack(o, ptrs[..i + 1]);
            && (idx in b <==> 1 <= idx < |es| && es[idx].valid && !(idx in ptrs[..i] && Full(es, idx)))
            && (Full(es, idx) || !(1 <= idx < |es|) ==> c == b - {idx})
            && (1 <= idx < |es| && !Full(es, idx) ==> c == if idx in b then b[idx := b[idx].(onPartial := true)] else b)
  {
    assert ptrs[..i + 1] == ptrs[..i] + [ptrs[i]];
  }

  // ---- finishing a write point ----

  /** The entry of a bucket on a write point has less space than asked for. */
  predicate Short(es: seq<Entry>, idx: nat, size: nat) { 1 <= idx < |es| && es[idx].sectorsFree < size }

  function Released(ptrs: seq<nat>, es: seq<Entry>, size: nat): seq<nat> {
    if ptrs == [] then []
    else Released(ptrs[..|ptrs| - 1], es, size) + if Short(es, ptrs[|ptrs| - 1], size) then [ptrs[|ptrs| - 1]] else []
  }

  function Retained(ptrs: seq<nat>, es: seq<Entry>, size: nat): seq<nat> {
    if ptrs == [] then []
    else Retained(ptrs[..|ptrs| - 1], es, size) + if Short(es, ptrs[|ptrs| - 1], size) then [] else [ptrs[|ptrs| - 1]]
  }

  function SpaceOf(ptrs: seq<nat>, es: seq<Entry>): nat {
    if ptrs == [] then 0
    else
      var last := ptrs[|ptrs| - 1];
      SpaceOf(ptrs[..|ptrs| - 1], es) + if 1 <= last < |es| then es[last].sectorsFree else 0
  }

  /** Every bucket is either released or retained, and those retained have the space. */
  lemma {:induction false} DonePartitions(ptrs: seq<nat>, es: seq<Entry>, size: nat)
    ensures multiset(Released(ptrs, es, size)) + multiset(Retained(ptrs, es, size)) == multiset(ptrs)
    ensures forall x :: x in Released(ptrs, es, size) <==> x in ptrs && Short(es, x, size)
    ensures forall x :: x in Retained(ptrs, es, size) <==> x in ptrs && !Short(es, x, size)
  {
    if ptrs != [] {
      DonePartitions(ptrs[..|ptrs| - 1], es, size);
      assert ptrs == ptrs[..|ptrs| - 1] + [ptrs[|ptrs| - 1]];
    }
  }

  /** Detaches the buckets that are short of space to the partial list. */
  method Done(wp: WritePoint, bucketSize: nat, open: OpenBucketPool) returns (wp': WritePoint, released: seq<nat>)
    requires open.Valid()
    modifies open, open.entries
    ensures open.Valid() && released == Released(wp.ptrs, old(open.entries[..]), bucketSize)
    ensures wp' == wp.(prevSectorsFree := wp.sectorsFree, ptrs := Retained(wp.ptrs, old(open.entries[..]), bucketSize),
                       sectorsFree :=
                         SpaceOf(Retained(wp.ptrs, old(open.entries[..]), bucketSize), old(open.entries[..])))
    ensures forall x :: x in open.Open() <==> x in old(open.Open())
    ensures forall x :: x in open.Open() ==>
              open.Open()[x] == if x in released then old(open.Open())[x].(onPartial := true) else old(open.Open())[x]
  {
    hide Opens, OpenBucketPool.Valid, Released, Retained, SpaceOf;
    ghost var es := open.entries[..];
    var kept;
    kept, released := Detach(wp.ptrs, bucketSize, open);
    var space := Space(kept, open.entries);
    SpaceSame(kept, open.entries[..], es);
    wp' := wp.(prevSectorsFree := wp.sectorsFree, ptrs := kept, sectorsFree := space);
  }

  method Detach(ptrs: seq<nat>, bucketSize: nat, open: OpenBucketPool) returns (kept: seq<nat>, released: seq<nat>)
    requires open.Valid()
    modifies open, open.entries
    ensures open.Valid() && SameSpace(open.entries[..], old(open.entries[..]))
    ensures released == Released(ptrs, old(open.entries[..]), bucketSize)
    ensures kept == Retained(ptrs, old(open.entries[..]), bucketSize)
    ensures open.Open() == ListedPartial(old(open.Open()), released)
  {
    hide Opens, OpenBucketPool.Valid, OpenBucketPool.Linked, OpenBucketPool.Broken, ListedPartial, Released, Retained;
    ghost var es := open.entries[..];
    kept, released := [], [];
    NoneDetached(ptrs, es, bucketSize, open.Open());
    for i := 0 to |ptrs|
      invariant open.Valid() && SameSpace(open.entries[..], es)
      invariant released == Released(ptrs[..i], es, bucketSize) && kept == Retained(ptrs[..i], es, bucketSize)
      invariant open.Open() == ListedPartial(old(open.Open()), released)
    {
      var idx := ptrs[i];
      PoolFacts(open);
      NextDetached(ptrs, es, bucketSize, i);
      var short := 1 <= idx < open.entries.Length && open.entries[idx].sectorsFree < bucketSize;
      if short {
        PartialNext(old(open.Open()), released, idx);
        open.AddToPartial(idx);
        released := released + [idx];
      } else {
        kept := kept + [idx];
      }
    }
    assert ptrs[..|ptrs|] == ptrs;
  }

  lemma NoneDetached(ptrs: seq<nat>, es: seq<Entry>, size: nat, open: map<nat, OpenBucket>)
    ensures Released(ptrs[..0], es, size) == Retained(ptrs[..0], es, size) == [] && ListedPartial(open, []) == open
  {}

  lemma NextDetached(ptrs: seq<nat>, es: seq<Entry>, size: nat, i: nat)
    requires i < |ptrs|
    ensures Released(ptrs[..i + 1], es, size) ==
            Released(ptrs[..i], es, size) + if Short(es, ptrs[i], size) then [ptrs[i]] else []
    ensures Retained(ptrs[..i + 1], es, size) ==
            Retained(ptrs[..i], es, size) + if Short(es, ptrs[i], size) then [] else [ptrs[i]]
  {
    assert ptrs[..i + 1][..i] == ptrs[..i];
  }

  /** The space left in the buckets of a list. */
  method Space(ptrs: seq<nat>, entries: array<Entry>) returns (space: nat)
    ensures space == SpaceOf(ptrs, entries[..])
  {
    space := 0;
    for i := 0 to |ptrs|
      invariant space == SpaceOf(ptrs[..i], entries[..])
    {
      assert ptrs[..i + 1][..i] == ptrs[..i];
      if 1 <= ptrs[i] < entries.Length { space := space + entries[ptrs[i]].sectorsFree; }
    }
    assert ptrs[..|ptrs|] == ptrs;
  }

  lemma {:induction false} SpaceSame(ptrs: seq<nat>, a: seq<Entry>, b: seq<Entry>)
    requires SameSpace(a, b)
    ensures SpaceOf(ptrs, a) == SpaceOf(ptrs, b)
  {
    if ptrs != [] { SpaceSame(ptrs[..|ptrs| - 1], a, b); }
  }

  ghost predicate SameSpace(a: seq<Entry>, b: seq<Entry>) {
    |a| == |b| && forall i :: 0 <= i < |a| ==> a[i].sectorsFree == b[i].sectorsFree
  }

  function ListedPartial(open: map<nat, OpenBucket>, ids: seq<nat>): map<nat, OpenBucket> {
    map x | x in open :: if x in ids then open[x].(onPartial := true) else open[x]
  }

  lemma PartialNext(open: map<nat, OpenBucket>, ids: seq<nat>, id: nat)
    ensures id in ListedPartial(open, ids) <==> id in open
    ensures id in open ==>
              ListedPartial(open, ids + [id]) ==
              ListedPartial(open, ids)[id := ListedPartial(open, ids)[id].(onPartial := true)]
    ensures id !in open ==> ListedPartial(open, ids + [id]) == ListedPartial(open, ids)
  {}
}
