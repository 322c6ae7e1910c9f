/** The bucket allocator: groups of buckets with free stacks and counters, the open-bucket
    pool, and the log of bucket states it recovers from. */
module Allocation {
  import opened Wrappers
  import opened Layouts
  import opened Sequences
  import opened Numbers
  import opened Watermarks
  import opened OpenBuckets


  datatype DataType = Free | User | NeedDiscard
  datatype Bucket = Bucket(state: DataType, version: nat)
  datatype Group = Group(start: nat, blockCount: nat, buckets: seq<Bucket>, freeBuckets: nat, freeList: seq<nat>)

  /** One entry of the Alloc log, which keeps the last entry written per bucket index. */
  datatype AllocEntry = AllocEntry(group: nat, state: DataType, version: nat)
  type Log = map<nat, AllocEntry>

  datatype AllocError = AddressSpaceExhausted(maxAddr: nat)

  function CountFree(bs: seq<Bucket>): (c: nat)
    ensures c <= |bs|
  {
    if bs == [] then 0 else CountFree(bs[..|bs| - 1]) + if bs[|bs| - 1].state.Free? then 1 else 0
  }

  lemma {:induction false} CountFreeUpdate(bs: seq<Bucket>, i: nat, b: Bucket)
    requires i < |bs|
    ensures CountFree(bs[i := b]) ==
            CountFree(bs) - (if bs[i].state.Free? then 1 else 0) + (if b.state.Free? then 1 else 0)
  {
    if i < |bs| - 1 {
      CountFreeUpdate(bs[..|bs| - 1], i, b);
      assert bs[i := b][..|bs| - 1] == bs[..|bs| - 1][i := b];
    } else {
      assert bs[i := b][..|bs| - 1] == bs[..|bs| - 1];
    }
  }

  lemma {:induction false} CountFreeFinds(bs: seq<Bucket>)
    ensures CountFree(bs) > 0 <==> exists i :: 0 <= i < |bs| && bs[i].state.Free?
  {
    if bs != [] { CountFreeFinds(bs[..|bs| - 1]); }
  }

  /** Number of buckets that are not free, over all groups. */
  function Busy(gs: seq<Group>): nat {
    if gs == [] then 0
    else Busy(gs[..|gs| - 1]) + (|gs[|gs| - 1].buckets| - CountFree(gs[|gs| - 1].buckets))
  }

  lemma {:induction false} BusyUpdate(gs: seq<Group>, i: nat, g: Group)
    requires i < |gs| && |g.buckets| == |gs[i].buckets|
    ensures Busy(gs[i := g]) == Busy(gs) + CountFree(gs[i].buckets) - CountFree(g.buckets)
  {
    if i < |gs| - 1 {
      BusyUpdate(gs[..|gs| - 1], i, g);
      assert gs[i := g][..|gs| - 1] == gs[..|gs| - 1][i := g];
    } else {
      assert gs[i := g][..|gs| - 1] == gs[..|gs| - 1];
    }
  }

  // ---- what an allocator keeps ----

  function BucketCount(blocks: nat): nat { (blocks + BLOCKS_PER_BUCKET - 1) / BLOCKS_PER_BUCKET }

  function Addr(g: Group, bi: nat): nat { g.start + bi * BLOCKS_PER_BUCKET }

  /** Index under which the log keeps the first bucket of a group. */
  function FirstIndex(g: Group): nat { IndexOf(g.start) }

  /** Groups follow one another at the distance of the group size, the last one may be short. */
  ghost predicate Laid(gs: seq<Group>, size: nat, total: nat) {
    && size > 0 && size % BLOCKS_PER_BUCKET == 0
    && (forall i :: 0 <= i < |gs| ==>
          && gs[i].start < total && gs[i].blockCount == Min(size, total - gs[i].start)
          && |gs[i].buckets| == BucketCount(gs[i].blockCount))
    && (forall i, j :: 0 <= i < j < |gs| ==>
          gs[i].start + size <= gs[j].start && gs[i].start % BLOCKS_PER_BUCKET == gs[j].start % BLOCKS_PER_BUCKET)
  }

  /** The free stack holds free buckets only, each once; the counter counts all of them. */
  ghost predicate GroupOk(g: Group) {
    && NoRepeats(g.freeList)
    && (forall i :: 0 <= i < |g.freeList| ==> g.freeList[i] < |g.buckets| && g.buckets[g.freeList[i]].state.Free?)
    && g.freeBuckets == CountFree(g.buckets)
  }

  /** An open entry names a bucket in use at the version it has now. */
  ghost predicate NamesUser(gs: seq<Group>, o: OpenBucket) {
    o.group < |gs| && o.bucket < |gs[o.group].buckets| && gs[o.group].buckets[o.bucket] == Bucket(User, o.gen)
  }

  ghost predicate OpenOk(gs: seq<Group>, open: map<nat, OpenBucket>) {
    && (forall x :: x in open ==> NamesUser(gs, open[x]))
    && (forall x, y :: x in open && y in open && x != y ==> !SameBucket(open[x], open[y]))
  }

  predicate SameBucket(o: OpenBucket, p: OpenBucket) { o.group == p.group && o.bucket == p.bucket }

  ghost predicate Sound(gs: seq<Group>, inUse: nat, open: map<nat, OpenBucket>, size: nat, total: nat) {
    && Laid(gs, size, total)
    && (forall i :: 0 <= i < |gs| ==> GroupOk(gs[i]))
    && inUse == BLOCKS_PER_BUCKET * Busy(gs)
    && OpenOk(gs, open)
  }

  /** What the log says about a bucket: free at version 0 until something was written. */
  ghost predicate Recorded(log: Log, g: Group, bi: nat)
    requires bi < |g.buckets|
  {
    var i := FirstIndex(g) + bi;
    g.buckets[bi] == if i in log then Bucket(log[i].state, log[i].version) else Bucket(Free, 0)
  }

  /** The log tells every bucket's state and version. */
  ghost predicate Logged(gs: seq<Group>, log: Log) {
    forall gi, bi {:trigger Recorded(log, gs[gi], bi)} ::
      0 <= gi < |gs| && 0 <= bi < |gs[gi].buckets| ==> Recorded(log, gs[gi], bi)
  }

  /** Buckets of different groups, or different buckets, are at different addresses and
      under different log indices. */
  lemma BucketsApart(gs: seq<Group>, size: nat, total: nat, gi: nat, bi: nat, gj: nat, bj: nat)
    requires Laid(gs, size, total) && gi < |gs| && gj < |gs|
    requires bi < |gs[gi].buckets| && bj < |gs[gj].buckets| && (gi != gj || bi != bj)
    ensures Addr(gs[gi], bi) != Addr(gs[gj], bj)
    ensures FirstIndex(gs[gi]) + bi != FirstIndex(gs[gj]) + bj
  {
    if gi < gj { GroupsApart(gs, size, total, gi, gj); }
    if gj < gi { GroupsApart(gs, size, total, gj, gi); }
  }

  lemma GroupsApart(gs: seq<Group>, size: nat, total: nat, i: nat, j: nat)
    requires Laid(gs, size, total) && i < j < |gs|
    ensures gs[i].start + BLOCKS_PER_BUCKET * |gs[i].buckets| <= gs[j].start
    ensures FirstIndex(gs[i]) + |gs[i].buckets| <= FirstIndex(gs[j])
  {
    assert |gs[i].buckets| <= size / BLOCKS_PER_BUCKET;
  }

  /** A bucket changes its state or version: what the counters become. */
  function SetBucket(g: Group, bi: nat, b: Bucket): Group
    requires bi < |g.buckets|
  {
    g.(buckets := g.buckets[bi := b])
  }

  lemma SetBucketLogged(gs: seq<Group>, size: nat, total: nat, log: Log, gi: nat, bi: nat, b: Bucket, g': Group)
    requires Laid(gs, size, total) && Logged(gs, log) && gi < |gs| && bi < |gs[gi].buckets|
    requires g'.start == gs[gi].start && g'.buckets == gs[gi].buckets[bi := b]
    ensures Logged(gs[gi := g'], log[FirstIndex(gs[gi]) + bi := AllocEntry(gi, b.state, b.version)])
  {
    var gs', log' := gs[gi := g'], log[FirstIndex(gs[gi]) + bi := AllocEntry(gi, b.state, b.version)];
    forall gj, bj | 0 <= gj < |gs'| && 0 <= bj < |gs'[gj].buckets| ensures Recorded(log', gs'[gj], bj) {
      assert Recorded(log, gs[gj], bj);
      if gi != gj || bi != bj { BucketsApart(gs, size, total, gi, bi, gj, bj); }
    }
  }

  // ---- what the steps keep ----

  ghost predicate SameFrame(g: Group, h: Group) {
    g.start == h.start && g.blockCount == h.blockCount && |g.buckets| == |h.buckets|
  }

  /** One group changes inside its frame: the rest of the invariant follows. */
  lemma ReplaceSound(gs: seq<Group>, inUse: nat, open: map<nat, OpenBucket>, size: nat, total: nat,
                     gi: nat, g: Group, inUse': nat, open': map<nat, OpenBucket>)
    requires Sound(gs, inUse, open, size, total) && gi < |gs| && SameFrame(g, gs[gi]) && GroupOk(g)
    requires inUse' == inUse + BLOCKS_PER_BUCKET * CountFree(gs[gi].buckets) - BLOCKS_PER_BUCKET * CountFree(g.buckets)
    requires OpenOk(gs[gi := g], open')
    ensures Sound(gs[gi := g], inUse', open', size, total)
  {
    hide GroupOk, OpenOk, CountFree, Busy;
    BusyUpdate(gs, gi, g);
  }

  lemma CountedGroup(gs: seq<Group>, inUse: nat, open: map<nat, OpenBucket>, size: nat, total: nat, gi: nat)
    requires Sound(gs, inUse, open, size, total) && gi < |gs|
    ensures GroupOk(gs[gi]) && gs[gi].freeBuckets == CountFree(gs[gi].buckets) && OpenOk(gs, open)
  {}

  function Claimed(g: Group, bi: nat): Group
    requires bi < |g.buckets|
  {
    var left := if g.freeBuckets > 0 then g.freeBuckets - 1 else 0;
    SetBucket(g, bi, Bucket(User, g.buckets[bi].version + 1)).(freeBuckets := left)
  }

  lemma ClaimedOk(g: Group, bi: nat)
    requires GroupOk(g) && bi < |g.buckets| && g.buckets[bi].state.Free? && bi !in g.freeList
    ensures g.freeBuckets > 0 && GroupOk(Claimed(g, bi)) &&
            CountFree(Claimed(g, bi).buckets) == CountFree(g.buckets) - 1
  {
    CountFreeFinds(g.buckets);
    CountFreeUpdate(g.buckets, bi, Bucket(User, g.buckets[bi].version + 1));
  }

  lemma ClaimedOpen(gs: seq<Group>, open: map<nat, OpenBucket>, gi: nat, bi: nat, idx: nat, g: Group, v: nat)
    requires OpenOk(gs, open) && gi < |gs| && bi < |gs[gi].buckets| && gs[gi].buckets[bi].state.Free? && idx !in open
    requires SameFrame(g, gs[gi]) && g.buckets == gs[gi].buckets[bi := Bucket(User, v)]
    ensures OpenOk(gs[gi := g], open[idx := OpenBucket(1, gi, bi, BLOCKS_PER_BUCKET, false, v)])
  {
    var open', gs' := open[idx := OpenBucket(1, gi, bi, BLOCKS_PER_BUCKET, false, v)], gs[gi := g];
    forall x | x in open' ensures NamesUser(gs', open'[x]) { assert x in open ==> NamesUser(gs, open[x]); }
    forall x, y | x in open' && y in open' && x != y ensures !SameBucket(open'[x], open'[y]) {
      assert x in open ==> NamesUser(gs, open[x]);
      assert y in open ==> NamesUser(gs, open[y]);
    }
  }

  /** A free bucket comes into use under a new open entry. */
  lemma ClaimSound(gs: seq<Group>, inUse: nat, open: map<nat, OpenBucket>, size: nat, total: nat,
                   gi: nat, bi: nat, idx: nat)
    requires Sound(gs, inUse, open, size, total) && gi < |gs| && bi < |gs[gi].buckets|
    requires gs[gi].buckets[bi].state.Free? && bi !in gs[gi].freeList && idx !in open
    ensures gs[gi].freeBuckets > 0
    ensures Sound(gs[gi := Claimed(gs[gi], bi)], inUse + BLOCKS_PER_BUCKET,
                  open[idx := OpenBucket(1, gi, bi, BLOCKS_PER_BUCKET, false, gs[gi].buckets[bi].version + 1)],
                  size, total)
  {
    hide Sound, GroupOk, OpenOk, CountFree;
    CountedGroup(gs, inUse, open, size, total, gi);
    ClaimedOk(gs[gi], bi);
    ClaimedOpen(gs, open, gi, bi, idx, Claimed(gs[gi], bi), gs[gi].buckets[bi].version + 1);
    ReplaceSound(gs, inUse, open, size, total, gi, Claimed(gs[gi], bi), inUse + BLOCKS_PER_BUCKET,
                 open[idx := OpenBucket(1, gi, bi, BLOCKS_PER_BUCKET, false, gs[gi].buckets[bi].version + 1)]);
  }

  function Popped(g: Group): Group {
    if g.freeList == [] then g else g.(freeList := g.freeList[..|g.freeList| - 1])
  }

  lemma PopSound(gs: seq<Group>, inUse: nat, open: map<nat, OpenBucket>, size: nat, total: nat, gi: nat)
    requires Sound(gs, inUse, open, size, total) && gi < |gs|
    ensures Sound(gs[gi := Popped(gs[gi])], inUse, open, size, total)
    ensures gs[gi].freeList != [] ==>
              var bi := gs[gi].freeList[|gs[gi].freeList| - 1];
              bi < |gs[gi].buckets| && gs[gi].buckets[bi].state.Free? && bi !in Popped(gs[gi]).freeList
  {
    hide Sound, CountFree;
    CountedGroup(gs, inUse, open, size, total, gi);
    SameOpen(gs, open, open, gi, Popped(gs[gi]));
    ReplaceSound(gs, inUse, open, size, total, gi, Popped(gs[gi]), inUse, open);
  }

  /** Open entries that are left all name buckets that did not change. */
  lemma SameOpen(gs: seq<Group>, open: map<nat, OpenBucket>, open': map<nat, OpenBucket>, gi: nat, g: Group)
    requires OpenOk(gs, open) && gi < |gs| && SameFrame(g, gs[gi])
    requires forall x :: x in open' ==> x in open && open'[x] == open[x]
    requires forall x :: x in open' && open'[x].group == gi && open'[x].bucket < |g.buckets| ==>
                           g.buckets[open'[x].bucket] == gs[gi].buckets[open'[x].bucket]
    ensures OpenOk(gs[gi := g], open')
  {
    forall x | x in open' ensures NamesUser(gs[gi := g], open'[x]) { assert NamesUser(gs, open[x]); }
  }

  lemma ReleasedOk(g: Group, bi: nat, v: nat)
    requires GroupOk(g) && bi < |g.buckets| && !g.buckets[bi].state.Free?
    ensures GroupOk(SetBucket(g, bi, Bucket(NeedDiscard, v)))
    ensures CountFree(SetBucket(g, bi, Bucket(NeedDiscard, v)).buckets) == CountFree(g.buckets)
  {
    CountFreeUpdate(g.buckets, bi, Bucket(NeedDiscard, v));
  }

  /** A bucket in use is given back; no open entry names it any more. */
  lemma ReleaseSound(gs: seq<Group>, inUse: nat, open: map<nat, OpenBucket>, open': map<nat, OpenBucket>, size: nat,
                     total: nat, gi: nat, bi: nat, v: nat)
    requires Sound(gs, inUse, open, size, total) && gi < |gs| && bi < |gs[gi].buckets|
    requires !gs[gi].buckets[bi].state.Free?
    requires forall x :: x in open' ==>
               x in open && open'[x] == open[x] && !(open[x].group == gi && open[x].bucket == bi)
    ensures Sound(gs[gi := SetBucket(gs[gi], bi, Bucket(NeedDiscard, v))], inUse, open', size, total)
  {
    hide Sound, GroupOk, OpenOk, CountFree;
    CountedGroup(gs, inUse, open, size, total, gi);
    ReleasedOk(gs[gi], bi, v);
    SameOpen(gs, open, open', gi, SetBucket(gs[gi], bi, Bucket(NeedDiscard, v)));
    ReplaceSound(gs, inUse, open, size, total, gi, SetBucket(gs[gi], bi, Bucket(NeedDiscard, v)), inUse, open');
  }

  function Trimmed(g: Group, bi: nat): Group
    requires bi < |g.buckets|
  {
    var h := SetBucket(g, bi, Bucket(Free, g.buckets[bi].version));
    h.(freeBuckets := g.freeBuckets + 1, freeList := g.freeList + [bi])
  }

  lemma TrimmedOk(g: Group, bi: nat)
    requires GroupOk(g) && bi < |g.buckets| && g.buckets[bi].state.NeedDiscard?
    ensures GroupOk(Trimmed(g, bi)) && CountFree(Trimmed(g, bi).buckets) == CountFree(g.buckets) + 1
  {
    CountFreeUpdate(g.buckets, bi, Bucket(Free, g.buckets[bi].version));
  }

  lemma TrimSound(gs: seq<Group>, inUse: nat, open: map<nat, OpenBucket>, size: nat, total: nat, gi: nat, bi: nat)
    requires Sound(gs, inUse, open, size, total) && gi < |gs| && bi < |gs[gi].buckets|
    requires gs[gi].buckets[bi].state.NeedDiscard?
    ensures inUse >= BLOCKS_PER_BUCKET
    ensures Sound(gs[gi := Trimmed(gs[gi], bi)], inUse - BLOCKS_PER_BUCKET, open, size, total)
  {
    hide GroupOk, OpenOk, CountFree, Laid, Busy;
    CountedGroup(gs, inUse, open, size, total, gi);
    TrimmedOk(gs[gi], bi);
    BusyUpdate(gs, gi, Trimmed(gs[gi], bi));
    NotOpen(gs, open, gi, bi);
    SameOpen(gs, open, open, gi, Trimmed(gs[gi], bi));
    ReplaceSound(gs, inUse, open, size, total, gi, Trimmed(gs[gi], bi), inUse - BLOCKS_PER_BUCKET, open);
  }

  /** A bucket that is not in state User is not open. */
  lemma NotOpen(gs: seq<Group>, open: map<nat, OpenBucket>, gi: nat, bi: nat)
    requires OpenOk(gs, open) && gi < |gs| && bi < |gs[gi].buckets| && !gs[gi].buckets[bi].state.User?
    ensures forall x :: x in open ==> !(open[x].group == gi && open[x].bucket == bi)
  {
    forall x | x in open ensures !(open[x].group == gi && open[x].bucket == bi) { assert NamesUser(gs, open[x]); }
  }

  // ---- choosing a group ----

  /** Enough free buckets beyond the reserve and the share of the open ones. */
  predicate Eligible(g: Group, w: Watermark, share: nat) { g.freeBuckets > Reserved(w, |g.buckets|) + share }

  predicate Stocked(g: Group, w: Watermark, share: nat) { Eligible(g, w, share) && g.freeList != [] }

  /** The group met at an offset from the start, going round. */
  function Rot(start: nat, off: nat, n: nat): (i: nat)
    requires n > 0
    ensures i < n
  {
    (start + off) % n
  }

  /** The offset at which a group is met. */
  function Turn(start: nat, i: nat, n: nat): nat
    requires start < n && i < n
  {
    if i >= start then i - start else i + n - start
  }

  /** Going round meets every group once. */
  lemma RotTurn(start: nat, off: nat, n: nat)
    requires start < n && off < n
    ensures Turn(start, Rot(start, off, n), n) == off
  {
    ModOnce(start + off, n);
  }

  lemma TurnRot(start: nat, i: nat, n: nat)
    requires start < n && i < n
    ensures Turn(start, i, n) < n && Rot(start, Turn(start, i, n), n) == i
  {
    ModOnce(start + Turn(start, i, n), n);
  }

  lemma ModOnce(x: nat, n: nat)
    requires n > 0 && x < 2 * n
    ensures x % n == if x < n then x else x - n
  {
    var d := x / n;
    assert x == n * d + x % n;
    MulAtLeast(n, d);
  }

  lemma MulAtLeast(n: nat, d: nat)
    ensures d >= 2 ==> n * d >= 2 * n
  {
    if d >= 2 { assert n * d == 2 * n + n * (d - 2) && n * (d - 2) >= 0; }
  }

  /** The first group in turn that satisfies what a pass looks for. */
  ghost predicate FirstStocked(gs: seq<Group>, w: Watermark, share: nat, start: nat, gi: nat) {
    && start < |gs| && gi < |gs| && Stocked(gs[gi], w, share)
    && forall j :: 0 <= j < |gs| && Turn(start, j, |gs|) < Turn(start, gi, |gs|) ==> !Stocked(gs[j], w, share)
  }

  ghost predicate FirstEligible(gs: seq<Group>, w: Watermark, share: nat, start: nat, gi: nat) {
    && start < |gs| && gi < |gs| && Eligible(gs[gi], w, share)
    && (forall j :: 0 <= j < |gs| ==> !Stocked(gs[j], w, share))
    && forall j :: 0 <= j < |gs| && Turn(start, j, |gs|) < Turn(start, gi, |gs|) ==> !Eligible(gs[j], w, share)
  }

  /** Which bucket an allocation takes: the top of the first stocked group's free stack; if
      no group is stocked, the lowest free bucket of the first eligible group. */
  ghost predicate Choice(gs: seq<Group>, w: Watermark, share: nat, start: nat, gi: nat, bi: nat) {
    || (FirstStocked(gs, w, share, start, gi) && bi == gs[gi].freeList[|gs[gi].freeList| - 1])
    || (FirstEligible(gs, w, share, start, gi) && LowestFree(gs[gi].buckets, bi))
  }

  ghost predicate LowestFree(bs: seq<Bucket>, bi: nat) {
    bi < |bs| && bs[bi].state.Free? && forall i :: 0 <= i < bi ==> !bs[i].state.Free?
  }

  /** What a pass over the free stacks leaves of a group when every open entry is taken: a
      stocked group has lost the index it tried. */
  function Tried(g: Group, w: Watermark, share: nat, full: bool): Group {
    if full && Stocked(g, w, share) then Popped(g) else g
  }

  ghost predicate Live(gs: seq<Group>, addr: nat) {
    exists gi, bi :: 0 <= gi < |gs| && 0 <= bi < |gs[gi].buckets| && Addr(gs[gi], bi) == addr &&
                     !gs[gi].buckets[bi].state.Free?
  }

  lemma NotLive(gs: seq<Group>, size: nat, total: nat, gi: nat, bi: nat)
    requires Laid(gs, size, total) && gi < |gs| && bi < |gs[gi].buckets| && gs[gi].buckets[bi].state.Free?
    ensures !Live(gs, Addr(gs[gi], bi))
  {
    forall gj, bj | 0 <= gj < |gs| && 0 <= bj < |gs[gj].buckets| && Addr(gs[gj], bj) == Addr(gs[gi], bi)
      ensures gs[gj].buckets[bj].state.Free?
    {
      if gi != gj || bi != bj { BucketsApart(gs, size, total, gi, bi, gj, bj); }
    }
  }

  /** All of an allocator's state. */
  datatype State = State(groups: seq<Group>, inUse: nat, log: Log, open: map<nat, OpenBucket>)

  /** The state after bucket bi of group gi came into use under open entry idx. */
  function Taken(s: State, gi: nat, bi: nat, idx: nat): State
    requires gi < |s.groups| && bi < |s.groups[gi].buckets|
  {
    var v := s.groups[gi].buckets[bi].version + 1;
    State(s.groups[gi := Claimed(s.groups[gi], bi)], s.inUse + BLOCKS_PER_BUCKET,
          s.log[FirstIndex(s.groups[gi]) + bi := AllocEntry(gi, User, v)],
          s.open[idx := OpenBucket(1, gi, bi, BLOCKS_PER_BUCKET, false, v)])
  }

  // ---- the allocator ----

  class Allocator {
    const totalBlocks: nat
    const groupSize: nat
    const open: OpenBucketPool
    var groups: seq<Group>
    var inUse: nat
    var log: Log

    ghost predicate Valid()
      reads this, open, open.entries, open.hashSlots
    {
      open.Valid() && Sound(groups, inUse, open.Open(), groupSize, totalBlocks)
    }

    ghost function Now(): State
      reads this, open, open.entries
    {
      State(groups, inUse, log, open.Open())
    }

    /** Divides the blocks from start on into groups of buckets, all free. */
    constructor (totalBlocks: nat, groupSize: nat, start: nat, pool: OpenBucketPool)
      requires groupSize > 0 && groupSize % BLOCKS_PER_BUCKET == 0
      requires pool.Valid() && pool.Open() == map[]
      ensures Valid() && open == pool && inUse == 0 && log == map[] && Logged(groups, log)
      ensures this.totalBlocks == totalBlocks && this.groupSize == groupSize
      ensures Placed(groups, start, groupSize, totalBlocks) && forall i :: 0 <= i < |groups| ==> AllFree(groups[i])
    {
      hide Laid, GroupOk, Logged, OpenBucketPool.Valid;
      var gs := BuildGroups(totalBlocks, groupSize, start);
      FreshSound(gs, groupSize, totalBlocks, start);
      this.totalBlocks, this.groupSize, open := totalBlocks, groupSize, pool;
      groups, inUse, log := gs, 0, map[];
    }

    // ---- allocating ----

    /** Puts a free bucket, no longer on the free stack, into use: state, open entry,
        counters and log; nothing changes if no open entry is left. */
    method Claim(gi: nat, bi: nat) returns (ok: bool, ghost idx: nat)
      requires Valid() && gi < |groups| && bi < |groups[gi].buckets|
      requires groups[gi].buckets[bi].state.Free?
      requires bi !in groups[gi].freeList || |open.Open()| == OPEN_BUCKETS_COUNT
      modifies this, open, open.entries, open.hashSlots
      ensures Valid()
      ensures ok <==> |old(open.Open())| < OPEN_BUCKETS_COUNT
      ensures !ok ==> Now() == old(Now())
      ensures ok ==> idx !in old(open.Open()) && Now() == Taken(old(Now()), gi, bi, idx)
    {
      hide Sound, CountFree, OpenBucketPool.Linked, OpenBuckets.FreeOk, Opens;
      var g := groups[gi];
      var v := g.buckets[bi].version + 1;
      groups := groups[gi := SetBucket(g, bi, Bucket(User, v))];
      var o := open.AllocLocked(gi, bi, BLOCKS_PER_BUCKET, v);
      PoolBound(open);
      if o.None? {
        groups := groups[gi := SetBucket(groups[gi], bi, Bucket(Free, v - 1))];
        assert groups[gi].buckets == g.buckets;
        assert groups == old(groups);
        return false, 0;
      }
      idx := o.value;
      ClaimSound(old(groups), inUse, old(open.Open()), groupSize, totalBlocks, gi, bi, idx);
      groups := groups[gi := groups[gi].(freeBuckets := groups[gi].freeBuckets - 1)];
      inUse := inUse + BLOCKS_PER_BUCKET;
      log := log[Addr(g, bi) / BLOCKS_PER_BUCKET := AllocEntry(gi, User, v)];
      ok := true;
      assert groups == old(groups)[gi := Claimed(g, bi)];
    }

    /** Takes the top of a free stack and claims the bucket; the index is lost from the stack
        even if the claim fails. */
    method PopAndClaim(gi: nat) returns (ok: bool, bi: nat, ghost idx: nat)
      requires Valid() && gi < |groups| && groups[gi].freeList != []
      modifies this, open, open.entries, open.hashSlots
      ensures Valid()
      ensures ok <==> |old(open.Open())| < OPEN_BUCKETS_COUNT
      ensures !ok ==> Now() == PoppedAt(old(Now()), gi)
      ensures ok ==> bi == old(groups)[gi].freeList[|old(groups)[gi].freeList| - 1] && bi < |old(groups)[gi].buckets|
      ensures ok ==> idx !in old(open.Open()) && Now() == Taken(PoppedAt(old(Now()), gi), gi, bi, idx)
    {
      hide Sound;
      bi := groups[gi].freeList[|groups[gi].freeList| - 1];
      PopSound(groups, inUse, open.Open(), groupSize, totalBlocks, gi);
      groups := groups[gi := Popped(groups[gi])];
      ok, idx := Claim(gi, bi);
    }

    /** The share of the open buckets each group is charged with. */
    method OpenShare() returns (share: nat)
      requires Valid() && groups != []
      ensures share == ShareNow() && |open.Open()| <= OPEN_BUCKETS_COUNT
    {
      hide Sound, Opens, OpenBucketPool.Valid, PerGroup;
      PoolBound(open);
      share := PerGroup(OPEN_BUCKETS_COUNT - open.nrFree, |groups|);
    }

    /** First pass: pops the free stack of each eligible group in turn. */
    method StackPass(w: Watermark, start: nat) returns (o: Option<(nat, nat)>, ghost idx: nat)
      requires Valid() && start < |groups|
      modifies this, open, open.entries, open.hashSlots
      ensures Valid()
      ensures o.Some? <==> |old(open.Open())| < OPEN_BUCKETS_COUNT &&
                           exists j :: 0 <= j < |old(groups)| && Stocked(old(groups)[j], w, old(ShareNow()))
      ensures o.Some? ==>
                var (gi, bi) := o.value;
                && FirstStocked(old(groups), w, old(ShareNow()), start, gi)
                && bi == old(groups)[gi].freeList[|old(groups)[gi].freeList| - 1]
                && bi < |old(groups)[gi].buckets| && idx !in old(open.Open())
                && Now() == Taken(PoppedAt(old(Now()), gi), gi, bi, idx)
      ensures o.None? ==> Now() == TriedAll(old(Now()), w, old(ShareNow()), |old(open.Open())| == OPEN_BUCKETS_COUNT)
    {
      hide Allocator.Valid, Eligible, Taken, Popped, Opens;
      var n := |groups|;
      var share := OpenShare();
      ghost var full := |open.Open()| == OPEN_BUCKETS_COUNT;
      for off := 0 to n
        invariant Valid() && |groups| == n
        invariant inUse == old(inUse) && log == old(log) && open.Open() == old(open.Open())
        invariant forall j :: 0 <= j < n ==>
                    groups[j] ==
                    if Turn(start, j, n) < off then Tried(old(groups)[j], w, share, full) else old(groups)[j]
        invariant !full ==> forall j :: 0 <= j < n && Turn(start, j, n) < off ==> !Stocked(old(groups)[j], w, share)
      {
        var gi := Rot(start, off, n);
        RotTurn(start, off, n);
        OnlyTurn(start, off, n);
        if !Eligible(groups[gi], w, share) || groups[gi].freeList == [] { continue; }
        if !full { assert groups == old(groups); }
        var ok, bi;
        ok, bi, idx := PopAndClaim(gi);
        if ok { return Some((gi, bi)), idx; }
      }
      forall j | 0 <= j < n ensures Turn(start, j, n) < n { TurnRot(start, j, n); }
      o, idx := None, 0;
    }

    /** Second pass, over the buckets themselves: for eligible groups with an empty stack. */
    method ScanPass(w: Watermark, start: nat) returns (o: Option<(nat, nat)>, ghost idx: nat)
      requires Valid() && start < |groups|
      requires |open.Open()| < OPEN_BUCKETS_COUNT ==>
                 forall j :: 0 <= j < |groups| ==> !Stocked(groups[j], w, ShareNow())
      modifies this, open, open.entries, open.hashSlots
      ensures Valid()
      ensures o.Some? <==> |old(open.Open())| < OPEN_BUCKETS_COUNT &&
                           exists j :: 0 <= j < |old(groups)| && Eligible(old(groups)[j], w, old(ShareNow()))
      ensures o.Some? ==>
                var (gi, bi) := o.value;
                && FirstEligible(old(groups), w, old(ShareNow()), start, gi) && LowestFree(old(groups)[gi].buckets, bi)
                && idx !in old(open.Open()) && Now() == Taken(old(Now()), gi, bi, idx)
      ensures o.None? ==> Now() == old(Now())
    {
      hide Allocator.Valid, Eligible, Taken, Opens;
      var n := |groups|;
      var share := OpenShare();
      for off := 0 to n
        invariant Valid() && Now() == old(Now())
        invariant |open.Open()| < OPEN_BUCKETS_COUNT ==>
                    forall j :: 0 <= j < n && Turn(start, j, n) < off ==> !Eligible(groups[j], w, share)
      {
        var gi := Rot(start, off, n);
        RotTurn(start, off, n);
        OnlyTurn(start, off, n);
        if !Eligible(groups[gi], w, share) { continue; }
        var found := LowestFreeOf(gi, w, share);
        var ok;
        ok, idx := Claim(gi, found);
        if ok { return Some((gi, found)), idx; }
      }
      forall j | 0 <= j < n ensures Turn(start, j, n) < n { TurnRot(start, j, n); }
      o, idx := None, 0;
    }

    method LowestFreeOf(gi: nat, w: Watermark, share: nat) returns (found: nat)
      requires Valid() && gi < |groups| && Eligible(groups[gi], w, share)
      ensures LowestFree(groups[gi].buckets, found)
    {
      CountedGroup(groups, inUse, open.Open(), groupSize, totalBlocks, gi);
      hide Sound, CountFree;
      CountFreeFinds(groups[gi].buckets);
      found := 0;
      while !groups[gi].buckets[found].state.Free?
        invariant found < |groups[gi].buckets|
        decreases |groups[gi].buckets| - found
        invariant forall i :: 0 <= i < found ==> !groups[gi].buckets[i].state.Free?
      {
        found := found + 1;
      }
    }

    /** Allocates a bucket, starting with the group the hint points to. It succeeds exactly
        when an open entry is left and some group has free buckets beyond reserve and share. */
    method AllocateBucket(w: Watermark, hint: nat) returns (r: Result<nat, AllocError>, ghost gi: nat, ghost bi: nat)
      requires Valid()
      modifies this, open, open.entries, open.hashSlots
      ensures Valid()
      ensures r.Ok? <==>
                && groups != [] && |old(open.Open())| < OPEN_BUCKETS_COUNT
                && exists j :: 0 <= j < |old(groups)| && Spares(old(groups)[j], w, old(|open.Open()|), |old(groups)|)
      ensures r.Ok? ==> TakesBucket(old(Now()), Now(), gi, bi) && r.value == old(groups)[gi].start + 256 * bi
      ensures r.Err? && old(groups) != [] ==>
                LosesTops(old(Now()), Now(), w, old(|open.Open()|) == OPEN_BUCKETS_COUNT, old(|open.Open()|))
      ensures r.Ok? ==>
                && Choice(old(groups), w, old(ShareNow()), hint % |old(groups)|, gi, bi)
                && Granted(old(Now()), Now(), w, old(ShareNow()), gi, bi, r.value)
                && !Live(old(groups), r.value) && Live(groups, r.value)
      ensures r.Err? && old(groups) != [] ==>
                Now() == TriedAll(old(Now()), w, old(ShareNow()), |old(open.Open())| == OPEN_BUCKETS_COUNT)
      ensures r.Err? && old(groups) == [] ==> Now() == old(Now())
      ensures old(Logged(groups, log)) ==> Logged(groups, log)
    {
      hide Sound, Eligible, Opens, Choice, Granted, Live, Logged, TriedAll, Taken, OpenBucketPool.Valid,
        FirstStocked, FirstEligible, LowestFree, Spares, TakesBucket, LosesTops;
      ghost var s, share: nat := Now(), if groups == [] then 0 else ShareNow();
      var n := |groups|;
      if n == 0 { return Err(AddressSpaceExhausted(totalBlocks)), 0, 0; }
      var start := hint % n;
      SparesIs(groups, w, |open.Open()|);
      TriedIs(s, w, |open.Open()|);
      var o;
      ghost var idx;
      o, idx := StackPass(w, start);
      if o.Some? {
        GrantStack(s, groupSize, totalBlocks, w, share, start, o.value.0, o.value.1, idx);
      } else {
        TriedNone(s, w, share, |s.open| == OPEN_BUCKETS_COUNT);
        o, idx := ScanPass(w, start);
        if o.Some? { GrantScan(s, groupSize, totalBlocks, w, share, start, o.value.0, o.value.1, idx); }
        LoggedTried(s, w, share, |s.open| == OPEN_BUCKETS_COUNT);
        if o.None? { return Err(AddressSpaceExhausted(totalBlocks)), 0, 0; }
      }
      var g, b := o.value.0, o.value.1;
      gi, bi := g, b;
      r := Ok(Addr(groups[g], b));
      GrantedIs(s, Now(), w, share, start, g, b, r.value);
    }

    // ---- giving back ----

    /** The group an address lies in. */
    method FindGroup(addr: nat) returns (o: Option<nat>)
      ensures o.Some? ==> o.value < |groups| && Contains(groups[o.value], addr)
      ensures o.None? ==> forall gi :: 0 <= gi < |groups| ==> !Contains(groups[gi], addr)
    {
      for gi := 0 to |groups|
        invariant forall j :: 0 <= j < gi ==> !Contains(groups[j], addr)
      {
        if addr >= groups[gi].start && addr < groups[gi].start + groups[gi].blockCount { return Some(gi); }
      }
      o := None;
    }

    /** Closes the open entry of the bucket an address lies in, if there is one. */
    method PutOpen(addr: nat)
      requires Valid()
      modifies this, open, open.entries, open.hashSlots
      ensures Valid() && Now() == ClosedAt(old(Now()), addr)
      ensures InNoGroup(old(groups), addr) ==> Now() == old(Now())
      ensures forall gi: nat, bi: nat :: InBucket(old(groups), gi, bi, addr) ==> ClosesBucket(old(Now()), Now(), gi, bi)
    {
      hide Sound, Opens, OpenBucketPool.Valid, InBucket, ClosesBucket, InNoGroup;
      GivingBackIs(Now(), groupSize, totalBlocks, addr);
      if addr >= totalBlocks {
        Nowhere(groups, inUse, open.Open(), groupSize, totalBlocks, addr);
        NothingClosed(Now(), addr);
        return;
      }
      var o := FindGroup(addr);
      if o.None? {
        NothingClosed(Now(), addr);
        return;
      }
      var gi := o.value;
      var bi := (addr - groups[gi].start) / BLOCKS_PER_BUCKET;
      GroupOfAddr(groups, inUse, open.Open(), groupSize, totalBlocks, gi, addr);
      CountedGroup(groups, inUse, open.Open(), groupSize, totalBlocks, gi);
      PutBucket(gi, bi);
      FewerOpen(groups, inUse, old(open.Open()), open.Open(), groupSize, totalBlocks);
      assert open.Open() == ClosedAt(old(Now()), addr).open;
    }

    /** Looks the bucket up in the pool and closes its entry. */
    method PutBucket(gi: nat, bi: nat)
      requires open.Valid() && OpenOk(groups, open.Open())
      modifies open, open.entries, open.hashSlots
      ensures open.Valid() && open.Open() == Closing(old(open.Open()), gi, bi)
    {
      hide OpenBucketPool.Linked, OpenBuckets.FreeOk, Opens;
      var o := open.Lookup(gi, bi);
      ClosingOne(groups, open.Open(), gi, bi, o);
      if o.Some? { open.Put(o.value); }
    }

    /** Frees the bucket an address lies in: it waits to be discarded. A free bucket and an
        address outside all groups are left alone. */
    method BucketFree(addr: nat)
      requires Valid()
      modifies this, open, open.entries, open.hashSlots
      ensures Valid() && Now() == Freed(old(Now()), addr)
      ensures InNoGroup(old(groups), addr) ==> Now() == old(Now())
      ensures forall gi: nat, bi: nat :: InBucket(old(groups), gi, bi, addr) ==>
                FreesBucket(old(Now()), Now(), addr, gi, bi)
    {
      hide Sound, InBucket, FreesBucket, TrimsBucket, InNoGroup;
      GivingBackIs(Now(), groupSize, totalBlocks, addr);
      if addr >= totalBlocks {
        Nowhere(groups, inUse, open.Open(), groupSize, totalBlocks, addr);
        return;
      }
      var o := FindGroup(addr);
      if o.None? { return; }
      var gi := o.value;
      var bi := (addr - groups[gi].start) / BLOCKS_PER_BUCKET;
      GroupOfAddr(groups, inUse, open.Open(), groupSize, totalBlocks, gi, addr);
      CountedGroup(groups, inUse, open.Open(), groupSize, totalBlocks, gi);
      if groups[gi].buckets[bi].state.Free? { return; }
      PutBucket(gi, bi);
      var v := groups[gi].buckets[bi].version + 1;
      ReleaseSound(groups, inUse, old(open.Open()), open.Open(), groupSize, totalBlocks, gi, bi, v);
      groups := groups[gi := SetBucket(groups[gi], bi, Bucket(NeedDiscard, v))];
      log := log[addr / BLOCKS_PER_BUCKET := AllocEntry(gi, NeedDiscard, v)];
    }

    /** Completes the discard of a bucket: it is free again, on top of the free stack. */
    method DoTrim(addr: nat)
      requires Valid()
      modifies this
      ensures Valid() && Now() == Discarded(old(Now()), addr)
      ensures InNoGroup(old(groups), addr) ==> Now() == old(Now())
      ensures forall gi: nat, bi: nat :: InBucket(old(groups), gi, bi, addr) ==>
                TrimsBucket(old(Now()), Now(), addr, gi, bi)
    {
      hide Sound, InBucket, FreesBucket, TrimsBucket, InNoGroup;
      GivingBackIs(Now(), groupSize, totalBlocks, addr);
      if addr >= totalBlocks {
        Nowhere(groups, inUse, open.Open(), groupSize, totalBlocks, addr);
        return;
      }
      var o := FindGroup(addr);
      if o.None? { return; }
      var gi := o.value;
      var bi := (addr - groups[gi].start) / BLOCKS_PER_BUCKET;
      GroupOfAddr(groups, inUse, open.Open(), groupSize, totalBlocks, gi, addr);
      if !groups[gi].buckets[bi].state.NeedDiscard? { return; }
      TrimSound(groups, inUse, open.Open(), groupSize, totalBlocks, gi, bi);
      var v := groups[gi].buckets[bi].version;
      groups := groups[gi := Trimmed(groups[gi], bi)];
      inUse := inUse - BLOCKS_PER_BUCKET;
      log := log[addr / BLOCKS_PER_BUCKET := AllocEntry(gi, Free, v)];
    }

    // ---- recovering ----

    /** Loads bucket states from the log and rebuilds stacks and counters. */
    method AllocRead(l: Log)
      requires Valid()
      modifies this
      ensures Valid() && Now() == Loaded(old(Now()), l)
    {
      hide GroupOk, OpenOk, CountFree, Laid;
      ghost var s := Now();
      NothingLoaded(s, groupSize, totalBlocks, l);
      ApplyLog(l);
      StatesLoaded(s, Now(), groupSize, totalBlocks, l);
      for gi := 0 to |groups|
        invariant |groups| == |s.groups| && inUse == Loaded(s, l).inUse && log == s.log && open.Valid() &&
                  open.Open() == s.open
        invariant forall j :: 0 <= j < |groups| ==>
                    && SameFrame(groups[j], s.groups[j]) && groups[j].buckets == LoadedGroup(s.groups[j], l).buckets
                    && (j < gi ==> groups[j] == LoadedGroup(s.groups[j], l))
      {
        var list := CollectFree(groups[gi].buckets);
        groups := groups[gi := groups[gi].(freeList := list, freeBuckets := |list|)];
      }
      assert groups == Loaded(s, l).groups;
      LoadedSound(s, groupSize, totalBlocks, l);
    }

    /** Applies every entry of the log, in any order. */
    method ApplyLog(l: Log)
      requires open.Valid() && Partly(Now(), Now(), groupSize, totalBlocks, l, {})
      modifies this
      ensures open.Valid() && Partly(old(Now()), Now(), groupSize, totalBlocks, l, l.Keys)
    {
      hide Partly;
      var todo := l.Keys;
      assert l.Keys - todo == {};
      while todo != {}
        invariant todo <= l.Keys && open.Valid() && Partly(old(Now()), Now(), groupSize, totalBlocks, l, l.Keys - todo)
        decreases |todo|
      {
        var k :| k in todo;
        ghost var s, done := Now(), l.Keys - todo;
        if l[k].state.Free? {
          SkipFree(old(Now()), s, groupSize, totalBlocks, l, done, k);
        } else {
          ApplyEntry(k, l[k]);
          ApplyStep(old(Now()), s, groupSize, totalBlocks, l, done, k);
        }
        todo := todo - {k};
        assert l.Keys - todo == done + {k};
      }
      assert l.Keys - todo == l.Keys;
    }

    /** Gives a bucket that is free in memory the state the log has for it. */
    method ApplyEntry(k: nat, e: AllocEntry)
      requires !e.state.Free?
      modifies this
      ensures Now() == Applied(old(Now()), k, e)
    {
      for gi := 0 to |groups|
        invariant Now() == old(Now())
        invariant forall j :: 0 <= j < gi ==> !HasIndex(groups[j], k)
      {
        var g := groups[gi];
        if k >= FirstIndex(g) && k < FirstIndex(g) + |g.buckets| {
          HolderIs(groups, k, gi);
          var bi := k - FirstIndex(g);
          if g.buckets[bi].state.Free? {
            groups := groups[gi := Entered(g, bi, e)];
            inUse := inUse + BLOCKS_PER_BUCKET;
          }
          return;
        }
      }
      HolderNone(groups, k);
    }

    ghost function ShareNow(): nat
      requires groups != []
      reads this, open, open.entries
    {
      PerGroup(|open.Open()|, |groups|)
    }
  }

  function PerGroup(open: nat, groups: nat): nat
    requires groups > 0
  {
    open / groups
  }

  // ---- giving back ----

  ghost predicate Contains(g: Group, addr: nat) { g.start <= addr < g.start + g.blockCount }

  /** The bucket of a group an address lies in. */
  function BucketAt(g: Group, addr: nat): nat
    requires g.start <= addr
  {
    (addr - g.start) / BLOCKS_PER_BUCKET
  }

  /** The group an address lies in, if any. */
  ghost function HomeOf(gs: seq<Group>, addr: nat): (o: Option<nat>)
    ensures o.Some? ==> o.value < |gs| && Contains(gs[o.value], addr)
    ensures o.None? ==> forall gi :: 0 <= gi < |gs| ==> !Contains(gs[gi], addr)
  {
    if gi: nat :| gi < |gs| && Contains(gs[gi], addr) then Some(gi) else None
  }

  lemma GroupOfAddr(gs: seq<Group>, inUse: nat, open: map<nat, OpenBucket>, size: nat, total: nat, gi: nat, addr: nat)
    requires Sound(gs, inUse, open, size, total) && gi < |gs| && Contains(gs[gi], addr)
    ensures HomeOf(gs, addr) == Some(gi) && BucketAt(gs[gi], addr) < |gs[gi].buckets|
    ensures addr < total
  {
    var gj := HomeOf(gs, addr).value;
    assert gs[gj].start <= addr < gs[gj].start + size;
  }

  lemma Nowhere(gs: seq<Group>, inUse: nat, open: map<nat, OpenBucket>, size: nat, total: nat, addr: nat)
    requires Sound(gs, inUse, open, size, total) && addr >= total
    ensures HomeOf(gs, addr) == None
  {
    if HomeOf(gs, addr).Some? { GroupOfAddr(gs, inUse, open, size, total, HomeOf(gs, addr).value, addr); }
  }

  /** The open entries without those of one bucket. */
  function Closing(open: map<nat, OpenBucket>, gi: nat, bi: nat): map<nat, OpenBucket> {
    map x | x in open && !(open[x].group == gi && open[x].bucket == bi) :: open[x]
  }

  lemma ClosingOne(gs: seq<Group>, open: map<nat, OpenBucket>, gi: nat, bi: nat, o: Option<nat>)
    requires OpenOk(gs, open)
    requires o.Some? ==> o.value in open && open[o.value].group == gi && open[o.value].bucket == bi
    requires o.None? ==> forall x :: x in open ==> !(open[x].group == gi && open[x].bucket == bi)
    ensures Closing(open, gi, bi) == if o.Some? then open - {o.value} else open
  {
    if o.Some? {
      forall x | x in open && x != o.value ensures !(open[x].group == gi && open[x].bucket == bi) {
        assert !SameBucket(open[x], open[o.value]);
      }
    }
  }

  lemma FewerOpen(gs: seq<Group>, inUse: nat, open: map<nat, OpenBucket>, open': map<nat, OpenBucket>, size: nat,
                  total: nat)
    requires Sound(gs, inUse, open, size, total) && forall x :: x in open' ==> x in open && open'[x] == open[x]
    ensures Sound(gs, inUse, open', size, total)
  {
    forall x | x in open' ensures NamesUser(gs, open'[x]) { assert NamesUser(gs, open[x]); }
  }

  ghost function ClosedAt(s: State, addr: nat): State {
    var o := HomeOf(s.groups, addr);
    if o.None? then s else s.(open := Closing(s.open, o.value, BucketAt(s.groups[o.value], addr)))
  }

  lemma NothingClosed(s: State, addr: nat)
    requires HomeOf(s.groups, addr) == None
    ensures ClosedAt(s, addr) == s
  {}

  ghost predicate Homed(s: State, addr: nat) {
    var o := HomeOf(s.groups, addr);
    o.Some? && BucketAt(s.groups[o.value], addr) < |s.groups[o.value].buckets|
  }

  /** Freeing: any bucket in use waits for its discard, under a new version. */
  ghost function Freed(s: State, addr: nat): State {
    if !Homed(s, addr) then s
    else
      var gi := HomeOf(s.groups, addr).value;
      var bi := BucketAt(s.groups[gi], addr);
      var b := s.groups[gi].buckets[bi];
      if b.state.Free? then s
      else
        State(s.groups[gi := SetBucket(s.groups[gi], bi, Bucket(NeedDiscard, b.version + 1))], s.inUse,
              s.log[addr / BLOCKS_PER_BUCKET := AllocEntry(gi, NeedDiscard, b.version + 1)], Closing(s.open, gi, bi))
  }

  ghost function Discarded(s: State, addr: nat): State {
    if !Homed(s, addr) then s
    else
      var gi := HomeOf(s.groups, addr).value;
      var bi := BucketAt(s.groups[gi], addr);
      var b := s.groups[gi].buckets[bi];
      if !b.state.NeedDiscard? || s.inUse < BLOCKS_PER_BUCKET then s
      else
        State(s.groups[gi := Trimmed(s.groups[gi], bi)], s.inUse - BLOCKS_PER_BUCKET,
              s.log[addr / BLOCKS_PER_BUCKET := AllocEntry(gi, Free, b.version)], s.open)
  }

  /** The address lies in bucket bi of group gi. */
  ghost predicate InBucket(gs: seq<Group>, gi: nat, bi: nat, addr: nat) {
    && gi < |gs| && bi < |gs[gi].buckets| && Contains(gs[gi], addr)
    && Addr(gs[gi], bi) <= addr < Addr(gs[gi], bi) + BLOCKS_PER_BUCKET
  }

  ghost predicate InNoGroup(gs: seq<Group>, addr: nat) {
    forall gi :: 0 <= gi < |gs| ==> !Contains(gs[gi], addr)
  }

  /** The open entries are those that do not name the bucket, as they were. */
  ghost predicate ClosedOf(open: map<nat, OpenBucket>, open': map<nat, OpenBucket>, gi: nat, bi: nat) {
    && (forall x :: x in open' <==> x in open && !(open[x].group == gi && open[x].bucket == bi))
    && (forall x :: x in open' ==> open'[x] == open[x])
  }

  /** Only the one bucket, and its group's free counter and stack, may differ. */
  ghost predicate OthersKept(gs: seq<Group>, gs': seq<Group>, gi: nat, bi: nat) {
    && |gs'| == |gs| && (forall j :: 0 <= j < |gs| && j != gi ==> gs'[j] == gs[j])
    && (gi < |gs| ==>
          && SameFrame(gs'[gi], gs[gi])
          && forall b :: 0 <= b < |gs[gi].buckets| && b != bi ==> gs'[gi].buckets[b] == gs[gi].buckets[b])
  }

  /** Freeing a bucket: one in use or already waiting waits for its discard under the next
      version, is logged so, and no open entry names it; a free one is left alone. */
  ghost predicate FreesBucket(s: State, s': State, addr: nat, gi: nat, bi: nat)
    requires InBucket(s.groups, gi, bi, addr)
  {
    var b := s.groups[gi].buckets[bi];
    if b.state == Free then s' == s
    else
      && OthersKept(s.groups, s'.groups, gi, bi)
      && s'.groups[gi].buckets[bi] == Bucket(NeedDiscard, b.version + 1)
      && s'.groups[gi].freeBuckets == s.groups[gi].freeBuckets && s'.groups[gi].freeList == s.groups[gi].freeList
      && s'.inUse == s.inUse
      && s'.log == s.log[IndexOf(addr) := AllocEntry(gi, NeedDiscard, b.version + 1)]
      && ClosedOf(s.open, s'.open, gi, bi)
  }

  /** Completing a discard: a bucket that waits for it is free at its version, counted, on top
      of the stack, and logged so; any other one is left alone. */
  ghost predicate TrimsBucket(s: State, s': State, addr: nat, gi: nat, bi: nat)
    requires InBucket(s.groups, gi, bi, addr)
  {
    var b := s.groups[gi].buckets[bi];
    if b.state != NeedDiscard then s' == s
    else
      && OthersKept(s.groups, s'.groups, gi, bi)
      && s'.groups[gi].buckets[bi] == Bucket(Free, b.version)
      && s'.groups[gi].freeBuckets == s.groups[gi].freeBuckets + 1
      && s'.groups[gi].freeList == s.groups[gi].freeList + [bi]
      && s'.inUse + BLOCKS_PER_BUCKET == s.inUse
      && s'.log == s.log[IndexOf(addr) := AllocEntry(gi, Free, b.version)]
      && s'.open == s.open
  }

  /** Closing the open entry of a bucket: nothing else changes. */
  ghost predicate ClosesBucket(s: State, s': State, gi: nat, bi: nat) {
    s'.groups == s.groups && s'.inUse == s.inUse && s'.log == s.log && ClosedOf(s.open, s'.open, gi, bi)
  }

  /** So an address in a bucket is freed, discarded or closed with its bucket, and an address
      in no group changes nothing. */
  lemma GivingBackIs(s: State, size: nat, total: nat, addr: nat)
    requires Sound(s.groups, s.inUse, s.open, size, total)
    ensures InNoGroup(s.groups, addr) ==> Freed(s, addr) == Discarded(s, addr) == ClosedAt(s, addr) == s
    ensures forall gi: nat, bi: nat :: InBucket(s.groups, gi, bi, addr) ==>
              && FreesBucket(s, Freed(s, addr), addr, gi, bi)
              && TrimsBucket(s, Discarded(s, addr), addr, gi, bi)
              && ClosesBucket(s, ClosedAt(s, addr), gi, bi)
  {
    hide Sound, FreesBucket, TrimsBucket, ClosesBucket, Freed, Discarded, ClosedAt;
    if InNoGroup(s.groups, addr) { NothingDone(s, addr); }
    forall gi: nat, bi: nat | InBucket(s.groups, gi, bi, addr)
      ensures FreesBucket(s, Freed(s, addr), addr, gi, bi) && TrimsBucket(s, Discarded(s, addr), addr, gi, bi)
      ensures ClosesBucket(s, ClosedAt(s, addr), gi, bi)
    {
      GroupOfAddr(s.groups, s.inUse, s.open, size, total, gi, addr);
      BucketIs(s.groups[gi], bi, addr);
      FreedIs(s, addr, gi, bi);
      if s.groups[gi].buckets[bi].state.NeedDiscard? { TrimSound(s.groups, s.inUse, s.open, size, total, gi, bi); }
      DiscardedIs(s, addr, gi, bi);
      ClosedIs(s, addr, gi, bi);
    }
  }

  lemma NothingDone(s: State, addr: nat)
    requires InNoGroup(s.groups, addr)
    ensures Freed(s, addr) == Discarded(s, addr) == ClosedAt(s, addr) == s
  {}

  lemma BucketIs(g: Group, bi: nat, addr: nat)
    requires Addr(g, bi) <= addr < Addr(g, bi) + BLOCKS_PER_BUCKET
    ensures BucketAt(g, addr) == bi
  {}

  lemma FreedIs(s: State, addr: nat, gi: nat, bi: nat)
    requires InBucket(s.groups, gi, bi, addr)
    requires HomeOf(s.groups, addr) == Some(gi) && BucketAt(s.groups[gi], addr) == bi
    ensures FreesBucket(s, Freed(s, addr), addr, gi, bi)
  {}

  lemma DiscardedIs(s: State, addr: nat, gi: nat, bi: nat)
    requires InBucket(s.groups, gi, bi, addr)
    requires HomeOf(s.groups, addr) == Some(gi) && BucketAt(s.groups[gi], addr) == bi
    requires s.groups[gi].buckets[bi].state.NeedDiscard? ==> s.inUse >= BLOCKS_PER_BUCKET
    ensures TrimsBucket(s, Discarded(s, addr), addr, gi, bi)
  {}

  lemma ClosedIs(s: State, addr: nat, gi: nat, bi: nat)
    requires InBucket(s.groups, gi, bi, addr)
    requires HomeOf(s.groups, addr) == Some(gi) && BucketAt(s.groups[gi], addr) == bi
    ensures ClosesBucket(s, ClosedAt(s, addr), gi, bi)
  {}

  /** The log index an address is entered under is that of its own bucket. */
  ghost predicate OwnIndex(g: Group, addr: nat)
    requires g.start <= addr
  {
    IndexOf(addr) == FirstIndex(g) + BucketAt(g, addr)
  }

  /** It is, unless the offset in the bucket, added to that of the group's start, reaches
      the bucket size: always so when groups start at a multiple of it, never for the last
      blocks of a bucket when they do not. */
  lemma OwnIndexIff(g: Group, addr: nat)
    requires g.start <= addr
    ensures OwnIndex(g, addr) <==>
              g.start % BLOCKS_PER_BUCKET + (addr - g.start) % BLOCKS_PER_BUCKET < BLOCKS_PER_BUCKET
  {}

  /** A free or trim leaves the log telling every state exactly if it was entered under the
      bucket's own index. */
  lemma LoggedIff(s: State, size: nat, total: nat, addr: nat, gi: nat, s': State)
    requires Sound(s.groups, s.inUse, s.open, size, total) && Logged(s.groups, s.log)
    requires gi < |s.groups| && Contains(s.groups[gi], addr)
    requires (s' == Freed(s, addr) || s' == Discarded(s, addr)) && s' != s
    ensures Logged(s'.groups, s'.log) <==> OwnIndex(s.groups[gi], addr)
  {
    hide Sound, Logged, Recorded, OwnIndex;
    SoundLaid(s.groups, s.inUse, s.open, size, total);
    GroupOfAddr(s.groups, s.inUse, s.open, size, total, gi, addr);
    var bi := BucketAt(s.groups[gi], addr);
    if OwnIndex(s.groups[gi], addr) {
      OwnIndexIs(s.groups[gi], addr);
      SetBucketLogged(s.groups, size, total, s.log, gi, bi, s'.groups[gi].buckets[bi], s'.groups[gi]);
    } else {
      OtherIndex(s, addr, gi, s');
    }
  }

  lemma SoundLaid(gs: seq<Group>, inUse: nat, open: map<nat, OpenBucket>, size: nat, total: nat)
    requires Sound(gs, inUse, open, size, total)
    ensures Laid(gs, size, total)
  {}

  lemma OwnIndexIs(g: Group, addr: nat)
    requires g.start <= addr && OwnIndex(g, addr)
    ensures addr / BLOCKS_PER_BUCKET == FirstIndex(g) + BucketAt(g, addr)
  {}

  lemma OtherIndex(s: State, addr: nat, gi: nat, s': State)
    requires Logged(s.groups, s.log) && gi < |s.groups| && Contains(s.groups[gi], addr) &&
             HomeOf(s.groups, addr) == Some(gi)
    requires BucketAt(s.groups[gi], addr) < |s.groups[gi].buckets| && !OwnIndex(s.groups[gi], addr)
    requires (s' == Freed(s, addr) || s' == Discarded(s, addr)) && s' != s
    ensures !Logged(s'.groups, s'.log)
  {
    var bi := BucketAt(s.groups[gi], addr);
    assert Recorded(s.log, s.groups[gi], bi);
    assert !Recorded(s'.log, s'.groups[gi], bi);
  }

  // ---- recovering ----

  ghost predicate HasIndex(g: Group, k: nat) { FirstIndex(g) <= k < FirstIndex(g) + |g.buckets| }

  /** The first group the log index k belongs to. */
  function Holder(gs: seq<Group>, k: nat): (o: Option<nat>)
    ensures o.Some? ==> o.value < |gs| && FirstIndex(gs[o.value]) <= k < FirstIndex(gs[o.value]) + |gs[o.value].buckets|
  {
    if gs == [] then None
    else
      var o := Holder(gs[..|gs| - 1], k);
      if o.Some? then o
      else
        var g := gs[|gs| - 1];
        if FirstIndex(g) <= k < FirstIndex(g) + |g.buckets| then Some(|gs| - 1) else None
  }

  lemma {:induction false} HolderIs(gs: seq<Group>, k: nat, gi: nat)
    requires gi < |gs| && HasIndex(gs[gi], k) && forall j :: 0 <= j < gi ==> !HasIndex(gs[j], k)
    ensures Holder(gs, k) == Some(gi)
  {
    if gi < |gs| - 1 {
      HolderIs(gs[..|gs| - 1], k, gi);
    } else {
      HolderNone(gs[..|gs| - 1], k);
    }
  }

  lemma {:induction false} HolderNone(gs: seq<Group>, k: nat)
    requires forall j :: 0 <= j < |gs| ==> !HasIndex(gs[j], k)
    ensures Holder(gs, k) == None
  {
    if gs != [] {
      HolderNone(gs[..|gs| - 1], k);
      assert !HasIndex(gs[|gs| - 1], k);
    }
  }

  function Entered(g: Group, bi: nat, e: AllocEntry): Group
    requires bi < |g.buckets|
  {
    SetBucket(g, bi, Bucket(e.state, e.version)).(freeBuckets := if g.freeBuckets > 0 then g.freeBuckets - 1 else 0)
  }

  function Applied(s: State, k: nat, e: AllocEntry): State {
    var o := Holder(s.groups, k);
    if o.None? then s
    else
      var g := s.groups[o.value];
      var bi := k - FirstIndex(g);
      if g.buckets[bi].state.Free?
      then s.(groups := s.groups[o.value := Entered(g, bi, e)], inUse := s.inUse + BLOCKS_PER_BUCKET)
      else s
  }

  /** What a bucket becomes when the entries under the given indices are loaded: a free one
      takes the state the log has for it. */
  function LoadedBucket(b: Bucket, l: Log, k: nat, done: set<nat>): Bucket {
    if b.state.Free? && k in done && k in l && !l[k].state.Free? then Bucket(l[k].state, l[k].version) else b
  }

  function LoadedBuckets(g: Group, l: Log, done: set<nat>): (bs: seq<Bucket>)
    ensures |bs| == |g.buckets|
  {
    seq(|g.buckets|, bi requires 0 <= bi < |g.buckets| => LoadedBucket(g.buckets[bi], l, FirstIndex(g) + bi, done))
  }

  /** The indices of the free buckets, in order. */
  function FreeIndices(bs: seq<Bucket>): (s: seq<nat>)
    ensures |s| == CountFree(bs)
    ensures forall i :: 0 <= i < |s| ==> s[i] < |bs| && bs[s[i]].state.Free?
  {
    if bs == [] then []
    else FreeIndices(bs[..|bs| - 1]) + if bs[|bs| - 1].state.Free? then [|bs| - 1] else []
  }

  lemma {:induction false} FreeIndicesAll(bs: seq<Bucket>)
    ensures NoRepeats(FreeIndices(bs))
    ensures forall i :: 0 <= i < |bs| ==> (i in FreeIndices(bs) <==> bs[i].state.Free?)
  {
    if bs != [] {
      var init := FreeIndices(bs[..|bs| - 1]);
      FreeIndicesAll(bs[..|bs| - 1]);
      assert forall i :: 0 <= i < |bs| - 1 ==> bs[..|bs| - 1][i] == bs[i];
    }
  }

  method CollectFree(bs: seq<Bucket>) returns (list: seq<nat>)
    ensures list == FreeIndices(bs)
  {
    list := [];
    for i := 0 to |bs|
      invariant list == FreeIndices(bs[..i])
    {
      assert bs[..i + 1][..i] == bs[..i];
      if bs[i].state.Free? { list := list + [i]; }
    }
    assert bs[..|bs|] == bs;
  }

  function LoadedGroup(g: Group, l: Log): Group {
    var bs := LoadedBuckets(g, l, l.Keys);
    g.(buckets := bs, freeList := FreeIndices(bs), freeBuckets := CountFree(bs))
  }

  /** The state after a recovery: every bucket as loaded, stacks and counters to match. */
  ghost function Loaded(s: State, l: Log): State {
    var gs := seq(|s.groups|, gi requires 0 <= gi < |s.groups| => LoadedGroup(s.groups[gi], l));
    s.(groups := gs, inUse := BLOCKS_PER_BUCKET * Busy(gs))
  }

  /** Some entries of the log are loaded, stacks not yet rebuilt. */
  ghost predicate Partly(s: State, t: State, size: nat, total: nat, l: Log, done: set<nat>) {
    && Laid(s.groups, size, total) && t.open == s.open && t.log == s.log && |t.groups| == |s.groups|
    && t.inUse == BLOCKS_PER_BUCKET * Busy(t.groups)
    && forall gi {:trigger PartGroup(s, t, l, done, gi)} :: 0 <= gi < |s.groups| ==> PartGroup(s, t, l, done, gi)
  }

  ghost predicate PartGroup(s: State, t: State, l: Log, done: set<nat>, gi: nat)
    requires gi < |s.groups| == |t.groups|
  {
    && SameFrame(t.groups[gi], s.groups[gi]) && t.groups[gi].buckets == LoadedBuckets(s.groups[gi], l, done)
    && t.groups[gi].freeBuckets == CountFree(t.groups[gi].buckets)
  }

  lemma NothingLoaded(s: State, size: nat, total: nat, l: Log)
    requires Sound(s.groups, s.inUse, s.open, size, total)
    ensures Partly(s, s, size, total, l, {})
  {
    forall gi | 0 <= gi < |s.groups| ensures PartGroup(s, s, l, {}, gi) {
      assert LoadedBuckets(s.groups[gi], l, {}) == s.groups[gi].buckets;
    }
  }

  lemma SkipFree(s: State, t: State, size: nat, total: nat, l: Log, done: set<nat>, k: nat)
    requires Partly(s, t, size, total, l, done) && k in l && l[k].state.Free?
    ensures Partly(s, t, size, total, l, done + {k})
  {
    forall gi | 0 <= gi < |s.groups| ensures PartGroup(s, t, l, done + {k}, gi) {
      assert PartGroup(s, t, l, done, gi);
      assert LoadedBuckets(s.groups[gi], l, done) == LoadedBuckets(s.groups[gi], l, done + {k});
    }
  }

  /** Which group an index belongs to depends on the frames only, and no other has it. */
  lemma HolderOnly(s: State, t: State, size: nat, total: nat, k: nat, gi: nat)
    requires Laid(s.groups, size, total) && |t.groups| == |s.groups| && gi < |s.groups|
    requires forall j :: 0 <= j < |s.groups| ==> SameFrame(t.groups[j], s.groups[j])
    ensures HasIndex(s.groups[gi], k) <==> Holder(t.groups, k) == Some(gi)
  {
    if HasIndex(s.groups[gi], k) {
      forall j | 0 <= j < gi ensures !HasIndex(t.groups[j], k) { GroupsApart(s.groups, size, total, j, gi); }
      HolderIs(t.groups, k, gi);
    }
  }

  lemma ApplyStep(s: State, t: State, size: nat, total: nat, l: Log, done: set<nat>, k: nat)
    requires Partly(s, t, size, total, l, done) && k in l && !l[k].state.Free? && k !in done
    ensures Partly(s, Applied(t, k, l[k]), size, total, l, done + {k})
  {
    hide Busy, CountFree, LoadedBuckets, Holder;
    ApplyParts(s, t, size, total, l, done, k);
    ApplyCounts(s, t, size, total, l, done, k);
  }

  lemma ApplyParts(s: State, t: State, size: nat, total: nat, l: Log, done: set<nat>, k: nat)
    requires Partly(s, t, size, total, l, done) && k in l && !l[k].state.Free? && k !in done
    ensures forall gi {:trigger PartGroup(s, Applied(t, k, l[k]), l, done + {k}, gi)} ::
              0 <= gi < |s.groups| ==> PartGroup(s, Applied(t, k, l[k]), l, done + {k}, gi)
  {
    hide Busy, CountFree, LoadedBuckets, Holder;
    var t' := Applied(t, k, l[k]);
    forall gi | 0 <= gi < |s.groups|
      ensures SameFrame(t.groups[gi], s.groups[gi])
    {
      assert PartGroup(s, t, l, done, gi);
    }
    forall gi | 0 <= gi < |s.groups| ensures PartGroup(s, t', l, done + {k}, gi) {
      assert PartGroup(s, t, l, done, gi);
      HolderOnly(s, t, size, total, k, gi);
      ApplyGroup(s.groups[gi], t.groups[gi], t'.groups[gi], l, done, k);
    }
  }

  lemma ApplyCounts(s: State, t: State, size: nat, total: nat, l: Log, done: set<nat>, k: nat)
    requires Partly(s, t, size, total, l, done) && k in l && !l[k].state.Free?
    ensures Applied(t, k, l[k]).inUse == BLOCKS_PER_BUCKET * Busy(Applied(t, k, l[k]).groups)
  {
    hide LoadedBuckets, Laid;
    var t', o := Applied(t, k, l[k]), Holder(t.groups, k);
    if o.Some? && t'.groups != t.groups {
      assert PartGroup(s, t, l, done, o.value);
      var bi := k - FirstIndex(t.groups[o.value]);
      CountFreeUpdate(t.groups[o.value].buckets, bi, Bucket(l[k].state, l[k].version));
      BusyUpdate(t.groups, o.value, t'.groups[o.value]);
    }
  }

  lemma ApplyGroup(g: Group, h: Group, h': Group, l: Log, done: set<nat>, k: nat)
    requires SameFrame(h, g) && h.buckets == LoadedBuckets(g, l, done) && h.freeBuckets == CountFree(h.buckets)
    requires k in l && !l[k].state.Free? && k !in done
    requires h' == if HasIndex(g, k) && h.buckets[k - FirstIndex(h)].state.Free?
                   then Entered(h, k - FirstIndex(h), l[k])
                   else h
    ensures SameFrame(h', g) && h'.buckets == LoadedBuckets(g, l, done + {k}) && h'.freeBuckets == CountFree(h'.buckets)
  {
    if h' != h {
      CountFreeUpdate(h.buckets, k - FirstIndex(h), Bucket(l[k].state, l[k].version));
    }
    assert h'.buckets == LoadedBuckets(g, l, done + {k});
  }

  lemma StatesLoaded(s: State, t: State, size: nat, total: nat, l: Log)
    requires Partly(s, t, size, total, l, l.Keys)
    ensures t.inUse == Loaded(s, l).inUse && t.log == s.log && t.open == s.open && |t.groups| == |s.groups|
    ensures forall j :: 0 <= j < |s.groups| ==>
              t.groups[j].buckets == LoadedGroup(s.groups[j], l).buckets && SameFrame(t.groups[j], s.groups[j])
  {
    forall j | 0 <= j < |s.groups|
      ensures t.groups[j].buckets == LoadedGroup(s.groups[j], l).buckets && SameFrame(t.groups[j], s.groups[j])
    {
      assert PartGroup(s, t, l, l.Keys, j);
    }
    SameBusy(t.groups, Loaded(s, l).groups);
  }

  lemma {:induction false} SameBusy(gs: seq<Group>, hs: seq<Group>)
    requires |gs| == |hs|
    requires forall i :: 0 <= i < |gs| ==>
               |gs[i].buckets| == |hs[i].buckets| && CountFree(gs[i].buckets) == CountFree(hs[i].buckets)
    ensures Busy(gs) == Busy(hs)
  {
    if gs != [] { SameBusy(gs[..|gs| - 1], hs[..|hs| - 1]); }
  }

  lemma LoadedSound(s: State, size: nat, total: nat, l: Log)
    requires Sound(s.groups, s.inUse, s.open, size, total)
    ensures var t := Loaded(s, l); Sound(t.groups, t.inUse, t.open, size, total)
  {
    hide GroupOk, CountFree, Busy, NamesUser;
    var t := Loaded(s, l);
    forall i | 0 <= i < |t.groups| ensures GroupOk(t.groups[i]) { LoadedGroupOk(s.groups[i], l); }
    forall x | x in s.open ensures NamesUser(t.groups, s.open[x]) { LoadedNames(s, l, x); }
  }

  lemma LoadedGroupOk(g: Group, l: Log)
    ensures GroupOk(LoadedGroup(g, l))
  {
    FreeIndicesAll(LoadedGroup(g, l).buckets);
  }

  lemma LoadedNames(s: State, l: Log, x: nat)
    requires x in s.open && NamesUser(s.groups, s.open[x])
    ensures NamesUser(Loaded(s, l).groups, s.open[x])
  {}

  /** The state change of an allocation that took bucket bi of group gi, free until then. */
  ghost predicate Granted(s: State, s': State, w: Watermark, share: nat, gi: nat, bi: nat, addr: nat) {
    && gi < |s.groups| == |s'.groups| && bi < |s.groups[gi].buckets| && s.groups[gi].buckets[bi].state.Free?
    && addr == Addr(s.groups[gi], bi)
    && s'.groups[gi].freeBuckets >= Reserved(w, |s.groups[gi].buckets|) + share
    && exists idx :: idx !in s.open &&
                     s' == Taken(if Stocked(s.groups[gi], w, share) then PoppedAt(s, gi) else s, gi, bi, idx)
  }

  /** A group with free buckets beyond what the watermark reserves and its share of the open
      ones. */
  ghost predicate Spares(g: Group, w: Watermark, open: nat, groups: nat)
    requires groups > 0
  {
    g.freeBuckets > Reserved(w, |g.buckets|) + open / groups
  }

  lemma SparesIs(gs: seq<Group>, w: Watermark, open: nat)
    requires gs != []
    ensures (exists j :: 0 <= j < |gs| && Eligible(gs[j], w, PerGroup(open, |gs|))) <==>
            (exists j :: 0 <= j < |gs| && Spares(gs[j], w, open, |gs|))
  {
    hide Eligible, Spares;
    forall j | 0 <= j < |gs| ensures Eligible(gs[j], w, PerGroup(open, |gs|)) <==> Spares(gs[j], w, open, |gs|) {
      SparesOne(gs[j], w, open, |gs|);
    }
  }

  lemma SparesOne(g: Group, w: Watermark, open: nat, groups: nat)
    requires groups > 0
    ensures Eligible(g, w, PerGroup(open, groups)) <==> Spares(g, w, open, groups)
  {}

  /** A bucket that was free is in use under its next version, counted and logged so, and off
      the stack if its group has one; one new open entry names it. */
  ghost predicate TakesBucket(s: State, s': State, gi: nat, bi: nat) {
    && gi < |s.groups| && bi < |s.groups[gi].buckets| && s.groups[gi].buckets[bi].state == Free
    && OthersKept(s.groups, s'.groups, gi, bi)
    && var g, g', v := s.groups[gi], s'.groups[gi], s.groups[gi].buckets[bi].version + 1;
       && g'.buckets[bi] == Bucket(User, v) && g'.freeBuckets + 1 == g.freeBuckets
       && (if g.freeList == [] then g'.freeList == [] else g.freeList == g'.freeList + [bi])
       && s'.inUse == s.inUse + BLOCKS_PER_BUCKET
       && s'.log == s.log[IndexOf(g.start) + bi := AllocEntry(gi, User, v)]
       && exists idx: nat :: idx !in s.open &&
                             s'.open == s.open[idx := OpenBucket(1, gi, bi, BLOCKS_PER_BUCKET, false, v)]
  }

  /** A failed allocation: with every open entry taken each group that could spare a bucket
      has lost the top of its stack, else nothing has changed. */
  ghost predicate LosesTops(s: State, s': State, w: Watermark, full: bool, open: nat) {
    && s'.inUse == s.inUse && s'.log == s.log && s'.open == s.open && |s'.groups| == |s.groups|
    && forall j :: 0 <= j < |s.groups| ==>
         s'.groups[j] ==
         if full && Spares(s.groups[j], w, open, |s.groups|) && s.groups[j].freeList != []
         then s.groups[j].(freeList := s.groups[j].freeList[..|s.groups[j].freeList| - 1])
         else s.groups[j]
  }

  lemma TriedIs(s: State, w: Watermark, open: nat)
    requires s.groups != []
    ensures forall full :: LosesTops(s, TriedAll(s, w, PerGroup(open, |s.groups|), full), w, full, open)
  {
    hide Eligible, Spares, Reserved;
    forall j | 0 <= j < |s.groups|
      ensures Eligible(s.groups[j], w, PerGroup(open, |s.groups|)) <==> Spares(s.groups[j], w, open, |s.groups|)
    {
      SparesOne(s.groups[j], w, open, |s.groups|);
    }
  }

  lemma GrantedIs(s: State, s': State, w: Watermark, share: nat, start: nat, gi: nat, bi: nat, addr: nat)
    requires Granted(s, s', w, share, gi, bi, addr) && Choice(s.groups, w, share, start, gi, bi)
    ensures TakesBucket(s, s', gi, bi) && addr == s.groups[gi].start + 256 * bi
  {
    hide Reserved, Taken, TakesBucket;
    var stocked := Stocked(s.groups[gi], w, share);
    var idx: nat :| idx !in s.open && s' == Taken(if stocked then PoppedAt(s, gi) else s, gi, bi, idx);
    TakenIs(s, stocked, gi, bi, idx);
  }

  lemma TakenIs(s: State, stocked: bool, gi: nat, bi: nat, idx: nat)
    requires gi < |s.groups| && bi < |s.groups[gi].buckets| && s.groups[gi].buckets[bi].state == Free && idx !in s.open
    requires s.groups[gi].freeBuckets > 0
    requires if stocked then s.groups[gi].freeList != [] && s.groups[gi].freeList[|s.groups[gi].freeList| - 1] == bi
             else s.groups[gi].freeList == []
    ensures TakesBucket(s, Taken(if stocked then PoppedAt(s, gi) else s, gi, bi, idx), gi, bi)
  {
    var v := s.groups[gi].buckets[bi].version + 1;
    var s' := Taken(if stocked then PoppedAt(s, gi) else s, gi, bi, idx);
    assert s'.open == s.open[idx := OpenBucket(1, gi, bi, BLOCKS_PER_BUCKET, false, v)];
  }

  lemma GrantStack(s: State, size: nat, total: nat, w: Watermark, share: nat, start: nat, gi: nat, bi: nat, idx: nat)
    requires Sound(s.groups, s.inUse, s.open, size, total) && idx !in s.open
    requires FirstStocked(s.groups, w, share, start, gi) && bi == s.groups[gi].freeList[|s.groups[gi].freeList| - 1]
    ensures bi < |s.groups[gi].buckets| && Choice(s.groups, w, share, start, gi, bi)
    ensures var s', addr := Taken(PoppedAt(s, gi), gi, bi, idx), Addr(s.groups[gi], bi);
            && gi < |s'.groups| && Addr(s'.groups[gi], bi) == addr && Granted(s, s', w, share, gi, bi, addr)
            && !Live(s.groups, addr) && Live(s'.groups, addr) && (Logged(s.groups, s.log) ==> Logged(s'.groups, s'.log))
  {
    hide Reserved, Logged, Live;
    CountedGroup(s.groups, s.inUse, s.open, size, total, gi);
    NotLive(s.groups, size, total, gi, bi);
    GrantedLives(s, PoppedAt(s, gi), gi, bi, idx);
    if Logged(s.groups, s.log) { GrantedLogged(s, PoppedAt(s, gi), size, total, gi, bi, idx); }
  }

  lemma GrantScan(s: State, size: nat, total: nat, w: Watermark, share: nat, start: nat, gi: nat, bi: nat, idx: nat)
    requires Sound(s.groups, s.inUse, s.open, size, total) && idx !in s.open
    requires FirstEligible(s.groups, w, share, start, gi) && LowestFree(s.groups[gi].buckets, bi)
    ensures bi < |s.groups[gi].buckets| && Choice(s.groups, w, share, start, gi, bi)
    ensures var s', addr := Taken(s, gi, bi, idx), Addr(s.groups[gi], bi);
            && gi < |s'.groups| && Addr(s'.groups[gi], bi) == addr && Granted(s, s', w, share, gi, bi, addr)
            && !Live(s.groups, addr) && Live(s'.groups, addr) && (Logged(s.groups, s.log) ==> Logged(s'.groups, s'.log))
  {
    hide Reserved, Logged, Live;
    NotLive(s.groups, size, total, gi, bi);
    GrantedLives(s, s, gi, bi, idx);
    if Logged(s.groups, s.log) { GrantedLogged(s, s, size, total, gi, bi, idx); }
  }

  /** The address of a bucket just taken is live. */
  lemma GrantedLives(s: State, p: State, gi: nat, bi: nat, idx: nat)
    requires gi < |s.groups| && (p == s || p == PoppedAt(s, gi)) && bi < |s.groups[gi].buckets|
    ensures Live(Taken(p, gi, bi, idx).groups, Addr(s.groups[gi], bi))
  {
    var gs := Taken(p, gi, bi, idx).groups;
    assert Addr(gs[gi], bi) == Addr(s.groups[gi], bi) && !gs[gi].buckets[bi].state.Free?;
  }

  lemma GrantedLogged(s: State, p: State, size: nat, total: nat, gi: nat, bi: nat, idx: nat)
    requires Laid(s.groups, size, total) && Logged(s.groups, s.log)
    requires gi < |s.groups| && (p == s || p == PoppedAt(s, gi)) && bi < |s.groups[gi].buckets|
    ensures var s' := Taken(p, gi, bi, idx); Logged(s'.groups, s'.log)
  {
    var b := Bucket(User, s.groups[gi].buckets[bi].version + 1);
    SetBucketLogged(s.groups, size, total, s.log, gi, bi, b, Claimed(p.groups[gi], bi));
    assert s.groups[gi := Claimed(p.groups[gi], bi)] == p.groups[gi := Claimed(p.groups[gi], bi)];
  }

  lemma TriedNone(s: State, w: Watermark, share: nat, full: bool)
    ensures !full ==> TriedAll(s, w, share, full) == s
    ensures |TriedAll(s, w, share, full).groups| == |s.groups| && TriedAll(s, w, share, full).open == s.open
    ensures (forall j :: 0 <= j < |s.groups| ==> !Stocked(s.groups[j], w, share)) ==> TriedAll(s, w, share, full) == s
  {
    assert !full ==> TriedAll(s, w, share, full).groups == s.groups;
    assert (forall j :: 0 <= j < |s.groups| ==> !Stocked(s.groups[j], w, share)) ==>
             TriedAll(s, w, share, full).groups == s.groups;
  }

  lemma LoggedTried(s: State, w: Watermark, share: nat, full: bool)
    ensures Logged(s.groups, s.log) ==> Logged(TriedAll(s, w, share, full).groups, TriedAll(s, w, share, full).log)
  {
    var t := TriedAll(s, w, share, full);
    if Logged(s.groups, s.log) {
      forall gi, bi | 0 <= gi < |t.groups| && 0 <= bi < |t.groups[gi].buckets|
        ensures Recorded(t.log, t.groups[gi], bi)
      {
        assert Recorded(s.log, s.groups[gi], bi);
      }
    }
  }

  function PoppedAt(s: State, gi: nat): State
    requires gi < |s.groups|
  {
    s.(groups := s.groups[gi := Popped(s.groups[gi])])
  }

  function TriedAll(s: State, w: Watermark, share: nat, full: bool): State {
    s.(groups := seq(|s.groups|, j requires 0 <= j < |s.groups| => Tried(s.groups[j], w, share, full)))
  }

  lemma OnlyTurn(start: nat, off: nat, n: nat)
    requires start < n && off < n
    ensures forall j :: 0 <= j < n && Turn(start, j, n) == off ==> j == Rot(start, off, n)
  {
    forall j | 0 <= j < n && Turn(start, j, n) == off ensures j == Rot(start, off, n) { TurnRot(start, j, n); }
  }

  lemma PoolBound(pool: OpenBucketPool)
    requires pool.Valid()
    ensures |pool.Open()| + pool.nrFree == OPEN_BUCKETS_COUNT
  {
    FreeCounts(pool.entries[..], pool.freelistHead, pool.free);
  }

  method BuildGroups(total: nat, size: nat, start: nat) returns (gs: seq<Group>)
    requires size > 0 && size % BLOCKS_PER_BUCKET == 0
    ensures Built(gs, size, total, start) && StartOf(start, |gs|, size) >= total
  {
    hide Built;
    gs := [];
    var at := start;
    NoneBuilt(size, total, start);
    while at < total
      invariant at == start + |gs| * size && Built(gs, size, total, start)
      decreases total - at
    {
      var count := Min(size, total - at);
      var n := BucketCount(count);
      var g := Group(at, count, seq(n, _ => Bucket(Free, 0)), n, Descending(n));
      FreshGroup(g);
      BuiltAppend(gs, size, total, start, g);
      MulSucc(|gs|, size);
      gs := gs + [g];
      at := at + size;
    }
  }

  /** Where the group with index i starts. */
  function StartOf(start: nat, i: nat, size: nat): nat { start + i * size }

  /** The groups start where the configuration puts them, and reach the last block. */
  ghost predicate Placed(gs: seq<Group>, start: nat, size: nat, total: nat) {
    (forall i :: 0 <= i < |gs| ==> gs[i].start == StartOf(start, i, size)) && StartOf(start, |gs|, size) >= total
  }

  ghost predicate Built(gs: seq<Group>, size: nat, total: nat, start: nat) {
    && Laid(gs, size, total) && Busy(gs) == 0
    && forall i :: 0 <= i < |gs| ==> gs[i].start == StartOf(start, i, size) && AllFree(gs[i])
  }

  lemma NoneBuilt(size: nat, total: nat, start: nat)
    requires size > 0 && size % BLOCKS_PER_BUCKET == 0
    ensures Built([], size, total, start)
  {}

  lemma BuiltAppend(gs: seq<Group>, size: nat, total: nat, start: nat, g: Group)
    requires Built(gs, size, total, start) && AllFree(g) && g.start == StartOf(start, |gs|, size) < total
    requires g.blockCount == Min(size, total - g.start) && |g.buckets| == BucketCount(g.blockCount)
    ensures Built(gs + [g], size, total, start)
  {
    hide GroupOk, CountFree, StartOf, AllFree;
    var gs' := gs + [g];
    assert gs'[..|gs|] == gs;
    forall i | 0 <= i < |gs|
      ensures gs[i].start + size <= g.start && gs[i].start % BLOCKS_PER_BUCKET == g.start % BLOCKS_PER_BUCKET
    {
      Steps(start, i, |gs|, size);
    }
    FreeCountIs(g);
  }

  lemma FreeCountIs(g: Group)
    requires AllFree(g)
    ensures |g.buckets| == CountFree(g.buckets)
  {}

  /** Steps of a multiple of the bucket size keep the offset within a bucket. */
  lemma {:induction false} Steps(start: nat, i: nat, j: nat, size: nat)
    requires i < j && size % BLOCKS_PER_BUCKET == 0
    ensures StartOf(start, i, size) + size <= StartOf(start, j, size)
    ensures StartOf(start, i, size) % BLOCKS_PER_BUCKET == StartOf(start, j, size) % BLOCKS_PER_BUCKET
    decreases j
  {
    hide StartOf;
    NextStart(start, j - 1, size);
    SameOffset(StartOf(start, j - 1, size), size);
    if i < j - 1 { Steps(start, i, j - 1, size); }
  }

  lemma SameOffset(a: nat, size: nat)
    requires size % BLOCKS_PER_BUCKET == 0
    ensures (a + size) % BLOCKS_PER_BUCKET == a % BLOCKS_PER_BUCKET
  {}

  lemma NextStart(start: nat, i: nat, size: nat)
    ensures StartOf(start, i + 1, size) == StartOf(start, i, size) + size
  {
    MulSucc(i, size);
  }

  lemma MulSucc(i: nat, n: nat)
    ensures (i + 1) * n == i * n + n
  {}

  /** Indices from the highest down to 0, so that the lowest is on top of the stack. */
  function Descending(n: nat): (s: seq<nat>)
    ensures |s| == n && forall i :: 0 <= i < n ==> s[i] == n - 1 - i
  {
    seq(n, i requires 0 <= i < n => n - 1 - i)
  }

  ghost predicate AllFree(g: Group) {
    && GroupOk(g) && |g.freeList| == |g.buckets| == CountFree(g.buckets)
    && forall i :: 0 <= i < |g.buckets| ==> g.buckets[i] == Bucket(Free, 0)
  }

  lemma FreshGroup(g: Group)
    requires forall i :: 0 <= i < |g.buckets| ==> g.buckets[i] == Bucket(Free, 0)
    requires g.freeList == Descending(|g.buckets|) && g.freeBuckets == |g.buckets|
    ensures AllFree(g)
  {
    FreshCount(g.buckets);
  }

  lemma {:induction false} FreshCount(bs: seq<Bucket>)
    requires forall i :: 0 <= i < |bs| ==> bs[i].state.Free?
    ensures CountFree(bs) == |bs|
  {
    if bs != [] { FreshCount(bs[..|bs| - 1]); }
  }

  lemma FreshSound(gs: seq<Group>, size: nat, total: nat, start: nat)
    requires Built(gs, size, total, start)
    ensures Sound(gs, 0, map[], size, total) && Logged(gs, map[])
  {}
}
