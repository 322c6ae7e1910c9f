/** Runs of the allocator, and what a fresh allocator recovers from their log. */
module Recovery {
  import opened Layouts
  import opened Watermarks
  import opened OpenBuckets
  import opened Allocation

  // ---- what recovery restores ----

  /** A free bucket's version is not recovered: it restarts at 0. */
  function Restored(b: Bucket): Bucket { if b.state.Free? then Bucket(Free, 0) else b }

  ghost predicate Frames(gs: seq<Group>, hs: seq<Group>) {
    |gs| == |hs| && forall i :: 0 <= i < |gs| ==> SameFrame(gs[i], hs[i])
  }

  /** t is s as far as the log tells: states, versions in use, counters and free sets. */
  ghost predicate Recovered(s: State, t: State) {
    && Frames(t.groups, s.groups) && t.inUse == s.inUse
    && forall gi :: 0 <= gi < |s.groups| ==> GroupRecovered(s.groups[gi], t.groups[gi])
  }

  ghost predicate GroupRecovered(g: Group, h: Group) {
    && SameFrame(h, g) && h.freeBuckets == g.freeBuckets
    && forall bi :: 0 <= bi < |g.buckets| ==>
         h.buckets[bi] == Restored(g.buckets[bi]) && (bi in h.freeList <==> g.buckets[bi].state.Free?)
  }

  lemma {:induction false} SameStatesCount(a: seq<Bucket>, b: seq<Bucket>)
    requires |a| == |b| && forall i :: 0 <= i < |a| ==> a[i].state == b[i].state
    ensures CountFree(a) == CountFree(b)
  {
    if a != [] { SameStatesCount(a[..|a| - 1], b[..|b| - 1]); }
  }

  /** What the log tells about a bucket is what recovery makes of it. */
  ghost predicate ToldAt(log: Log, g: Group, bi: nat)
    requires bi < |g.buckets|
  {
    var k := FirstIndex(g) + bi;
    Restored(g.buckets[bi]) ==
    if k in log && !log[k].state.Free? then Bucket(log[k].state, log[k].version) else Bucket(Free, 0)
  }

  ghost predicate Told(gs: seq<Group>, log: Log) {
    forall gi, bi {:trigger ToldAt(log, gs[gi], bi)} :: 0 <= gi < |gs| && 0 <= bi < |gs[gi].buckets| ==>
        ToldAt(log, gs[gi], bi)
  }

  lemma LoggedTold(gs: seq<Group>, log: Log)
    requires Logged(gs, log)
    ensures Told(gs, log)
  {
    forall gi, bi | 0 <= gi < |gs| && 0 <= bi < |gs[gi].buckets| ensures ToldAt(log, gs[gi], bi) {
      assert Recorded(log, gs[gi], bi);
    }
  }

  lemma LoadsGroup(a: State, gi: nat, h: Group)
    requires gi < |a.groups| && GroupOk(a.groups[gi])
    requires SameFrame(h, a.groups[gi]) && AllFree(h)
    ensures GroupRecovered(a.groups[gi], LoadedGroup(h, a.log)) <==>
            forall bi :: 0 <= bi < |a.groups[gi].buckets| ==> ToldAt(a.log, a.groups[gi], bi)
    ensures GroupRecovered(a.groups[gi], LoadedGroup(h, a.log)) ==>
              CountFree(LoadedGroup(h, a.log).buckets) == CountFree(a.groups[gi].buckets)
  {
    hide CountFree, ToldAt, AllFree, LoadedGroup, FreeIndices, LoadedBuckets;
    var g, r := a.groups[gi], LoadedGroup(h, a.log);
    LoadsBuckets(g, h, a.log);
    LoadsCounters(h, a.log);
    if forall bi :: 0 <= bi < |g.buckets| ==> ToldAt(a.log, g, bi) { SameStatesCount(r.buckets, g.buckets); }
  }

  /** A bucket is loaded as the log tells it. */
  lemma LoadsBuckets(g: Group, h: Group, log: Log)
    requires SameFrame(h, g) && AllFree(h)
    ensures SameFrame(LoadedGroup(h, log), g)
    ensures forall bi :: 0 <= bi < |g.buckets| ==>
              (LoadedGroup(h, log).buckets[bi] == Restored(g.buckets[bi]) <==> ToldAt(log, g, bi))
  {
    hide CountFree, FreeIndices;
    forall bi | 0 <= bi < |g.buckets|
      ensures LoadedGroup(h, log).buckets[bi] == Restored(g.buckets[bi]) <==> ToldAt(log, g, bi)
    {
      assert h.buckets[bi] == Bucket(Free, 0);
    }
  }

  lemma LoadsCounters(h: Group, log: Log)
    ensures var r := LoadedGroup(h, log);
            && r.freeBuckets == CountFree(r.buckets)
            && forall bi :: 0 <= bi < |r.buckets| ==> (bi in r.freeList <==> r.buckets[bi].state.Free?)
  {
    FreeIndicesAll(LoadedGroup(h, log).buckets);
  }

  /** Loading the log of an allocator into a fresh one of the same shape restores it exactly
      if the log tells every bucket. */
  lemma LoadRestores(a: State, b: State, size: nat, total: nat)
    requires Sound(a.groups, a.inUse, a.open, size, total)
    requires Frames(b.groups, a.groups) && forall i :: 0 <= i < |b.groups| ==> AllFree(b.groups[i])
    ensures Recovered(a, Loaded(b, a.log)) <==> Told(a.groups, a.log)
  {
    hide GroupRecovered, GroupOk, AllFree, CountFree, ToldAt;
    var t := Loaded(b, a.log);
    forall gi | 0 <= gi < |a.groups|
      ensures GroupRecovered(a.groups[gi], t.groups[gi]) <==>
              forall bi :: 0 <= bi < |a.groups[gi].buckets| ==> ToldAt(a.log, a.groups[gi], bi)
      ensures GroupRecovered(a.groups[gi], t.groups[gi]) ==>
                CountFree(t.groups[gi].buckets) == CountFree(a.groups[gi].buckets)
      ensures SameFrame(t.groups[gi], a.groups[gi])
    {
      LoadsGroup(a, gi, b.groups[gi]);
    }
    if forall gi :: 0 <= gi < |a.groups| ==> GroupRecovered(a.groups[gi], t.groups[gi]) {
      SameBusy(t.groups, a.groups);
    }
  }

  /** After a free or a completed discard that did something, recovery restores the allocator
      exactly if the log entry was made under the bucket's own index. */
  lemma RecoversIff(s: State, size: nat, total: nat, addr: nat, gi: nat, s': State, b: State)
    requires Sound(s.groups, s.inUse, s.open, size, total) && Logged(s.groups, s.log)
    requires gi < |s.groups| && Contains(s.groups[gi], addr)
    requires (s' == Freed(s, addr) || s' == Discarded(s, addr)) && s' != s
    requires Frames(b.groups, s.groups) && forall i :: 0 <= i < |b.groups| ==> AllFree(b.groups[i])
    ensures Recovered(s', Loaded(b, s'.log)) <==> OwnIndex(s.groups[gi], addr)
  {
    hide Sound, Recovered, Loaded, AllFree, Told, Logged;
    ChangedSound(s, size, total, addr, gi, s');
    LoadRestores(s', b, size, total);
    if OwnIndex(s.groups[gi], addr) {
      LoggedIff(s, size, total, addr, gi, s');
      LoggedTold(s'.groups, s'.log);
    } else {
      NotTold(s, size, total, addr, gi, s');
    }
  }

  lemma ChangedSound(s: State, size: nat, total: nat, addr: nat, gi: nat, s': State)
    requires Sound(s.groups, s.inUse, s.open, size, total)
    requires gi < |s.groups| && Contains(s.groups[gi], addr)
    requires (s' == Freed(s, addr) || s' == Discarded(s, addr)) && s' != s
    ensures Sound(s'.groups, s'.inUse, s'.open, size, total) && Frames(s'.groups, s.groups)
  {
    hide Sound, SetBucket;
    GroupOfAddr(s.groups, s.inUse, s.open, size, total, gi, addr);
    var bi := BucketAt(s.groups[gi], addr);
    StepFrames(s, Normal, 0, false, addr);
    if s' == Freed(s, addr) {
      ReleaseSound(s.groups, s.inUse, s.open, s'.open, size, total, gi, bi, s.groups[gi].buckets[bi].version + 1);
    } else {
      TrimSound(s.groups, s.inUse, s.open, size, total, gi, bi);
    }
  }

  lemma NotTold(s: State, size: nat, total: nat, addr: nat, gi: nat, s': State)
    requires Sound(s.groups, s.inUse, s.open, size, total) && Logged(s.groups, s.log)
    requires gi < |s.groups| && Contains(s.groups[gi], addr) && !OwnIndex(s.groups[gi], addr)
    requires (s' == Freed(s, addr) || s' == Discarded(s, addr)) && s' != s
    ensures !Told(s'.groups, s'.log)
  {
    hide Sound;
    GroupOfAddr(s.groups, s.inUse, s.open, size, total, gi, addr);
    var bi := BucketAt(s.groups[gi], addr);
    assert Recorded(s.log, s.groups[gi], bi);
    assert !ToldAt(s'.log, s'.groups[gi], bi);
  }

  // ---- runs ----

  datatype Step = Alloc(w: Watermark, hint: nat) | Release(addr: nat) | Trim(addr: nat) | Close(addr: nat)

  function ShareOf(s: State): nat
    requires s.groups != []
  {
    PerGroup(|s.open|, |s.groups|)
  }

  /** The open pool has room and some group has free buckets beyond reserve and share. */
  ghost predicate Grantable(s: State, w: Watermark) {
    && s.groups != [] && |s.open| < OPEN_BUCKETS_COUNT
    && exists j :: 0 <= j < |s.groups| && Spares(s.groups[j], w, |s.open|, |s.groups|)
  }

  /** What an allocation may do: take the bucket the two passes choose, or fail. */
  ghost predicate AllocOutcome(s: State, w: Watermark, hint: nat, s': State) {
    if Grantable(s, w)
    then exists gi: nat, bi: nat, addr: nat {:trigger Granted(s, s', w, ShareOf(s), gi, bi, addr)} ::
           Choice(s.groups, w, ShareOf(s), hint % |s.groups|, gi, bi) && Granted(s, s', w, ShareOf(s), gi, bi, addr)
    else s' == if s.groups == [] then s else TriedAll(s, w, ShareOf(s), |s.open| == OPEN_BUCKETS_COUNT)
  }

  ghost predicate Outcome(s: State, step: Step, s': State) {
    match step
    case Alloc(w, hint) => AllocOutcome(s, w, hint, s')
    case Release(addr) => s' == Freed(s, addr)
    case Trim(addr) => s' == Discarded(s, addr)
    case Close(addr) => s' == ClosedAt(s, addr)
  }

  /** The states of a run: each follows from the one before by one step. */
  ghost predicate IsRun(trace: seq<State>, steps: seq<Step>) {
    && |trace| == |steps| + 1
    && forall i {:trigger StepAt(trace, steps, i)} :: 0 <= i < |steps| ==> StepAt(trace, steps, i)
  }

  ghost predicate StepAt(trace: seq<State>, steps: seq<Step>, i: nat)
    requires |trace| == |steps| + 1 && i < |steps|
  {
    Outcome(trace[i], steps[i], trace[i + 1])
  }

  lemma RunNone(s: State, steps: seq<Step>)
    ensures IsRun([s], steps[..0])
  {}

  lemma RunNext(trace: seq<State>, steps: seq<Step>, i: nat, s: State)
    requires i < |steps| && IsRun(trace, steps[..i]) && Outcome(trace[i], steps[i], s)
    ensures IsRun(trace + [s], steps[..i + 1])
  {
    hide Outcome;
    var trace', steps' := trace + [s], steps[..i + 1];
    forall j | 0 <= j < i + 1 ensures StepAt(trace', steps', j) {
      if j < i { assert StepAt(trace, steps[..i], j); }
    }
  }

  /** The step is entered in the log under the index of the bucket it changes. */
  ghost predicate Aligned(gs: seq<Group>, step: Step) {
    step.Release? || step.Trim? ==>
      forall gi :: 0 <= gi < |gs| && Contains(gs[gi], step.addr) ==> OwnIndex(gs[gi], step.addr)
  }

  lemma AlignedFrames(gs: seq<Group>, hs: seq<Group>, step: Step)
    requires Frames(gs, hs) && Aligned(gs, step)
    ensures Aligned(hs, step)
  {
    forall gi | (step.Release? || step.Trim?) && 0 <= gi < |hs| && Contains(hs[gi], step.addr)
      ensures OwnIndex(hs[gi], step.addr)
    {
      assert SameFrame(gs[gi], hs[gi]) && Contains(gs[gi], step.addr) && OwnIndex(gs[gi], step.addr);
    }
  }

  lemma FreedLogged(s: State, size: nat, total: nat, addr: nat, s': State)
    requires Sound(s.groups, s.inUse, s.open, size, total) && Logged(s.groups, s.log)
    requires s' == Freed(s, addr) || s' == Discarded(s, addr)
    requires forall gi :: 0 <= gi < |s.groups| && Contains(s.groups[gi], addr) ==> OwnIndex(s.groups[gi], addr)
    ensures Logged(s'.groups, s'.log)
  {
    if s' != s { LoggedIff(s, size, total, addr, HomeOf(s.groups, addr).value, s'); }
  }

  /** No step changes where groups lie. */
  lemma StepFrames(s: State, w: Watermark, share: nat, full: bool, addr: nat)
    ensures Frames(TriedAll(s, w, share, full).groups, s.groups)
    ensures Frames(Freed(s, addr).groups, s.groups) && Frames(Discarded(s, addr).groups, s.groups)
    ensures Frames(ClosedAt(s, addr).groups, s.groups)
  {}

  lemma GrantFrames(s: State, s': State, w: Watermark, share: nat, gi: nat, bi: nat, addr: nat)
    requires Granted(s, s', w, share, gi, bi, addr)
    ensures Frames(s'.groups, s.groups)
  {}

  lemma AllocDone(s: State, s': State, w: Watermark, hint: nat, ok: bool, gi: nat, bi: nat, addr: nat)
    requires ok <==> Grantable(s, w)
    requires ok ==> s.groups != [] && Choice(s.groups, w, ShareOf(s), hint % |s.groups|, gi, bi)
    requires ok ==> Granted(s, s', w, ShareOf(s), gi, bi, addr)
    requires !ok ==> s' == if s.groups == [] then s else TriedAll(s, w, ShareOf(s), |s.open| == OPEN_BUCKETS_COUNT)
    ensures AllocOutcome(s, w, hint, s')
  {
    hide Choice, Granted, Grantable;
  }

  lemma NowSound(a: Allocator)
    requires a.Valid()
    ensures Sound(a.groups, a.inUse, a.open.Open(), a.groupSize, a.totalBlocks)
  {}

  /** One step of a run. */
  method Do(a: Allocator, step: Step)
    requires a.Valid()
    modifies a, a.open, a.open.entries, a.open.hashSlots
    ensures a.Valid() && Frames(a.groups, old(a.groups)) && Outcome(old(a.Now()), step, a.Now())
    ensures old(Logged(a.groups, a.log)) && Aligned(old(a.groups), step) ==> Logged(a.groups, a.log)
  {
    hide Choice, Spares, Granted, Freed, Discarded, TriedAll, ClosedAt, Sound, Logged, OwnIndex, AllocOutcome;
    hide InBucket, InNoGroup, FreesBucket, TrimsBucket, ClosesBucket, TakesBucket, LosesTops, Allocator.Valid;
    ghost var s := a.Now();
    NowSound(a);
    match step {
      case Alloc(w, hint) =>
        ghost var share, full := if a.groups == [] then 0 else a.ShareNow(), |a.open.Open()| == OPEN_BUCKETS_COUNT;
        var r;
        ghost var gi, bi;
        r, gi, bi := a.AllocateBucket(w, hint);
        StepFrames(s, w, share, full, 0);
        if r.Ok? { GrantFrames(s, a.Now(), w, share, gi, bi, r.value); }
        AllocDone(s, a.Now(), w, hint, r.Ok?, gi, bi, if r.Ok? then r.value else 0);
      case Release(addr) =>
        a.BucketFree(addr);
        StepFrames(s, Normal, 0, false, addr);
        if Logged(s.groups, s.log) && Aligned(s.groups, step) {
          FreedLogged(s, a.groupSize, a.totalBlocks, addr, a.Now());
        }
      case Trim(addr) =>
        a.DoTrim(addr);
        StepFrames(s, Normal, 0, false, addr);
        if Logged(s.groups, s.log) && Aligned(s.groups, step) {
          FreedLogged(s, a.groupSize, a.totalBlocks, addr, a.Now());
        }
      case Close(addr) =>
        a.PutOpen(addr);
        StepFrames(s, Normal, 0, false, addr);
        ClosedGroups(s, addr);
    }
  }

  lemma ClosedGroups(s: State, addr: nat)
    ensures ClosedAt(s, addr).groups == s.groups && ClosedAt(s, addr).log == s.log && ClosedAt(s, addr).inUse == s.inUse
  {}

  /** Any run of steps, in any order, keeps the allocator sound. */
  method Run(a: Allocator, steps: seq<Step>) returns (ghost trace: seq<State>)
    requires a.Valid()
    modifies a, a.open, a.open.entries, a.open.hashSlots
    ensures a.Valid() && Frames(a.groups, old(a.groups))
    ensures IsRun(trace, steps) && trace[0] == old(a.Now()) && trace[|steps|] == a.Now()
    ensures old(Logged(a.groups, a.log)) && (forall step :: step in steps ==> Aligned(old(a.groups), step)) ==>
              Logged(a.groups, a.log)
  {
    hide Sound, Logged, Aligned, Allocator.Valid, Outcome, IsRun;
    trace := [a.Now()];
    RunNone(a.Now(), steps);
    for i := 0 to |steps|
      invariant a.Valid() && Frames(a.groups, old(a.groups))
      invariant |trace| == i + 1 && IsRun(trace, steps[..i]) && trace[0] == old(a.Now()) && trace[i] == a.Now()
      invariant old(Logged(a.groups, a.log)) && (forall step :: step in steps ==> Aligned(old(a.groups), step)) ==>
                  Logged(a.groups, a.log)
    {
      if Aligned(old(a.groups), steps[i]) { AlignedFrames(old(a.groups), a.groups, steps[i]); }
      Do(a, steps[i]);
      RunNext(trace, steps, i, a.Now());
      trace := trace + [a.Now()];
    }
    assert steps[..|steps|] == steps;
  }

  /** Same configuration, same number of groups at the same places. */
  lemma SamePlaces(gs: seq<Group>, hs: seq<Group>, size: nat, total: nat, start: nat)
    requires Laid(gs, size, total) && Laid(hs, size, total) && Placed(gs, start, size, total) &&
             Placed(hs, start, size, total)
    ensures Frames(gs, hs)
  {
    hide StartOf;
    StartsInside(hs, size, total, start, |gs|);
    StartsInside(gs, size, total, start, |hs|);
  }

  lemma StartsInside(gs: seq<Group>, size: nat, total: nat, start: nat, i: nat)
    requires Laid(gs, size, total) && Placed(gs, start, size, total)
    ensures i < |gs| ==> StartOf(start, i, size) < total
  {
    hide StartOf;
    if i < |gs| { assert gs[i].start < total; }
  }

  /** An allocator as it is set up. */
  ghost predicate Blank(s: State, start: nat, size: nat, total: nat) {
    && s.inUse == 0 && s.log == map[] && s.open == map[]
    && Placed(s.groups, start, size, total) && forall i :: 0 <= i < |s.groups| ==> AllFree(s.groups[i])
  }

  /** Any run from an empty log, then recovery into a fresh allocator: it restores the state
      exactly if the log tells every bucket, and that it does if every free and completed
      discard was logged under the bucket's own index. */
  method RunAndRecover(total: nat, size: nat, start: nat, pool: OpenBucketPool, pool': OpenBucketPool, steps: seq<Step>)
    returns (a: Allocator, b: Allocator, ghost trace: seq<State>)
    requires size > 0 && size % BLOCKS_PER_BUCKET == 0
    requires pool.Valid() && pool.Open() == map[] && pool'.Valid() && pool'.Open() == map[]
    requires pool != pool' && pool.entries != pool'.entries && pool.hashSlots != pool'.hashSlots
    modifies pool, pool.entries, pool.hashSlots
    ensures a.Valid() && b.Valid() && b.log == map[]
    ensures IsRun(trace, steps) && Blank(trace[0], start, size, total) && trace[|steps|] == a.Now()
    ensures Recovered(a.Now(), b.Now()) <==> Told(a.groups, a.log)
    ensures (forall step :: step in steps ==> Aligned(a.groups, step)) ==> Told(a.groups, a.log)
  {
    hide Sound, Logged, Aligned, Allocator.Valid, OpenBucketPool.Valid, AllFree, Recovered, IsRun, Told;
    a := new Allocator(total, size, start, pool);
    ghost var gs := a.groups;
    trace := Run(a, steps);
    AlignedAll(gs, a.groups, steps);
    PlacesKept(gs, a.groups, start, size, total);
    b := new Allocator(total, size, start, pool');
    AllocatorLaid(a);
    AllocatorLaid(b);
    SamePlaces(b.groups, a.groups, size, total, start);
    ghost var blank := b.Now();
    b.AllocRead(a.log);
    if forall step :: step in steps ==> Aligned(a.groups, step) { LoggedTold(a.groups, a.log); }
    LoadRestores(a.Now(), blank, size, total);
    LoadedLog(blank, a.log);
  }

  lemma AllocatorLaid(a: Allocator)
    requires a.Valid()
    ensures Laid(a.groups, a.groupSize, a.totalBlocks) &&
            Sound(a.groups, a.inUse, a.open.Open(), a.groupSize, a.totalBlocks)
  {}

  lemma LoadedLog(s: State, l: Log)
    ensures Loaded(s, l).log == s.log
  {}

  lemma AlignedAll(gs: seq<Group>, hs: seq<Group>, steps: seq<Step>)
    requires Frames(hs, gs)
    ensures (forall step :: step in steps ==> Aligned(hs, step)) <==>
              (forall step :: step in steps ==> Aligned(gs, step))
  {
    hide Aligned;
    forall step | step in steps ensures Aligned(gs, step) <==> Aligned(hs, step) {
      if Aligned(gs, step) { AlignedFrames(gs, hs, step); }
      if Aligned(hs, step) { AlignedFrames(hs, gs, step); }
    }
  }

  lemma PlacesKept(gs: seq<Group>, hs: seq<Group>, start: nat, size: nat, total: nat)
    requires Frames(hs, gs) && Placed(gs, start, size, total)
    ensures Placed(hs, start, size, total)
  {
    hide StartOf;
  }
}
