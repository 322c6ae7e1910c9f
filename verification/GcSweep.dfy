/** Garbage collection of buckets: mark those that live entries refer to, then sweep. */
module GcSweep {
  import opened Wrappers
  import opened Numbers
  import opened Layouts

  const ADDR48_MAX: nat := 0x1_0000_0000_0000 - 1
  const VERSIONS: nat := 0x1_0000_0000

  /** Bucket states; all states the sweep must not touch are one. */
  datatype State = Free | User | NeedGcGens | Kept(kind: nat)
  datatype Bucket = Bucket(state: State, version: nat)

  datatype Value = Extent(paddr: nat) | BtreePtr(addr: nat) | Raw(bytes: seq<Byte>)

  function LittleEndian(b: seq<Byte>): nat {
    if b == [] then 0 else b[0] + 256 * LittleEndian(b[1..])
  }

  predicate InRange(paddr: nat) { 0 < paddr <= ADDR48_MAX }

  /** The address a raw value holds. */
  function RawAddr(v: Value): Option<nat> {
    if v.Raw? && |v.bytes| >= 6 && InRange(LittleEndian(v.bytes[..6])) then Some(LittleEndian(v.bytes[..6])) else None
  }

  /** The address a value of any kind holds. */
  function Address(v: Value): Option<nat> {
    match v
    case Extent(p) => if InRange(p) then Some(p) else None
    case BtreePtr(a) => if InRange(a) then Some(a) else None
    case Raw(_) => RawAddr(v)
  }

  /** The index of the bucket a raw value, or one of any kind, is taken to point into. */
  function RawRef(v: Value): Option<nat> {
    if RawAddr(v).Some? then Some(IndexOf(RawAddr(v).value)) else None
  }

  function Ref(v: Value): Option<nat> {
    if Address(v).Some? then Some(IndexOf(Address(v).value)) else None
  }

  /** How many of the values are taken to point into a bucket. */
  function Refs(vs: seq<Value>, bi: nat): nat {
    if vs == [] then 0 else Refs(vs[..|vs| - 1], bi) + if Ref(vs[|vs| - 1]) == Some(bi) then 1 else 0
  }

  ghost predicate Referenced(vs: seq<Value>, bi: nat) {
    exists v :: v in vs && Ref(v) == Some(bi)
  }

  ghost predicate RawReferenced(vs: seq<Value>, bi: nat) {
    exists v :: v in vs && RawRef(v) == Some(bi)
  }

  lemma {:induction false} RefsPositive(vs: seq<Value>, bi: nat)
    ensures Refs(vs, bi) > 0 <==> Referenced(vs, bi)
  {
    if vs != [] {
      var init, last := vs[..|vs| - 1], vs[|vs| - 1];
      RefsPositive(init, bi);
      assert vs == init + [last];
      assert last in vs;
    }
  }

  // ---- where the buckets lie ----

  /** A group: its first block, and how many it has. */
  datatype Region = Region(start: nat, blocks: nat)

  /** A bucket: its first block, and how many belong to the group; the last may have fewer. */
  datatype Place = Place(start: nat, len: nat)

  function BucketsOf(r: Region): nat { (r.blocks + BLOCKS_PER_BUCKET - 1) / BLOCKS_PER_BUCKET }

  function PlaceIn(r: Region, j: nat): Place
    requires j < BucketsOf(r)
  {
    Place(r.start + j * BLOCKS_PER_BUCKET, Min(BLOCKS_PER_BUCKET, r.blocks - j * BLOCKS_PER_BUCKET))
  }

  /** The buckets in the order in which the passes visit them: group after group. */
  function Places(rs: seq<Region>): seq<Place> {
    if rs == [] then []
    else
      var r := rs[|rs| - 1];
      Places(rs[..|rs| - 1]) + seq(BucketsOf(r), j requires 0 <= j < BucketsOf(r) => PlaceIn(r, j))
  }

  function Index(p: Place): nat { IndexOf(p.start) }

  /** A bucket's index is its group's first one plus its number in the group. */
  lemma PlaceIndex(r: Region, j: nat)
    requires j < BucketsOf(r)
    ensures Index(PlaceIn(r, j)) == IndexOf(r.start) + j
  {
    IndexInGroup(r.start, j);
  }

  ghost predicate Increasing(ps: seq<Place>) {
    forall i, j :: 0 <= i < j < |ps| ==> Index(ps[i]) < Index(ps[j])
  }

  /** Groups follow one another without sharing a bucket. */
  ghost predicate Apart(rs: seq<Region>) {
    forall i, j :: 0 <= i < j < |rs| ==> rs[i].start + BucketsOf(rs[i]) * BLOCKS_PER_BUCKET <= rs[j].start
  }

  /** Then different buckets have different, increasing indices. */
  lemma {:induction false} PlacesIncrease(rs: seq<Region>)
    requires Apart(rs)
    ensures Increasing(Places(rs))
    ensures forall p :: p in Places(rs) ==> exists i :: 0 <= i < |rs| && InRegion(rs[i], p)
  {
    if rs != [] {
      var init, r := rs[..|rs| - 1], rs[|rs| - 1];
      PlacesIncrease(init);
      var a, b := Places(init), seq(BucketsOf(r), j requires 0 <= j < BucketsOf(r) => PlaceIn(r, j));
      forall p | p in a ensures exists i :: 0 <= i < |rs| && InRegion(rs[i], p) {
        var i :| 0 <= i < |init| && InRegion(init[i], p);
        assert rs[i] == init[i];
      }
      forall j | 0 <= j < |b| ensures Index(b[j]) == IndexOf(r.start) + j && InRegion(r, b[j]) { PlaceIndex(r, j); }
      forall p | p in b ensures InRegion(rs[|rs| - 1], p) {}
      forall p | p in a ensures Index(p) < IndexOf(r.start) {
        var i :| 0 <= i < |init| && InRegion(init[i], p);
        assert rs[i] == init[i];
        Before(rs[i], r, p);
      }
    }
  }

  ghost predicate InRegion(r: Region, p: Place) {
    exists j: nat :: j < BucketsOf(r) && p == PlaceIn(r, j)
  }

  lemma Before(r: Region, s: Region, p: Place)
    requires InRegion(r, p) && r.start + BucketsOf(r) * BLOCKS_PER_BUCKET <= s.start
    ensures Index(p) < IndexOf(s.start)
  {
    var j: nat :| j < BucketsOf(r) && p == PlaceIn(r, j);
    PlaceIndex(r, j);
    IndexInGroup(r.start, BucketsOf(r));
  }

  /** A bucket after being marked once per value that points into it. */
  function Marked(b: Bucket, times: nat): Bucket {
    if times == 0 then b else Bucket(User, (b.version + times) % VERSIONS)
  }

  function Swept(b: Bucket, referenced: bool): Bucket {
    if (b.state.User? && !referenced) || b.state.NeedGcGens? then Bucket(Free, (b.version + 1) % VERSIONS) else b
  }

  predicate Reclaimable(b: Bucket, referenced: bool) { (b.state.User? && !referenced) || b.state.NeedGcGens? }

  datatype Stats = Stats(count: nat, reclaimed: seq<nat>, skipped: nat)

  /** The indices of the buckets reclaimed, in order. */
  function Reclaimed(bs: seq<Bucket>, ps: seq<Place>, refs: set<nat>): seq<nat>
    requires |ps| == |bs|
  {
    if bs == [] then []
    else
      var n := |bs| - 1;
      Reclaimed(bs[..n], ps[..n], refs) + if Reclaimable(bs[n], Index(ps[n]) in refs) then [Index(ps[n])] else []
  }

  /** How many buckets were skipped for their state. */
  function Skipped(bs: seq<Bucket>): nat {
    if bs == [] then 0
    else Skipped(bs[..|bs| - 1]) + if bs[|bs| - 1].state.User? || bs[|bs| - 1].state.NeedGcGens? then 0 else 1
  }

  /** The bucket at position i has index x and is reclaimed. */
  ghost predicate TakenAt(bs: seq<Bucket>, ps: seq<Place>, refs: set<nat>, x: nat, i: nat)
    requires i < |bs| == |ps|
  {
    Index(ps[i]) == x && Reclaimable(bs[i], x in refs)
  }

  lemma {:induction false} ReclaimedAre(bs: seq<Bucket>, ps: seq<Place>, refs: set<nat>)
    requires |ps| == |bs|
    ensures forall x: nat :: x in Reclaimed(bs, ps, refs) <==> exists i :: 0 <= i < |bs| && TakenAt(bs, ps, refs, x, i)
    ensures Increasing(ps) ==> forall i, j :: 0 <= i < j < |Reclaimed(bs, ps, refs)| ==>
                                                Reclaimed(bs, ps, refs)[i] < Reclaimed(bs, ps, refs)[j]
  {
    if bs != [] {
      var n := |bs| - 1;
      ReclaimedAre(bs[..n], ps[..n], refs);
      var r, all := Reclaimed(bs[..n], ps[..n], refs), Reclaimed(bs, ps, refs);
      forall x: nat ensures x in all <==> exists i :: 0 <= i < |bs| && TakenAt(bs, ps, refs, x, i) {
        ReclaimedOne(bs, ps, refs, x);
      }
      if Increasing(ps) {
        forall i | 0 <= i < |r| ensures r[i] < Index(ps[n]) {
          assert r[i] in r;
          var k :| 0 <= k < n && TakenAt(bs[..n], ps[..n], refs, r[i], k);
        }
      }
    }
  }

  lemma ReclaimedOne(bs: seq<Bucket>, ps: seq<Place>, refs: set<nat>, x: nat)
    requires |ps| == |bs| > 0
    requires var n := |bs| - 1;
             x in Reclaimed(bs[..n], ps[..n], refs) <==> exists i :: 0 <= i < n && TakenAt(bs[..n], ps[..n], refs, x, i)
    ensures x in Reclaimed(bs, ps, refs) <==> exists i :: 0 <= i < |bs| && TakenAt(bs, ps, refs, x, i)
  {
    var n := |bs| - 1;
    forall i | 0 <= i < n ensures TakenAt(bs[..n], ps[..n], refs, x, i) <==> TakenAt(bs, ps, refs, x, i) {}
    assert x in Reclaimed(bs, ps, refs) <==> x in Reclaimed(bs[..n], ps[..n], refs) || TakenAt(bs, ps, refs, x, n);
  }

  class Buckets {
    const places: seq<Place>
    const buckets: array<Bucket>

    ghost predicate Valid() { |places| == buckets.Length }

    constructor (rs: seq<Region>, bs: seq<Bucket>)
      requires |bs| == |Places(rs)|
      ensures Valid() && places == Places(rs) && buckets[..] == bs && fresh(buckets)
    {
      places := Places(rs);
      buckets := new Bucket[|bs|](i requires 0 <= i < |bs| => bs[i]);
    }

    /** Marks the bucket a value is taken to point into, if it is one of these. */
    method MarkKey(v: Value)
      requires Valid()
      modifies buckets
      ensures forall i :: 0 <= i < buckets.Length ==>
                buckets[i] == if Ref(v) == Some(Index(places[i])) then Marked(old(buckets[i]), 1) else old(buckets[i])
    {
      var paddr: nat;
      match v {
        case Extent(p) => paddr := p;
        case BtreePtr(a) => paddr := a;
        case Raw(bytes) =>
          if |bytes| < 6 { return; }
          paddr := FromLittleEndian(bytes[..6]);
      }
      if paddr == 0 || paddr > ADDR48_MAX { return; }
      var idx := paddr / BLOCKS_PER_BUCKET;
      for i := 0 to buckets.Length
        invariant forall j :: 0 <= j < buckets.Length ==>
                    buckets[j] ==
                    if j < i && Index(places[j]) == idx then Marked(old(buckets[j]), 1) else old(buckets[j])
      {
        if Index(places[i]) == idx { buckets[i] := Bucket(User, (buckets[i].version + 1) % VERSIONS); }
      }
    }

    /** Marks for all live entries. */
    method MarkAll(entries: seq<Value>)
      requires Valid()
      modifies buckets
      ensures forall i :: 0 <= i < buckets.Length ==>
                buckets[i] == Marked(old(buckets[i]), Refs(entries, Index(places[i])))
    {
      for n := 0 to |entries|
        invariant forall i :: 0 <= i < buckets.Length ==>
                    buckets[i] == Marked(old(buckets[i]), Refs(entries[..n], Index(places[i])))
      {
        assert entries[..n + 1][..n] == entries[..n];
        ghost var was := buckets[..];
        MarkKey(entries[n]);
        forall i | 0 <= i < buckets.Length
          ensures buckets[i] == Marked(old(buckets[i]), Refs(entries[..n + 1], Index(places[i])))
        {
          assert was[i] == Marked(old(buckets[i]), Refs(entries[..n], Index(places[i])));
          MarkedMore(old(buckets[i]), Refs(entries[..n], Index(places[i])));
        }
      }
      assert entries[..|entries|] == entries;
    }

    /** Frees the buckets in use that no raw value points into, and those that waited for
        this pass; all other states are left alone. */
    method Sweep(entries: seq<Value>) returns (stats: Stats)
      requires Valid()
      modifies buckets
      ensures SweepResult(old(buckets[..]), buckets[..], places, entries, stats)
    {
      hide RawReferenced, Reclaimed, Swept, Skipped, SweepResult;
      var refs := RawTargets(entries);
      stats := SweepAgainst(refs);
      SweepBy(old(buckets[..]), buckets[..], places, refs, entries, stats);
    }

    method SweepAgainst(refs: set<nat>) returns (stats: Stats)
      requires Valid()
      modifies buckets
      ensures forall i :: 0 <= i < buckets.Length ==> buckets[i] == Swept(old(buckets[i]), Index(places[i]) in refs)
      ensures stats.reclaimed == Reclaimed(old(buckets[..]), places, refs)
      ensures stats.count == |stats.reclaimed| && stats.skipped == Skipped(old(buckets[..]))
    {
      stats := Stats(0, [], 0);
      ghost var was := buckets[..];
      for i := 0 to buckets.Length
        invariant forall j :: 0 <= j < buckets.Length ==>
                    buckets[j] == if j < i then Swept(was[j], Index(places[j]) in refs) else was[j]
        invariant stats.reclaimed == Reclaimed(was[..i], places[..i], refs)
        invariant stats.count == |stats.reclaimed| && stats.skipped == Skipped(was[..i])
      {
        assert was[..i + 1][..i] == was[..i] && places[..i + 1][..i] == places[..i];
        var b, idx := buckets[i], Index(places[i]);
        if b.state.User? {
          if idx !in refs {
            buckets[i] := Bucket(Free, (b.version + 1) % VERSIONS);
            stats := Stats(stats.count + 1, stats.reclaimed + [idx], stats.skipped);
          }
        } else if b.state.NeedGcGens? {
          buckets[i] := Bucket(Free, (b.version + 1) % VERSIONS);
          stats := Stats(stats.count + 1, stats.reclaimed + [idx], stats.skipped);
        } else {
          stats := stats.(skipped := stats.skipped + 1);
        }
      }
      assert was[..buckets.Length] == was && places[..buckets.Length] == places;
    }
  }

  /** What a sweep does to the buckets, and what it reports: exactly the buckets it turned
      free, in order, and how many it skipped for their state. */
  ghost predicate SweepResult(was: seq<Bucket>, now: seq<Bucket>, ps: seq<Place>, entries: seq<Value>, stats: Stats) {
    && |now| == |was| == |ps|
    && (forall i :: 0 <= i < |was| ==> now[i] == Swept(was[i], RawReferenced(entries, Index(ps[i]))))
    && (forall x: nat :: x in stats.reclaimed <==>
          exists i :: 0 <= i < |was| && Index(ps[i]) == x && Reclaimable(was[i], RawReferenced(entries, x)))
    && (Increasing(ps) ==> forall i, j :: 0 <= i < j < |stats.reclaimed| ==> stats.reclaimed[i] < stats.reclaimed[j])
    && stats.count == |stats.reclaimed| && stats.skipped == Skipped(was)
  }

  lemma SweepBy(was: seq<Bucket>, now: seq<Bucket>, ps: seq<Place>, refs: set<nat>, entries: seq<Value>, stats: Stats)
    requires forall x: nat :: x in refs <==> RawReferenced(entries, x)
    requires |now| == |was| == |ps| && forall i :: 0 <= i < |was| ==> now[i] == Swept(was[i], Index(ps[i]) in refs)
    requires stats.reclaimed == Reclaimed(was, ps, refs) && stats.count == |stats.reclaimed|
    requires stats.skipped == Skipped(was)
    ensures SweepResult(was, now, ps, entries, stats)
  {
    hide RawReferenced, Reclaimed, Skipped, Swept, Reclaimable, Index, Increasing;
    ReclaimedAre(was, ps, refs);
    forall i | 0 <= i < |was| ensures now[i] == Swept(was[i], RawReferenced(entries, Index(ps[i]))) {
      assert Index(ps[i]) in refs <==> RawReferenced(entries, Index(ps[i]));
    }
    forall x: nat
      ensures x in stats.reclaimed <==>
              exists i :: 0 <= i < |was| && Index(ps[i]) == x && Reclaimable(was[i], RawReferenced(entries, x))
    {
      assert x in refs <==> RawReferenced(entries, x);
      assert forall i :: 0 <= i < |was| ==>
          (TakenAt(was, ps, refs, x, i) <==> Index(ps[i]) == x && Reclaimable(was[i], RawReferenced(entries, x)));
    }
  }

  /** The buckets raw values point into. */
  method RawTargets(entries: seq<Value>) returns (refs: set<nat>)
    ensures forall x: nat :: x in refs <==> RawReferenced(entries, x)
  {
    hide RawReferenced;
    refs := {};
    NoRaw();
    for n := 0 to |entries|
      invariant forall x: nat :: x in refs <==> RawReferenced(entries[..n], x)
    {
      var v := entries[n];
      if v.Raw? && |v.bytes| >= 6 {
        var paddr := FromLittleEndian(v.bytes[..6]);
        if paddr > 0 && paddr <= ADDR48_MAX { refs := refs + {paddr / BLOCKS_PER_BUCKET}; }
      }
      NextRaw(entries, n);
    }
    assert entries[..|entries|] == entries;
  }

  lemma NoRaw()
    ensures forall x: nat :: !RawReferenced([], x)
  {}

  method FromLittleEndian(b: seq<Byte>) returns (n: nat)
    ensures n == LittleEndian(b)
  {
    n := 0;
    var i := |b|;
    while i > 0
      invariant 0 <= i <= |b| && n == LittleEndian(b[i..])
    {
      i := i - 1;
      n := b[i] + 256 * n;
      assert b[i..][1..] == b[i + 1..];
    }
    assert b[0..] == b;
  }

  lemma NextRaw(vs: seq<Value>, n: nat)
    requires n < |vs|
    ensures forall x: nat :: RawReferenced(vs[..n + 1], x) <==> RawReferenced(vs[..n], x) || RawRef(vs[n]) == Some(x)
  {
    assert vs[..n + 1] == vs[..n] + [vs[n]];
    assert vs[n] in vs[..n + 1];
  }

  /** Marking once more. */
  lemma MarkedMore(b: Bucket, times: nat)
    ensures Marked(Marked(b, times), 1) == Marked(b, times + 1)
  {
    if times > 0 { assert ((b.version + times) % VERSIONS + 1) % VERSIONS == (b.version + times + 1) % VERSIONS; }
  }

  // ---- mark and sweep together ----

  /** What both passes make of a bucket with a given index. */
  ghost function Collected(b: Bucket, vs: seq<Value>, bi: nat): Bucket {
    Swept(Marked(b, Refs(vs, bi)), RawReferenced(vs, bi))
  }

  method Collect(s: Buckets, entries: seq<Value>) returns (stats: Stats)
    requires s.Valid()
    modifies s.buckets
    ensures forall i :: 0 <= i < s.buckets.Length ==>
              s.buckets[i] == Collected(old(s.buckets[i]), entries, Index(s.places[i]))
  {
    s.MarkAll(entries);
    ghost var marked := s.buckets[..];
    stats := s.Sweep(entries);
    forall i | 0 <= i < s.buckets.Length
      ensures s.buckets[i] == Collected(old(s.buckets[i]), entries, Index(s.places[i]))
    {
      assert s.buckets[..][i] == Swept(marked[i], RawReferenced(entries, Index(s.places[i])));
    }
  }

  /** After both passes a bucket is in use exactly if a raw value has its index. Any other one
      is free if some value has its index, or it was in use or waiting for generations; else it
      is untouched, whatever its state. Each mark and each sweep counts the version up. */
  lemma IndexInUse(b: Bucket, vs: seq<Value>, bi: nat)
    ensures Collected(b, vs, bi).state.User? <==> RawReferenced(vs, bi)
    ensures Collected(b, vs, bi) ==
            if RawReferenced(vs, bi) then Bucket(User, (b.version + Refs(vs, bi)) % VERSIONS)
            else if Referenced(vs, bi) || b.state == User || b.state == NeedGcGens
            then Bucket(Free, (b.version + Refs(vs, bi) + 1) % VERSIONS)
            else b
  {
    RefsPositive(vs, bi);
    if RawReferenced(vs, bi) {
      var v :| v in vs && RawRef(v) == Some(bi);
      assert Ref(v) == Some(bi);
    }
    OnceMore(b.version + Refs(vs, bi));
  }

  lemma OnceMore(n: nat)
    ensures (n % VERSIONS + 1) % VERSIONS == (n + 1) % VERSIONS
  {}

  // ---- which bucket an address lies in ----

  predicate LiesIn(p: Place, addr: nat) { p.start <= addr < p.start + p.len }

  /** Some value holds an address in the bucket. */
  ghost predicate PointedInto(vs: seq<Value>, p: Place) {
    exists v :: v in vs && Address(v).Some? && LiesIn(p, Address(v).value)
  }

  /** A raw value that keeps the bucket: its address lies in the bucket and is not so far
      behind its start that the next index is taken for it, or it lies before the bucket but
      not before the last multiple of the bucket size. */
  predicate Keeps(p: Place, v: Value) {
    RawAddr(v).Some? &&
    var a, r := RawAddr(v).value, p.start % BLOCKS_PER_BUCKET;
    if p.start <= a then r + (a - p.start) < BLOCKS_PER_BUCKET else p.start - r <= a
  }

  lemma KeepsIsIndex(p: Place, v: Value)
    ensures Keeps(p, v) <==> RawRef(v) == Some(Index(p))
  {
    if RawAddr(v).Some? && p.start <= RawAddr(v).value < p.start + BLOCKS_PER_BUCKET {
      IndexIff(p.start, RawAddr(v).value);
    }
  }

  /** After both passes a bucket is in use exactly if some raw value keeps it. */
  lemma InUseIff(b: Bucket, vs: seq<Value>, p: Place)
    ensures Collected(b, vs, Index(p)).state.User? <==> exists v :: v in vs && Keeps(p, v)
  {
    hide Keeps, RawRef, Index;
    IndexInUse(b, vs, Index(p));
    forall v ensures Keeps(p, v) <==> RawRef(v) == Some(Index(p)) { KeepsIsIndex(p, v); }
  }

  /** So the collector keeps exactly the buckets that live entries point into if and only if,
      for each bucket, a raw value keeps it whenever some value points into it, and only then.
      It fails for values of other kinds, which the sweep does not see, and for addresses whose
      index is not that of the bucket they lie in. */
  lemma CollectsRightIff(bs: seq<Bucket>, ps: seq<Place>, vs: seq<Value>)
    requires |ps| == |bs|
    ensures (forall i :: 0 <= i < |bs| ==>
               (Collected(bs[i], vs, Index(ps[i])).state.User? <==> PointedInto(vs, ps[i]))) <==>
            && (forall i, v :: 0 <= i < |bs| && v in vs && Address(v).Some? && LiesIn(ps[i], Address(v).value) ==>
                                 exists w :: w in vs && Keeps(ps[i], w))
            && (forall i, v :: 0 <= i < |bs| && v in vs && Keeps(ps[i], v) ==>
                                 exists w :: w in vs && Address(w).Some? && LiesIn(ps[i], Address(w).value))
  {
    hide Keeps, LiesIn, Collected, Index;
    forall i | 0 <= i < |bs|
      ensures Collected(bs[i], vs, Index(ps[i])).state.User? <==> exists v :: v in vs && Keeps(ps[i], v)
    {
      InUseIff(bs[i], vs, ps[i]);
    }
  }

  /** For raw values only, the passes are right about a bucket, whatever the values are, if
      and only if the bucket starts at a multiple of the bucket size. */
  lemma RawRightIff(p: Place)
    requires p.start <= ADDR48_MAX && p.len == BLOCKS_PER_BUCKET
    ensures (forall b: Bucket, vs: seq<Value> {:trigger Collected(b, vs, Index(p))} ::
               (forall v :: v in vs ==> v.Raw?) ==>
               (Collected(b, vs, Index(p)).state.User? <==> PointedInto(vs, p))) <==>
            p.start % BLOCKS_PER_BUCKET == 0
  {
    if p.start % BLOCKS_PER_BUCKET == 0 {
      forall b: Bucket, vs: seq<Value> | forall v :: v in vs ==> v.Raw?
        ensures Collected(b, vs, Index(p)).state.User? <==> PointedInto(vs, p)
      {
        InUseIff(b, vs, p);
        if v :| v in vs && Keeps(p, v) { assert Address(v) == RawAddr(v); }
        if v :| v in vs && Address(v).Some? && LiesIn(p, Address(v).value) { assert Keeps(p, v); }
      }
    } else {
      var v := RawOf(if p.start > 1 then p.start - 1 else BLOCKS_PER_BUCKET);
      InUseIff(Bucket(Free, 0), [v], p);
      assert v in [v] && (Keeps(p, v) <==> p.start > 1);
      assert Collected(Bucket(Free, 0), [v], Index(p)).state.User? <==> !PointedInto([v], p);
    }
  }

  function Bytes(a: nat, n: nat): (b: seq<Byte>)
    ensures |b| == n
  {
    if n == 0 then [] else [a % 256] + Bytes(a / 256, n - 1)
  }

  lemma BytesBack(a: nat)
    requires a <= ADDR48_MAX
    ensures LittleEndian(Bytes(a, 6)) == a
  {
    var b := a / 256;
    var c := b / 256;
    var d := c / 256;
    var e := d / 256;
    var f := e / 256;
    OneByte(f, 0);
    OneByte(e, 1);
    OneByte(d, 2);
    OneByte(c, 3);
    OneByte(b, 4);
    OneByte(a, 5);
    assert f / 256 == 0 && LittleEndian(Bytes(f / 256, 0)) == 0;
  }

  lemma OneByte(a: nat, n: nat)
    ensures LittleEndian(Bytes(a, n + 1)) == a % 256 + 256 * LittleEndian(Bytes(a / 256, n))
  {
    assert ([a % 256] + Bytes(a / 256, n))[1..] == Bytes(a / 256, n);
  }

  /** A raw value that holds an address. */
  function RawOf(a: nat): (v: Value)
    requires InRange(a)
    ensures RawAddr(v) == Some(a)
  {
    BytesBack(a);
    assert Bytes(a, 6)[..6] == Bytes(a, 6);
    Raw(Bytes(a, 6))
  }

  /** The first bucket behind the reserved blocks, held by one raw value with an address near
      its end: the passes free it and take the next one into use. */
  lemma FirstBucketFreed()
    ensures var ps, vs := Places([Region(8, 512)]), [RawOf(258)];
            && |ps| == 2 && PointedInto(vs, ps[0]) && !PointedInto(vs, ps[1])
            && Collected(Bucket(User, 0), vs, Index(ps[0])).state.Free?
            && Collected(Bucket(Free, 0), vs, Index(ps[1])).state.User?
  {
    var r, v := Region(8, 512), RawOf(258);
    assert [r][..0] == [] && Places([r]) == Places([]) + [PlaceIn(r, 0), PlaceIn(r, 1)];
    var ps, vs := Places([r]), [v];
    assert ps[0] == Place(8, 256) && ps[1] == Place(264, 256);
    assert v in vs && Address(v) == Some(258) && LiesIn(ps[0], 258) && Ref(v) == Some(1);
    IndexInUse(Bucket(User, 0), vs, 0);
    IndexInUse(Bucket(Free, 0), vs, 1);
    RefsPositive(vs, 0);
    assert Keeps(ps[1], v);
    InUseIff(Bucket(Free, 0), vs, ps[1]);
  }
}
