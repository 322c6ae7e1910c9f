/** A B-tree node: one compacted run and two incremental runs of records laid out in a
    buffer of fixed size, with an optional search array behind the compacted run. */
module BtreeNodes {
  import opened Wrappers
  import opened Numbers
  import opened Records

  const DEFAULT_NODE_SIZE: nat := 262144
  /** Packed size of a key with a block value, and of one slot of the search array. */
  const ENTRY_SIZE: nat := 32
  const AUX_ENTRY_SIZE: nat := 25
  const WHITEOUT_THRESHOLD_FRACTION: nat := 8
  /** Smallest buffer for which a node that has no room holds at least two keys. */
  const MIN_NODE_SIZE: nat := 96

  datatype Bset = Bset(start: nat, aux: bool, recs: seq<Rec>) {
    function End(): nat { start + 32 * |recs| }
    function Limit(): nat { if aux then End() + 25 * |recs| else End() }
  }

  const EMPTY_SET := Bset(0, false, [])

  datatype Node = Node(level: nat, size: nat, s0: Bset, s1: Bset, s2: Bset, keyCount: nat, whiteouts: nat) {
    /** All records, in the order in which later records override earlier ones. */
    function All(): seq<Rec> { s0.recs + s1.recs + s2.recs }

    function Map(): map<Key, BchVal> { View(All()) }

    /** First free byte behind every run and search array. */
    function FreeStart(): nat { RoundUp8(Max(s0.Limit(), Max(s1.Limit(), s2.Limit()))) }

    function DropAux(): Node { this.(s0 := s0.(aux := false)) }

    /** Room for one more record, giving up the search array if need be. */
    predicate Fits() { DropAux().FreeStart() + 32 <= size }

    predicate CompactFits() { FreeStart() + 32 <= size }

    function TotalBytes(): nat { 32 * |All()| }

    predicate Underfull() { TotalBytes() < size / 3 }

    predicate ShouldSplit() { TotalBytes() / 8 > (size / 8) * 3 / 4 }

    predicate CanAbsorb(other: Node) { TotalBytes() + other.TotalBytes() + 32 + 64 <= size }

    /** No record yet overwritten: the runs and the search array do not overlap; the first
        run is sorted. */
    ghost predicate Wf() { Laid() && Strict(s0.recs) }

    ghost predicate Laid() {
      && size >= MIN_NODE_SIZE && size % 8 == 0
      && s0.start == 0 && s0.start % 8 == 0 && s1.start % 8 == 0 && s2.start % 8 == 0
      && !s1.aux && !s2.aux
      && (s1.recs != [] ==> s0.Limit() <= s1.start)
      && (s2.recs != [] ==> s0.Limit() <= s2.start && s1.End() <= s2.start)
      && (s1.recs == [] ==> s1.start == 0) && (s2.recs == [] ==> s2.start == 0)
      && s0.Limit() <= size && s1.End() <= size && s2.End() <= size
    }

    /** The entry counter never exceeds the records (tombstones are not counted) and is zero
        for an empty node only. */
    ghost predicate Counted() {
      keyCount <= |All()| && (keyCount == 0 ==> All() == [])
    }

    /** A node rewritten as one sorted run without a search array. */
    ghost predicate OneRun(rs: seq<Rec>) {
      s0 == Bset(0, false, rs) && s1 == EMPTY_SET && s2 == EMPTY_SET && keyCount == |rs|
    }
  }

  /** The node cache: nodes by address. */
  type Nodes = map<nat, Node>

  function RoundUp8(n: nat): (r: nat)
    ensures n <= r < n + 8 && r % 8 == 0
  {
    (n + 7) / 8 * 8
  }

  function NewNode(level: nat): (n: Node)
    ensures n.Wf() && n.Counted() && n.Map() == map[] && n.All() == []
  {
    Node(level, DEFAULT_NODE_SIZE, EMPTY_SET, EMPTY_SET, EMPTY_SET, 0, 0)
  }

  /** The records of a node fit its buffer one after the other. */
  lemma RecordsFit(n: Node)
    requires n.Laid()
    ensures 32 * |n.All()| <= n.size
    ensures n.All() == [] ==> n.Fits()
  {}

  lemma WfLaid(n: Node)
    requires n.Wf()
    ensures n.Laid()
  {}

  /** A single run without a search array has room as long as one slot is left. */
  lemma OneRunFits(n: Node, rs: seq<Rec>)
    requires n.OneRun(rs) && 32 * |rs| + 32 <= n.size && n.size % 8 == 0
    ensures n.Fits() && n.All() == rs && n.Counted()
    ensures n.size >= MIN_NODE_SIZE ==> n.Laid()
    ensures n.size >= MIN_NODE_SIZE && Strict(rs) ==> n.Wf()
  {
    assert n.All() == rs;
    assert RoundUp8(32 * |rs|) == 32 * |rs|;
  }

  // ---- inserting ----

  /** Writes a record at the end of the active incremental run, placing an empty run at
      the first free byte. */
  function Put(n: Node, r: Rec): (n': Node)
    ensures n'.All() == n.All() + [r]
  {
    if n.s2.recs == [] then
      var run := if n.s1.recs == [] then Bset(n.FreeStart(), false, []) else n.s1;
      assert n.s0.recs + (run.recs + [r]) + [] == n.All() + [r];
      n.(s1 := run.(recs := run.recs + [r]))
    else
      assert n.s0.recs + n.s1.recs + (n.s2.recs + [r]) == n.All() + [r];
      n.(s2 := n.s2.(recs := n.s2.recs + [r]))
  }

  lemma FreeStartBounds(n: Node)
    ensures n.s0.Limit() <= n.FreeStart() && n.s1.Limit() <= n.FreeStart() && n.s2.Limit() <= n.FreeStart()
    ensures n.FreeStart() % 8 == 0
  {}

  lemma PutWf(n: Node, r: Rec)
    requires n.Wf() && n.CompactFits()
    ensures Put(n, r).Wf()
  {
    FreeStartBounds(n);
  }

  /** The record was added to the last of the incremental runs, the first one if none has
      any, and takes the room of one. */
  ghost predicate Appended(n: Node, n': Node, r: Rec) {
    && n'.size == n.size && n'.s0.recs == n.s0.recs && n'.FreeStart() <= n.FreeStart() + 32
    && if n.s2.recs == []
       then n'.s1.recs == n.s1.recs + [r] && n'.s2.recs == []
       else n'.s1.recs == n.s1.recs && n'.s2.recs == n.s2.recs + [r]
  }

  lemma PutAppended(n: Node, r: Rec)
    requires n.Wf()
    ensures Appended(n, Put(n, r), r) && Appended(n, Put(n.DropAux(), r), r)
  {
    hide RoundUp8, Node.FreeStart;
    PutEnds(n, r);
    PutEnds(n.DropAux(), r);
    DropAuxEnds(n);
  }

  lemma PutEnds(n: Node, r: Rec)
    requires n.Laid()
    ensures Put(n, r).FreeStart() <= n.FreeStart() + 32
  {
    PutLimits(n, r);
    var n' := Put(n, r);
    hide RoundUp8, Put;
    FreeStartBounds(n);
    UpTo8(Max(n'.s0.Limit(), Max(n'.s1.Limit(), n'.s2.Limit())), n.FreeStart() + 32);
  }

  lemma PutLimits(n: Node, r: Rec)
    requires n.Laid()
    ensures var n', e := Put(n, r), n.FreeStart() + 32; n'.s0.Limit() <= e && n'.s1.Limit() <= e && n'.s2.Limit() <= e
  {
    FreeStartBounds(n);
    hide RoundUp8, Node.FreeStart;
  }

  lemma DropAuxEnds(n: Node)
    ensures n.DropAux().FreeStart() <= n.FreeStart()
  {
    var d := n.DropAux();
    RoundUp8Monotone(Max(d.s0.Limit(), Max(d.s1.Limit(), d.s2.Limit())),
                     Max(n.s0.Limit(), Max(n.s1.Limit(), n.s2.Limit())));
  }

  lemma UpTo8(a: nat, b: nat)
    requires a <= b && b % 8 == 0
    ensures RoundUp8(a) <= b
  {}

  /** Appends a record to the active incremental run if there is room for it. */
  method Append(n: Node, r: Rec) returns (ok: bool, n': Node)
    requires n.Wf()
    ensures n'.Wf() && n'.level == n.level && n'.size == n.size
    ensures n'.keyCount == n.keyCount && n'.whiteouts == n.whiteouts
    ensures ok <==> n.Fits()
    ensures n'.All() == if ok then n.All() + [r] else n.All()
    ensures ok ==> Appended(n, n', r)
  {
    hide Appended, RoundUp8, Node.FreeStart;
    PutAppended(n, r);
    n' := n;
    if n'.FreeStart() + ENTRY_SIZE > n'.size {
      if n'.s0.aux { n' := n'.DropAux(); }
      if n'.FreeStart() + ENTRY_SIZE > n'.size {
        ok := false;
        return;
      }
    } else {
      DropAuxHelps(n);
    }
    PutWf(n', r);
    n' := Put(n', r);
    ok := true;
  }

  lemma DropAuxHelps(n: Node)
    requires n.CompactFits()
    ensures n.Fits()
  {
    DropAuxEnds(n);
  }

  lemma RoundUp8Monotone(a: nat, b: nat)
    requires a <= b
    ensures RoundUp8(a) <= RoundUp8(b)
  {}

  method Insert(n: Node, key: Key, val: BchVal) returns (ok: bool, n': Node)
    requires n.Wf()
    ensures n'.Wf() && n'.level == n.level && n'.size == n.size
    ensures n'.keyCount == if ok then n.keyCount + 1 else n.keyCount
    ensures ok <==> n.Fits()
    ensures n'.All() == if ok then n.All() + [Rec(key, Normal, val)] else n.All()
    ensures ok ==> Appended(n, n', Rec(key, Normal, val))
    ensures n.Counted() ==> n'.Counted()
  {
    ok, n' := Append(n, Rec(key, Normal, val));
    if ok { n' := n'.(keyCount := n'.keyCount + 1); }
  }

  // ---- compaction ----

  /** Merges all runs into one sorted run with one live record per key. */
  method Compact(n: Node) returns (n': Node)
    requires n.Laid()
    ensures n'.Wf() && n'.level == n.level && n'.size == n.size
    ensures n'.All() == Compacted(n.All())
    ensures n'.s1 == EMPTY_SET && n'.s2 == EMPTY_SET
    ensures n'.keyCount == |n'.All()| && n'.whiteouts == 0 && n'.Counted()
    ensures n'.s0.aux <==> n'.All() != [] && 57 * |n'.All()| <= n.size
  {
    RecordsFit(n);
    var live := Compacted(n.All());
    CompactKeepsView(n.All());
    var aux := live != [] && 32 * |live| + AUX_ENTRY_SIZE * |live| <= n.size;
    n' := n.(s0 := Bset(0, aux, live), s1 := EMPTY_SET, s2 := EMPTY_SET, keyCount := |live|, whiteouts := 0);
    assert live + [] + [] == live;
  }

  // ---- deleting ----

  /** A Normal record exists and no Deleted record shadows it, wherever the latter stands. */
  ghost predicate HasLive(rs: seq<Rec>, key: Key) {
    && (exists r :: r in rs && r.key == key && r.kind.Normal?)
    && (forall r :: r in rs && r.key == key ==> !r.kind.Deleted?)
  }

  function Count(rs: seq<Rec>, key: Key): nat {
    if rs == [] then 0 else (if rs[0].key == key then 1 else 0) + Count(rs[1..], key)
  }

  /** Overwrites the kind of the first record of the key. */
  function MarkFirst(rs: seq<Rec>, key: Key): (r: seq<Rec>)
    ensures |r| == |rs|
  {
    if rs == [] then []
    else if rs[0].key == key then [rs[0].(kind := Deleted)] + rs[1..]
    else [rs[0]] + MarkFirst(rs[1..], key)
  }

  /** Whether deleting the key from these records takes it out of the map: the delete
      must be accepted, and without room for a tombstone the key must stand only once. */
  ghost predicate DeleteRemoves(n: Node, key: Key) {
    HasLive(n.All(), key) && (n.Fits() || Count(n.All(), key) == 1)
  }

  method ScanLive(rs: seq<Rec>, key: Key) returns (live: bool)
    ensures live == HasLive(rs, key)
  {
    var normalFound := false;
    for i := 0 to |rs|
      invariant normalFound <==> exists j :: 0 <= j < i && rs[j].key == key && rs[j].kind.Normal?
      invariant forall j :: 0 <= j < i && rs[j].key == key ==> !rs[j].kind.Deleted?
    {
      if rs[i].key == key {
        if rs[i].kind.Deleted? { return false; }
        normalFound := true;
      }
    }
    live := normalFound;
  }

  lemma {:induction false} MarkFirstLatest(rs: seq<Rec>, key: Key, k: Key)
    requires HasLive(rs, key)
    ensures Latest(rs, key).Some? && Count(rs, key) >= 1
    ensures Latest(MarkFirst(rs, key), k) ==
            if k == key && Count(rs, key) == 1 then Some(Latest(rs, k).value.(kind := Deleted))
            else Latest(rs, k)
  {
    LatestCons(rs[0], rs[1..], k);
    LatestCons(rs[0], rs[1..], key);
    assert rs == [rs[0]] + rs[1..];
    if rs[0].key == key {
      LatestCons(rs[0].(kind := Deleted), rs[1..], k);
      CountLatest(rs[1..], key);
    } else {
      assert HasLive(rs[1..], key);
      MarkFirstLatest(rs[1..], key, k);
      LatestCons(rs[0], MarkFirst(rs[1..], key), k);
    }
  }

  lemma {:induction false} CountLatest(rs: seq<Rec>, key: Key)
    ensures Count(rs, key) == 0 <==> Latest(rs, key).None?
  {
    if rs != [] {
      CountLatest(rs[1..], key);
      assert rs == [rs[0]] + rs[1..];
      LatestCons(rs[0], rs[1..], key);
    }
  }

  /** Marking the first record in place removes the key exactly if it stood only once. */
  lemma MarkFirstView(rs: seq<Rec>, key: Key)
    requires HasLive(rs, key)
    ensures View(MarkFirst(rs, key)) == if Count(rs, key) == 1 then View(rs) - {key} else View(rs)
  {
    var m := if Count(rs, key) == 1 then View(rs) - {key} else View(rs);
    forall k: Key
      ensures k in View(MarkFirst(rs, key)) <==> k in m
      ensures k in m ==> View(MarkFirst(rs, key))[k] == m[k]
    {
      MarkFirstLatest(rs, key, k);
      ViewIsLatest(rs, k);
      ViewIsLatest(MarkFirst(rs, key), k);
    }
    assert View(MarkFirst(rs, key)).Keys == m.Keys;
  }

  lemma HasLiveInView(rs: seq<Rec>, key: Key)
    requires HasLive(rs, key)
    ensures key in View(rs)
  {
    ViewIsLatest(rs, key);
    var r :| r in rs && r.key == key && r.kind.Normal?;
    var i :| 0 <= i < |rs| && rs[i] == r;
    LatestFound(rs, key, i);
  }

  /** Without tombstones, live is the same as being in the map. */
  lemma AllLiveHasLive(rs: seq<Rec>, key: Key)
    requires AllLive(rs) && key in View(rs)
    ensures HasLive(rs, key)
  {
    ViewIsLatest(rs, key);
  }

  /** Replaces the run holding position i of the concatenation by one with MarkFirst applied. */
  method MarkInPlace(n: Node, key: Key) returns (n': Node)
    requires n.Wf() && !n.Fits() && HasLive(n.All(), key) && !n.s0.aux
    ensures n'.Wf() && n'.level == n.level && n'.size == n.size
    ensures n'.keyCount == n.keyCount && n'.whiteouts == n.whiteouts
    ensures n'.All() == MarkFirst(n.All(), key)
  {
    hide MarkFirst, Count, Node.Fits, Node.FreeStart, HasLive;
    MarkFirstConcat(n.s0.recs + n.s1.recs, n.s2.recs, key);
    MarkFirstConcat(n.s0.recs, n.s1.recs, key);
    CountConcat(n.s0.recs, n.s1.recs, key);
    MarkKeys(n.s0.recs, key);
    if Count(n.s0.recs, key) > 0 {
      n' := n.(s0 := n.s0.(recs := MarkFirst(n.s0.recs, key)));
    } else if Count(n.s1.recs, key) > 0 {
      n' := n.(s1 := n.s1.(recs := MarkFirst(n.s1.recs, key)));
    } else {
      n' := n.(s2 := n.s2.(recs := MarkFirst(n.s2.recs, key)));
    }
  }

  lemma {:induction false} MarkKeys(rs: seq<Rec>, key: Key)
    ensures forall i :: 0 <= i < |rs| ==> MarkFirst(rs, key)[i].key == rs[i].key
  {
    if rs != [] && rs[0].key != key { MarkKeys(rs[1..], key); }
  }

  lemma MarkWithin(rs: seq<Rec>, key: Key)
    ensures forall lo: nat, hi: nat {:trigger Within(rs, lo, hi)} ::
              Within(rs, lo, hi) ==> Within(MarkFirst(rs, key), lo, hi)
  {
    MarkKeys(rs, key);
    forall lo: nat, hi: nat, r | Within(rs, lo, hi) && r in MarkFirst(rs, key) ensures lo <= r.key < hi {
      var i :| 0 <= i < |rs| && MarkFirst(rs, key)[i] == r;
      assert rs[i] in rs;
    }
  }

  lemma {:induction false} MarkFirstConcat(a: seq<Rec>, b: seq<Rec>, key: Key)
    ensures MarkFirst(a + b, key) == if Count(a, key) > 0 then MarkFirst(a, key) + b else a + MarkFirst(b, key)
  {
    hide MarkFirst;
    if a == [] {
      assert a + b == b;
    } else {
      var first, rest := [a[0]], a[1..];
      MarkFirstConcat(rest, b, key);
      MarkFirstCons(a[0], rest + b, key);
      MarkFirstCons(a[0], rest, key);
      assert a == first + rest;
      Regroup(first, rest, b);
      if a[0].key == key {
        CountPositive(a, key);
        Regroup([a[0].(kind := Deleted)], rest, b);
      } else if Count(rest, key) > 0 {
        Regroup(first, MarkFirst(rest, key), b);
      } else {
        Regroup(first, rest, MarkFirst(b, key));
      }
    }
  }

  lemma MarkFirstCons(r: Rec, rs: seq<Rec>, key: Key)
    ensures MarkFirst([r] + rs, key) == if r.key == key then [r.(kind := Deleted)] + rs else [r] + MarkFirst(rs, key)
  {
    assert ([r] + rs)[1..] == rs;
  }

  lemma CountPositive(a: seq<Rec>, key: Key)
    requires a != [] && a[0].key == key
    ensures Count(a, key) > 0
  {}

  lemma {:induction false} CountConcat(a: seq<Rec>, b: seq<Rec>, key: Key)
    ensures Count(a + b, key) == Count(a, key) + Count(b, key)
  {
    if a == [] {
      assert a + b == b;
    } else {
      CountConcat(a[1..], b, key);
      assert (a + b)[1..] == a[1..] + b;
    }
  }

  /** A key with exactly one record, and that one live. */
  ghost predicate SingleLive(rs: seq<Rec>, k: Key) {
    HasLive(rs, k) && Count(rs, k) == 1
  }

  lemma SingleLiveAppend(rs: seq<Rec>, r: Rec, k: Key)
    requires SingleLive(rs, k) && r.key != k
    ensures SingleLive(rs + [r], k)
  {
    CountConcat(rs, [r], k);
    assert Count([r], k) == 0;
  }

  lemma SingleLiveMark(rs: seq<Rec>, key: Key, k: Key)
    requires SingleLive(rs, k) && key != k
    ensures SingleLive(MarkFirst(rs, key), k)
  {
    MarkOthers(rs, key, k);
    MarkCount(rs, key, k);
  }

  lemma {:induction false} MarkOthers(rs: seq<Rec>, key: Key, k: Key)
    requires key != k
    ensures forall r: Rec :: r.key == k ==> (r in MarkFirst(rs, key) <==> r in rs)
  {
    if rs != [] {
      assert rs == [rs[0]] + rs[1..];
      if rs[0].key != key { MarkOthers(rs[1..], key, k); }
    }
  }

  lemma {:induction false} MarkCount(rs: seq<Rec>, key: Key, k: Key)
    ensures Count(MarkFirst(rs, key), k) == Count(rs, k)
  {
    if rs != [] {
      assert rs == [rs[0]] + rs[1..];
      if rs[0].key != key { MarkCount(rs[1..], key, k); }
    }
  }

  lemma SingleLiveCompact(rs: seq<Rec>, k: Key)
    requires SingleLive(rs, k)
    ensures SingleLive(Compacted(rs), k)
  {
    HasLiveInView(rs, k);
    CompactKeepsView(rs);
    CleanSingle(Compacted(rs), k);
  }

  lemma CleanSingle(rs: seq<Rec>, k: Key)
    requires Clean(rs) && k in View(rs)
    ensures SingleLive(rs, k)
  {
    AllLiveHasLive(rs, k);
    CleanCount(rs, k);
    CountLatest(rs, k);
    ViewIsLatest(rs, k);
  }

  /** The records once a key is taken out: a tombstone behind the others, or, without room for
      it, in place of the key's first record. */
  function Tombed(n: Node, key: Key): seq<Rec> {
    if n.Fits() then n.All() + [Rec(key, Deleted, BchVal(0, 0))] else MarkFirst(n.All(), key)
  }

  /** Takes a live key out by a tombstone, or in place when the node is full. */
  method Tombstone(n: Node, key: Key) returns (n': Node)
    requires n.Wf() && HasLive(n.All(), key)
    ensures n'.Wf() && n'.level == n.level && n'.size == n.size
    ensures n'.All() == Tombed(n, key) && n'.keyCount == n.keyCount && n'.whiteouts == n.whiteouts + 1
    ensures n'.Map() == if DeleteRemoves(n, key) then n.Map() - {key} else n.Map()
    ensures forall k :: k != key && SingleLive(n.All(), k) ==> SingleLive(n'.All(), k)
    ensures n.Counted() ==> n'.Counted()
    ensures forall lo: nat, hi: nat {:trigger Within(n.All(), lo, hi)} ::
              Within(n.All(), lo, hi) && lo <= key < hi ==> Within(n'.All(), lo, hi)
  {
    hide View, Count, MarkFirst, Appended, Node.FreeStart, Strict;
    var fits;
    fits, n' := Append(n, Rec(key, Deleted, BchVal(0, 0)));
    if fits {
      ViewAppend(n.All(), Rec(key, Deleted, BchVal(0, 0)));
      forall k | k != key && SingleLive(n.All(), k) ensures SingleLive(n'.All(), k) {
        SingleLiveAppend(n.All(), Rec(key, Deleted, BchVal(0, 0)), k);
      }
    } else {
      MarkFirstView(n.All(), key);
      HasLiveInView(n.All(), key);
      n' := MarkInPlace(n.DropAux(), key);
      MarkWithin(n.All(), key);
      forall k | k != key && SingleLive(n.All(), k) ensures SingleLive(n'.All(), k) {
        SingleLiveMark(n.All(), key, k);
      }
    }
    n' := n'.(whiteouts := n'.whiteouts + 1);
  }

  /** Compacts a node once its tombstones reach an eighth of the keys counted. */
  method MaybeCompact(n: Node) returns (n': Node)
    requires n.Wf()
    ensures n'.Wf() && n'.level == n.level && n'.size == n.size && n'.Map() == n.Map()
    ensures if n.keyCount > 0 && n.whiteouts >= n.keyCount / 8
            then n'.All() == Compacted(n.All()) && n'.keyCount == |n'.All()| && n'.whiteouts == 0
            else n' == n
    ensures forall k :: SingleLive(n.All(), k) ==> SingleLive(n'.All(), k)
    ensures n.Counted() ==> n'.Counted()
    ensures forall lo: nat, hi: nat {:trigger Within(n.All(), lo, hi)} ::
              Within(n.All(), lo, hi) ==> Within(n'.All(), lo, hi)
  {
    n' := n;
    if n.keyCount > 0 && n.whiteouts >= n.keyCount / WHITEOUT_THRESHOLD_FRACTION {
      CompactKeepsView(n.All());
      forall k | SingleLive(n.All(), k) ensures SingleLive(Compacted(n.All()), k) {
        SingleLiveCompact(n.All(), k);
      }
      CompactMembers(n.All());
      n' := Compact(n);
    }
  }

  /** A node from which a key was deleted: compacted exactly if its tombstones, this one
      included, reach an eighth of the keys counted. */
  ghost predicate AfterDelete(n: Node, key: Key, n': Node) {
    if n.keyCount > 0 && n.whiteouts + 1 >= n.keyCount / 8
    then n'.All() == Compacted(Tombed(n, key)) && n'.keyCount == |n'.All()| && n'.whiteouts == 0
    else n'.All() == Tombed(n, key) && n'.keyCount == n.keyCount && n'.whiteouts == n.whiteouts + 1
  }

  /** Deletes a key. It is refused when the key has no live record, which includes a key
      inserted again behind its own tombstone. */
  method DeleteKey(n: Node, key: Key) returns (ok: bool, n': Node)
    requires n.Wf()
    ensures n'.Wf() && n'.level == n.level && n'.size == n.size
    ensures ok == HasLive(n.All(), key)
    ensures if ok then AfterDelete(n, key, n') else n' == n
    ensures n'.Map() == if DeleteRemoves(n, key) then n.Map() - {key} else n.Map()
    ensures forall k :: k != key && SingleLive(n.All(), k) ==> SingleLive(n'.All(), k)
    ensures n.Counted() ==> n'.Counted()
    ensures forall lo: nat, hi: nat {:trigger Within(n.All(), lo, hi)} ::
              Within(n.All(), lo, hi) && lo <= key < hi ==> Within(n'.All(), lo, hi)
  {
    ok := ScanLive(n.All(), key);
    n' := n;
    if ok {
      n' := Tombstone(n, key);
      n' := MaybeCompact(n');
    }
  }

  /** A key inserted again behind its own tombstone is in the map, and its delete is refused. */
  lemma ReinsertedRefusesDelete(rs: seq<Rec>, key: Key, v: BchVal)
    ensures var again := rs + [Rec(key, Deleted, BchVal(0, 0)), Rec(key, Normal, v)];
            key in View(again) && View(again)[key] == v && !HasLive(again, key)
  {
    var del, ins := Rec(key, Deleted, BchVal(0, 0)), Rec(key, Normal, v);
    assert rs + [del, ins] == (rs + [del]) + [ins];
    ViewAppend(rs + [del], ins);
    assert del in rs + [del, ins];
  }

  lemma {:induction false} CleanCount(rs: seq<Rec>, key: Key)
    requires Distinct(rs)
    ensures Count(rs, key) <= 1
  {
    if rs != [] {
      CleanCount(rs[1..], key);
      if rs[0].key == key && Count(rs[1..], key) > 0 {
        CountLatest(rs[1..], key);
        assert false;
      }
    }
  }

  // ---- splitting ----

  const SHARD_FACTOR: nat := 1024
  /** Words one record is counted with when balancing: key, value and search slot. */
  const ENTRY_EFF_U64S: nat := 8

  function ShardOf(k: Key): nat { k / 0x1_0000_0000 / SHARD_FACTOR }

  function Clamp(x: nat, lo: nat, hi: nat): nat {
    if x < lo then lo else if x > hi then hi else x
  }

  /** A new shard starts at this index, which is in the middle three fifths. */
  ghost predicate ShardCut(all: seq<Rec>, i: nat) {
    1 <= i < |all| && |all| / 5 < i < |all| * 4 / 5 && ShardOf(all[i - 1].key) < ShardOf(all[i].key)
  }

  ghost predicate FirstShardCut(all: seq<Rec>, i: nat) {
    ShardCut(all, i) && forall j :: 0 <= j < i ==> !ShardCut(all, j)
  }

  /** First index that starts a new shard, if it is not too near either end. */
  method FindShardSplit(all: seq<Rec>) returns (o: Option<nat>)
    ensures o.Some? ==> FirstShardCut(all, o.value)
    ensures o.None? ==> forall i: nat :: !ShardCut(all, i)
  {
    var n := |all|;
    if n < 3 { return None; }
    for i := 1 to n
      invariant forall j :: 0 <= j < i ==> !ShardCut(all, j)
    {
      if ShardOf(all[i - 1].key) < ShardOf(all[i].key) && i > n / 5 && i < n * 4 / 5 {
        return Some(i);
      }
    }
    o := None;
  }

  /** Where a node is cut: at the first shard boundary in the middle, without one where the
      weight on the left first reaches three fifths; two records are cut between them. */
  ghost predicate CutAt(all: seq<Rec>, mid: nat) {
    if exists i: nat :: ShardCut(all, i) then FirstShardCut(all, mid)
    else if |all| == 2 then mid == 1
    else mid > 0 && 8 * (mid - 1) < 8 * |all| * 3 / 5 <= 8 * mid
  }

  /** Where to cut: three fifths of the weight, or a shard boundary; never at an end, and at
      least a fifth of the records from it. */
  method FindBalancedSplit(all: seq<Rec>, size: nat) returns (mid: nat)
    requires |all| >= 2
    ensures 1 <= mid < |all| && |all| / 5 <= mid <= |all| - |all| / 5 && CutAt(all, mid)
  {
    var n := |all|;
    var target := n * ENTRY_EFF_U64S * 3 / 5;
    var accumulated := 0;
    mid := n / 2;
    for i := 0 to n
      invariant accumulated == i * ENTRY_EFF_U64S && mid == n / 2
      invariant i > 1 ==> (i - 1) * ENTRY_EFF_U64S < target
    {
      if accumulated >= target && i > 0 {
        mid := i;
        break;
      }
      accumulated := accumulated + ENTRY_EFF_U64S;
    }
    var shard := FindShardSplit(all);
    if shard.Some? { mid := shard.value; }
    assert 1 <= mid < n && n / 5 <= mid <= n - n / 5 && CutAt(all, mid);
    var minSplit, maxSplit := n / 5, n - n / 5;
    mid := Clamp(mid, minSplit, maxSplit);
    if size > 0 {
      var maxSide := size * 3 / 4;
      if 57 * mid > maxSide && mid < maxSplit {
        mid := ShiftRight(mid, maxSplit, maxSide);
      }
    }
  }

  /** Looks for a cut further right with a small enough left side. A left side only grows
      that way, so one that is already too large stays where it is. */
  method ShiftRight(mid: nat, maxSplit: nat, maxSide: nat) returns (r: nat)
    ensures 57 * mid > maxSide ==> r == mid
  {
    r := mid;
    var newMid := mid + 1;
    while newMid <= maxSplit
      invariant newMid > mid
      invariant 57 * mid > maxSide ==> r == mid
    {
      if 57 * newMid <= maxSide { r := newMid; break; }
      newMid := newMid + 1;
    }
  }

  /** Cuts a node into two sorted runs; a node with fewer than two keys is left alone.
      Both halves have room for one more record. */
  method Split(n: Node) returns (median: Option<Key>, left: Node, right: Node)
    requires n.Wf()
    ensures left.level == right.level == n.level && left.size == n.size
    ensures median.None? <==> |n.Map()| < 2
    ensures median.None? ==> left == n
    ensures median.Some? ==> left.whiteouts == n.whiteouts && right.whiteouts == 0
    ensures median.Some? ==>
              exists mid :: SplitAt(n, mid, median.value, left, right)
  {
    var live := Compacted(n.All());
    CompactKeepsView(n.All());
    RecordsFit(n);
    left, right := n, NewNode(n.level);
    if |live| < 2 { return None, left, right; }
    var mid := FindBalancedSplit(live, n.size);
    median := Some(live[mid].key);
    left := n.(s0 := Bset(0, false, live[..mid]), s1 := EMPTY_SET, s2 := EMPTY_SET, keyCount := mid);
    right := right.(s0 := Bset(0, false, live[mid..]), s1 := EMPTY_SET, s2 := EMPTY_SET, keyCount := |live| - mid);
    assert SplitAt(n, mid, median.value, left, right);
  }

  ghost predicate SplitAt(n: Node, mid: nat, median: Key, left: Node, right: Node) {
    var live := Compacted(n.All());
    && 1 <= mid < |live| && 32 * |live| <= n.size
    && |live| / 5 <= mid <= |live| - |live| / 5 && CutAt(live, mid)
    && median == live[mid].key
    && left.OneRun(live[..mid]) && right.OneRun(live[mid..])
  }

  /** A sorted run cut in two stands for the two halves of the map. */
  lemma StrictCut(rs: seq<Rec>, mid: nat)
    requires Strict(rs) && AllLive(rs) && mid < |rs|
    ensures Clean(rs[..mid]) && Clean(rs[mid..]) && Strict(rs[..mid]) && Strict(rs[mid..])
    ensures View(rs[..mid]) == Below(View(rs), rs[mid].key)
    ensures View(rs[mid..]) == From(View(rs), rs[mid].key)
  {
    hide Strict, View, Below, From;
    assert AllLive(rs[..mid]) && AllLive(rs[mid..]);
    assert rs == rs[..mid] + rs[mid..];
    StrictParts(rs, mid);
    ViewConcat(rs[..mid], rs[mid..]);
    StrictKeys(rs, 0, mid);
    StrictKeys(rs, mid, |rs|);
    assert rs[0..mid] == rs[..mid] && rs[mid..|rs|] == rs[mid..];
    CutMap(View(rs[..mid]), View(rs[mid..]), rs[mid].key);
  }

  lemma StrictParts(rs: seq<Rec>, mid: nat)
    requires Strict(rs) && mid < |rs|
    ensures Strict(rs[..mid]) && Strict(rs[mid..])
  {}

  /** Keys of a stretch of a strictly sorted run lie between those of its ends. */
  lemma StrictKeys(rs: seq<Rec>, lo: nat, hi: nat)
    requires Strict(rs) && lo <= hi <= |rs|
    ensures forall k :: k in View(rs[lo..hi]) ==> rs[lo].key <= k && (hi < |rs| ==> k < rs[hi].key)
    ensures Distinct(rs[lo..hi])
  {
    forall k | k in View(rs[lo..hi]) ensures rs[lo].key <= k && (hi < |rs| ==> k < rs[hi].key) {
      ViewIsLatest(rs[lo..hi], k);
      var r := Latest(rs[lo..hi], k).value;
      var i :| 0 <= i < hi - lo && rs[lo..hi][i] == r;
      assert rs[lo + i] == r;
    }
  }

  lemma CutMap<V>(a: map<Key, V>, b: map<Key, V>, k: Key)
    requires forall x :: x in a ==> x < k
    requires forall x :: x in b ==> x >= k
    ensures Below(a + b, k) == a && From(a + b, k) == b
  {}

  /** What splitting means: the map is cut at a key that is not its least one. */
  lemma SplitMeaning(n: Node, mid: nat, median: Key, left: Node, right: Node)
    requires n.Wf() && left.size == right.size == n.size && SplitAt(n, mid, median, left, right)
    ensures left.Wf() && right.Wf() && left.Fits() && right.Fits()
    ensures Clean(left.All()) && Clean(right.All())
    ensures left.keyCount == |left.All()| && right.keyCount == |right.All()|
    ensures left.Counted() && right.Counted()
    ensures median in n.Map() && left.Map() == Below(n.Map(), median) && right.Map() == From(n.Map(), median)
    ensures left.Map() != map[]
  {
    hide Compacted, View, Node.FreeStart, Node.Fits, Strict;
    var live := Compacted(n.All());
    CompactKeepsView(n.All());
    StrictCut(live, mid);
    OneRunFits(left, live[..mid]);
    OneRunFits(right, live[mid..]);
    CleanView(live);
    CleanView(left.All());
  }

  lemma SplitWithin(n: Node, mid: nat, median: Key, left: Node, right: Node, lo: nat, hi: nat)
    requires SplitAt(n, mid, median, left, right) && Within(n.All(), lo, hi)
    ensures Within(left.All(), lo, median) && Within(right.All(), median, hi) && lo < median < hi
  {
    var live := Compacted(n.All());
    CompactKeepsView(n.All());
    CompactMembers(n.All());
    assert left.All() == live[..mid] && right.All() == live[mid..];
    forall i | 0 <= i < |live| ensures lo <= live[i].key < hi { assert live[i] in live; }
    assert live[0].key < live[mid].key;
  }

  // ---- merging ----

  /** Takes over all records of another node; both are compacted first. */
  method Absorb(n: Node, other: Node) returns (n': Node)
    requires n.Wf() && other.Wf() && n.CanAbsorb(other)
    requires n.Map().Keys !! other.Map().Keys
    ensures n'.Wf() && n'.level == n.level && n'.size == n.size
    ensures n'.Map() == n.Map() + other.Map()
    ensures Clean(n'.All()) && n'.keyCount == |n'.All()| && n'.Counted()
    ensures forall r :: r in n'.All() ==> r in n.All() || r in other.All()
  {
    CompactMembers(n.All());
    CompactMembers(other.All());
    CompactKeepsView(n.All());
    CompactKeepsView(other.All());
    var a := Compact(n);
    var b := Compact(other);
    var all := a.All() + b.All();
    n' := a.(s0 := Bset(0, false, all), keyCount := |all|);
    OneRunFits(n', all);
    ViewConcat(a.All(), b.All());
    CompactKeepsView(n'.All());
    CompactMembers(n'.All());
    n' := Compact(n');
    forall r | r in n'.All() ensures r in n.All() || r in other.All() { assert r in all; }
  }

  lemma {:induction false} ViewConcat(a: seq<Rec>, b: seq<Rec>)
    requires AllLive(b)
    ensures View(a + b) == View(a) + View(b)
  {
    if b == [] {
      assert a + b == a;
    } else {
      ViewConcat(a, b[..|b| - 1]);
      assert (a + b)[..|a + b| - 1] == a + b[..|b| - 1];
    }
  }
}
