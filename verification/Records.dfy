/** Packed records of a B-tree node and what a run of them means as a finite map:
    the last record of a key decides, and a Deleted record removes the key. */
module Records {
  import opened Wrappers
  import StableSort

  /** Positions in key order: vaddr ascending, then snapshot descending (see KeyRank). */
  const KEY_SPACE: nat := 0x1_0000_0000_0000_0000_0000_0000
  type Key = k: nat | k < KEY_SPACE
  const MIN_KEY: Key := 0

  datatype BtreeKey = BtreeKey(vaddr: nat, snapshot: nat)

  predicate InRange(k: BtreeKey) {
    k.vaddr < 0x1_0000_0000_0000_0000 && k.snapshot < 0x1_0000_0000
  }

  function KeyRank(k: BtreeKey): (r: Key)
    requires InRange(k)
    ensures r == 0 <==> k == BtreeKey(0, 0xFFFF_FFFF)
  {
    k.vaddr * 0x1_0000_0000 + (0xFFFF_FFFF - k.snapshot)
  }

  /** Ordering by rank is ordering by vaddr ascending and snapshot descending, and
      distinct keys have distinct ranks: the model may use ranks as keys. */
  lemma KeyRankIsOrder(a: BtreeKey, b: BtreeKey)
    requires InRange(a) && InRange(b)
    ensures KeyRank(a) < KeyRank(b) <==>
            a.vaddr < b.vaddr || (a.vaddr == b.vaddr && a.snapshot > b.snapshot)
    ensures KeyRank(a) == KeyRank(b) <==> a == b
  {
    if a.vaddr < b.vaddr {
      assert a.vaddr + 1 <= b.vaddr;
    } else if b.vaddr < a.vaddr {
      assert b.vaddr + 1 <= a.vaddr;
    }
  }

  datatype BchVal = BchVal(paddr: nat, ver: nat)
  datatype KeyType = Normal | Deleted
  datatype Rec = Rec(key: Key, kind: KeyType, val: BchVal)

  function RecKey(r: Rec): int { r.key }

  /** The map a run of records stands for. */
  function View(rs: seq<Rec>): (m: map<Key, BchVal>) {
    if rs == [] then map[]
    else
      var r := rs[|rs| - 1];
      var m := View(rs[..|rs| - 1]);
      if r.kind.Deleted? then m - {r.key} else m[r.key := r.val]
  }

  /** The parts of a map below a key and from a key on. */
  function Below<V>(m: map<Key, V>, k: Key): (r: map<Key, V>) { map x | x in m && x < k :: m[x] }

  function From<V>(m: map<Key, V>, k: Key): (r: map<Key, V>) { map x | x in m && x >= k :: m[x] }

  /** The last record with key k. */
  function Latest(rs: seq<Rec>, k: Key): (o: Option<Rec>)
    ensures o.Some? ==> o.value in rs && o.value.key == k
  {
    if rs == [] then None
    else if rs[|rs| - 1].key == k then Some(rs[|rs| - 1])
    else Latest(rs[..|rs| - 1], k)
  }

  lemma {:induction false} LatestFound(rs: seq<Rec>, k: Key, i: nat)
    requires i < |rs| && rs[i].key == k
    ensures Latest(rs, k).Some?
  {
    if rs[|rs| - 1].key != k { LatestFound(rs[..|rs| - 1], k, i); }
  }

  lemma LatestCons(r: Rec, rs: seq<Rec>, k: Key)
    ensures Latest([r] + rs, k) ==
            if Latest(rs, k).Some? then Latest(rs, k) else if r.key == k then Some(r) else None
  {
    LatestConcat([r], rs, k);
    assert [r][..0] == [];
  }

  lemma {:induction false} ViewIsLatest(rs: seq<Rec>, k: Key)
    ensures k in View(rs) <==> Latest(rs, k).Some? && Latest(rs, k).value.kind.Normal?
    ensures k in View(rs) ==> View(rs)[k] == Latest(rs, k).value.val
  {
    if rs != [] {
      ViewIsLatest(rs[..|rs| - 1], k);
    }
  }

  lemma ViewAppend(rs: seq<Rec>, r: Rec)
    ensures View(rs + [r]) == if r.kind.Deleted? then View(rs) - {r.key} else View(rs)[r.key := r.val]
  {
    assert (rs + [r])[..|rs|] == rs;
  }

  /** All records, tombstones included, have keys in a half-open interval. */
  ghost predicate Within(rs: seq<Rec>, lo: nat, hi: nat) {
    forall r :: r in rs ==> lo <= r.key < hi
  }

  /** Runs in which every key has the same last record stand for the same map. */
  lemma SameLatestSameView(a: seq<Rec>, b: seq<Rec>)
    requires forall k: Key :: Latest(a, k) == Latest(b, k)
    ensures View(a) == View(b)
  {
    forall k: Key
      ensures k in View(a) <==> k in View(b)
      ensures k in View(a) ==> View(a)[k] == View(b)[k]
    {
      ViewIsLatest(a, k);
      ViewIsLatest(b, k);
      assert Latest(a, k) == Latest(b, k);
    }
    assert View(a).Keys == View(b).Keys;
  }

  lemma {:induction false} LatestConcat(a: seq<Rec>, b: seq<Rec>, k: Key)
    ensures Latest(a + b, k) == if Latest(b, k).Some? then Latest(b, k) else Latest(a, k)
  {
    if b == [] {
      assert a + b == a;
    } else {
      LatestConcat(a, b[..|b| - 1], k);
      assert (a + b)[..|a + b| - 1] == a + b[..|b| - 1];
    }
  }

  /** The last record of a key is the last element of the key's subsequence. */
  lemma {:induction false} LatestOfOnly(rs: seq<Rec>, k: Key)
    ensures var o := StableSort.Only(rs, RecKey, k);
            Latest(rs, k) == if o == [] then None else Some(o[|o| - 1])
  {
    if rs != [] {
      LatestOfOnly(rs[1..], k);
      assert rs == [rs[0]] + rs[1..];
      LatestCons(rs[0], rs[1..], k);
    }
  }

  lemma Regroup<T>(a: seq<T>, b: seq<T>, c: seq<T>)
    ensures a + (b + c) == a + b + c
  {}

  // ---- strictly sorted and distinct runs of live records ----

  ghost predicate Strict(rs: seq<Rec>) {
    forall i, j :: 0 <= i < j < |rs| ==> rs[i].key < rs[j].key
  }

  ghost predicate AllLive(rs: seq<Rec>) {
    forall r :: r in rs ==> r.kind.Normal?
  }

  ghost predicate Distinct(rs: seq<Rec>) {
    forall i, j :: 0 <= i < j < |rs| ==> rs[i].key != rs[j].key
  }

  /** Routing nodes hold one live record per key. */
  ghost predicate Clean(rs: seq<Rec>) {
    AllLive(rs) && Distinct(rs)
  }

  lemma {:induction false} LatestOfDistinct(rs: seq<Rec>, i: nat)
    requires Distinct(rs) && i < |rs|
    ensures Latest(rs, rs[i].key) == Some(rs[i])
  {
    if i < |rs| - 1 {
      LatestOfDistinct(rs[..|rs| - 1], i);
    }
  }

  /** In a clean run the map holds exactly the records. */
  lemma {:induction false} CleanView(rs: seq<Rec>)
    requires Clean(rs)
    ensures forall i :: 0 <= i < |rs| ==> rs[i].key in View(rs) && View(rs)[rs[i].key] == rs[i].val
    ensures forall k :: k in View(rs) ==> exists i :: 0 <= i < |rs| && rs[i].key == k
    ensures |View(rs)| == |rs|
  {
    forall i | 0 <= i < |rs|
      ensures rs[i].key in View(rs) && View(rs)[rs[i].key] == rs[i].val
    {
      LatestOfDistinct(rs, i);
      ViewIsLatest(rs, rs[i].key);
    }
    forall k | k in View(rs) ensures exists i :: 0 <= i < |rs| && rs[i].key == k {
      ViewIsLatest(rs, k);
      var r := Latest(rs, k).value;
      var i :| 0 <= i < |rs| && rs[i] == r;
      assert rs[i].key == k;
    }
    if rs != [] {
      var init := rs[..|rs| - 1];
      CleanView(init);
      var r := rs[|rs| - 1];
      assert r.key !in View(init);
      assert View(rs) == View(init)[r.key := r.val];
    }
  }

  // ---- compaction ----

  /** Keeps the last record of each group of equal keys. */
  function DedupLast(rs: seq<Rec>): (r: seq<Rec>)
    ensures |r| <= |rs|
    ensures forall x :: x in r ==> x in rs
  {
    if |rs| <= 1 then rs
    else if rs[0].key == rs[1].key then DedupLast(rs[1..])
    else [rs[0]] + DedupLast(rs[1..])
  }

  /** Drops the Deleted records. */
  function RetainLive(rs: seq<Rec>): (r: seq<Rec>)
    ensures |r| <= |rs|
  {
    if rs == [] then []
    else (if rs[0].kind.Normal? then [rs[0]] else []) + RetainLive(rs[1..])
  }

  function Compacted(rs: seq<Rec>): (r: seq<Rec>)
    ensures |r| <= |rs|
  {
    RetainLive(DedupLast(StableSort.Sort(rs, RecKey)))
  }

  lemma {:induction false} DedupIsStrict(rs: seq<Rec>)
    requires StableSort.Sorted(rs, RecKey)
    ensures Strict(DedupLast(rs))
    ensures forall k: Key :: Latest(DedupLast(rs), k) == Latest(rs, k)
  {
    if |rs| > 1 {
      assert RecKey(rs[0]) <= RecKey(rs[1]);
      assert StableSort.Sorted(rs[1..], RecKey) by {
        forall i, j | 0 <= i < j < |rs[1..]| ensures RecKey(rs[1..][i]) <= RecKey(rs[1..][j]) {
          assert RecKey(rs[i + 1]) <= RecKey(rs[j + 1]);
        }
      }
      DedupIsStrict(rs[1..]);
      var d := DedupLast(rs[1..]);
      assert rs == [rs[0]] + rs[1..];
      if rs[0].key != rs[1].key {
        forall j | 0 <= j < |d| ensures rs[0].key < d[j].key {
          assert d[j] in rs[1..];
          var q :| 0 <= q < |rs[1..]| && rs[1..][q] == d[j];
          assert RecKey(rs[1]) <= RecKey(rs[q + 1]);
        }
      }
      forall k: Key ensures Latest(DedupLast(rs), k) == Latest(rs, k) {
        LatestCons(rs[0], rs[1..], k);
        LatestCons(rs[0], d, k);
        assert Latest(d, k) == Latest(rs[1..], k);
        if rs[1].key == k {
          LatestFound(rs[1..], k, 0);
        }
      }
    }
  }

  lemma {:induction false} StrictTail(rs: seq<Rec>)
    requires Strict(rs) && rs != []
    ensures Strict(rs[1..])
    ensures forall r :: r in rs[1..] ==> rs[0].key < r.key
  {}

  lemma {:induction false} RetainMembers(rs: seq<Rec>)
    ensures forall x :: x in RetainLive(rs) <==> x in rs && x.kind.Normal?
  {
    if rs != [] {
      RetainMembers(rs[1..]);
      assert rs == [rs[0]] + rs[1..];
    }
  }

  lemma {:induction false} RetainLatest(rs: seq<Rec>, k: Key)
    requires Strict(rs)
    ensures Latest(RetainLive(rs), k) ==
            if Latest(rs, k).Some? && Latest(rs, k).value.kind.Normal? then Latest(rs, k) else None
  {
    if rs != [] {
      StrictTail(rs);
      RetainLatest(rs[1..], k);
      assert rs == [rs[0]] + rs[1..];
      LatestCons(rs[0], rs[1..], k);
      LatestCons(rs[0], RetainLive(rs[1..]), k);
      if rs[0].kind.Deleted? { assert RetainLive(rs) == RetainLive(rs[1..]); }
    }
  }

  lemma {:induction false} RetainIsStrict(rs: seq<Rec>)
    requires Strict(rs)
    ensures Strict(RetainLive(rs))
  {
    if rs != [] {
      StrictTail(rs);
      RetainIsStrict(rs[1..]);
      RetainMembers(rs[1..]);
      var t := RetainLive(rs[1..]);
      forall j | 0 <= j < |t| ensures rs[0].key < t[j].key {
        assert t[j] in t;
      }
    }
  }

  lemma RetainKeepsView(rs: seq<Rec>)
    requires Strict(rs)
    ensures View(RetainLive(rs)) == View(rs)
  {
    forall k: Key
      ensures k in View(RetainLive(rs)) <==> k in View(rs)
      ensures k in View(rs) ==> View(RetainLive(rs))[k] == View(rs)[k]
    {
      RetainLatest(rs, k);
      ViewIsLatest(rs, k);
      ViewIsLatest(RetainLive(rs), k);
    }
    assert View(RetainLive(rs)).Keys == View(rs).Keys;
  }

  lemma CompactMembers(rs: seq<Rec>)
    ensures forall r :: r in Compacted(rs) ==> r in rs
  {
    var s := StableSort.Sort(rs, RecKey);
    StableSort.SortMembers(rs, RecKey);
    RetainMembers(DedupLast(s));
  }

  /** Compaction yields one live record per key, in order, and keeps the map. */
  lemma CompactKeepsView(rs: seq<Rec>)
    ensures Strict(Compacted(rs)) && Clean(Compacted(rs))
    ensures View(Compacted(rs)) == View(rs)
    ensures |Compacted(rs)| == |View(rs)|
  {
    var s := StableSort.Sort(rs, RecKey);
    StableSort.SortIsStable(rs, RecKey);
    forall k: Key ensures Latest(s, k) == Latest(rs, k) {
      LatestOfOnly(s, k);
      LatestOfOnly(rs, k);
    }
    DedupIsStrict(s);
    SameLatestSameView(DedupLast(s), rs);
    RetainIsStrict(DedupLast(s));
    RetainKeepsView(DedupLast(s));
    RetainMembers(DedupLast(s));
    CleanView(Compacted(rs));
  }

  /** Sorted runs of live records for the same map are the same. */
  lemma {:induction false} StrictUnique(a: seq<Rec>, b: seq<Rec>)
    requires Strict(a) && AllLive(a) && Strict(b) && AllLive(b) && View(a) == View(b)
    ensures a == b
  {
    hide Strict, AllLive, View, Clean;
    StrictCount(a);
    StrictCount(b);
    if a != [] {
      var n := |a| - 1;
      SameGreatest(a, b);
      assert a == a[..n] + [a[n]] && b == b[..n] + [b[n]];
      DropGreatest(a[..n], a[n]);
      DropGreatest(b[..n], b[n]);
      StrictUnique(a[..n], b[..n]);
    }
  }

  lemma StrictCount(a: seq<Rec>)
    requires Strict(a) && AllLive(a)
    ensures Clean(a) && |View(a)| == |a|
  {
    CleanView(a);
  }

  lemma SameGreatest(a: seq<Rec>, b: seq<Rec>)
    requires Strict(a) && AllLive(a) && Strict(b) && AllLive(b) && View(a) == View(b) && a != [] && |a| == |b|
    ensures a[|a| - 1] == b[|b| - 1]
  {
    hide View, Strict;
    GreatestAbove(a, b);
    GreatestAbove(b, a);
    CleanLast(a);
    CleanLast(b);
  }

  lemma GreatestAbove(a: seq<Rec>, b: seq<Rec>)
    requires Strict(a) && AllLive(a) && Strict(b) && AllLive(b) && View(a) == View(b) && a != [] && |a| == |b|
    ensures a[|a| - 1].key <= b[|b| - 1].key
  {
    hide View;
    CleanView(a);
    CleanView(b);
    var j :| 0 <= j < |b| && b[j].key == a[|a| - 1].key;
  }

  lemma CleanLast(a: seq<Rec>)
    requires Strict(a) && AllLive(a) && a != []
    ensures var r := a[|a| - 1]; r.kind.Normal? && r.key in View(a) && View(a)[r.key] == r.val
  {
    hide View;
    CleanView(a);
    assert a[|a| - 1] in a;
  }

  lemma DropGreatest(rs: seq<Rec>, r: Rec)
    requires Strict(rs + [r]) && AllLive(rs + [r])
    ensures Strict(rs) && AllLive(rs) && View(rs) == View(rs + [r]) - {r.key}
  {
    hide View;
    var all := rs + [r];
    assert all[|rs|] == r && r in all;
    forall i | 0 <= i < |rs| ensures all[i] == rs[i] && rs[i].key < r.key { assert all[i].key < all[|rs|].key; }
    CleanView(rs);
    ViewAppend(rs, r);
    assert View(all) == View(rs)[r.key := r.val];
  }

  lemma CompactTwice(rs: seq<Rec>)
    ensures Compacted(Compacted(rs)) == Compacted(rs)
  {
    hide Compacted;
    CompactKeepsView(rs);
    CompactKeepsView(Compacted(rs));
    StrictUnique(Compacted(Compacted(rs)), Compacted(rs));
  }
}
