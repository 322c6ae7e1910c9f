/** The tree with its key cache: answers found once are kept until their key is written. */
module KeyCaches {
  import opened Wrappers
  import opened Records
  import opened BtreeNodes
  import opened BtreeShape
  import opened Btrees
  import opened Cascades
  import opened BtreeSteps
  import opened Lookups

  /** The value kept for a key is the one the map has. */
  ghost predicate RightAt(keys: map<Key, BchVal>, m: map<Key, BchVal>, k: Key)
    requires k in keys
  {
    k in m && m[k] == keys[k]
  }

  ghost predicate Coherent(keys: map<Key, BchVal>, m: map<Key, BchVal>) {
    forall k :: k in keys ==> RightAt(keys, m, k)
  }

  /** All values kept but perhaps that of one key are right. */
  ghost predicate CoherentBut(keys: map<Key, BchVal>, m: map<Key, BchVal>, k: Key) {
    forall x :: x in keys && x != k ==> RightAt(keys, m, x)
  }

  /** Writing one key and dropping it from the cache changes nothing about the others. */
  lemma WriteKeeps(keys: map<Key, BchVal>, m: map<Key, BchVal>, m': map<Key, BchVal>, k: Key)
    requires forall x :: x != k ==> At(m', x) == At(m, x)
    ensures Coherent(keys - {k}, m') <==> CoherentBut(keys, m, k)
  {
    forall x | x in keys && x != k ensures RightAt(keys - {k}, m', x) <==> RightAt(keys, m, x) {
      assert At(m', x) == At(m, x);
    }
  }

  /** Keeping one more value. */
  lemma FillKeeps(keys: map<Key, BchVal>, m: map<Key, BchVal>, k: Key, v: BchVal)
    requires k !in keys
    ensures Coherent(keys[k := v], m) <==> Coherent(keys, m) && At(m, k) == Some(v)
  {
    var more := keys[k := v];
    assert k in more && (RightAt(more, m, k) <==> At(m, k) == Some(v));
    forall x | x in keys ensures RightAt(more, m, x) <==> RightAt(keys, m, x) {}
  }

  // ---- what a lookup meets if the cache does not have the key ----

  ghost predicate TakesNothing(t: Btree, k: Key)
    reads t
  {
    forall b: Addr :: LeafFor(t, b, k) ==> Taken(t.AllNodes()[b], k).None?
  }

  ghost predicate TakesRight(t: Btree, k: Key)
    reads t
  {
    forall b: Addr :: LeafFor(t, b, k) ==> TakesNewest(t.AllNodes()[b], k)
  }

  ghost predicate FindsNothing(t: Btree, k: Key)
    reads t
  {
    forall b: Addr :: LeafFor(t, b, k) ==>
                        ViewAt(t.AllNodes()[b].All()[..ReadTo(t.AllNodes()[b], k)], k) == None
  }

  ghost predicate NotVeiled(t: Btree, k: Key)
    reads t
  {
    forall b: Addr :: LeafFor(t, b, k) ==> !Veiled(t.AllNodes()[b], k)
  }

  method GetUncached(t: Btree, k: Key) returns (o: Option<BchVal>)
    requires t.Valid()
    ensures o.None? <==> TakesNothing(t, k)
    ensures o == At(t.Map(), k) <==> TakesRight(t, k)
    ensures forall b: Addr :: LeafFor(t, b, k) && Taken(t.AllNodes()[b], k).Some? ==>
                                o == Some(Taken(t.AllNodes()[b], k).value.val)
  {
    hide Btree.Valid, Taken, TakesNewest;
    o := Lookups.Get(t, k);
    ghost var b: Addr :| LeafFor(t, b, k);
    OneLeaf(t, b, k);
  }

  method GetEntryUncached(t: Btree, k: Key) returns (o: Option<BchVal>)
    requires t.Valid()
    ensures o.None? <==> FindsNothing(t, k)
    ensures o == At(t.Map(), k) <==> NotVeiled(t, k)
  {
    hide Btree.Valid, Veiled, ViewAt, ReadTo;
    o := Lookups.GetEntry(t, k);
    ghost var b: Addr :| LeafFor(t, b, k);
    OneLeaf(t, b, k);
  }

  // ---- the tree with its cache ----

  datatype Op = Get(key: Key) | GetEntry(key: Key) | Insert(key: Key, value: BchVal) | Delete(key: Key)

  datatype Reply = Found(value: Option<BchVal>) | Wrote(ok: bool)

  predicate Looks(op: Op) { op.Get? || op.GetEntry? }

  /** What an operation and its reply say about the map: lookups leave it alone, and a refused
      write does; an accepted delete may find nothing it can take out. */
  ghost predicate MapStep(op: Op, r: Reply, m: map<Key, BchVal>, m': map<Key, BchVal>) {
    && (Looks(op) <==> r.Found?)
    && match op {
         case Insert(k, v) => m' == if r.Wrote? && r.ok then m[k := v] else m
         case Delete(k) => m' == m || (r.Wrote? && r.ok && m' == m - {k})
         case _ => m' == m
       }
  }

  class CachedTree {
    const tree: Btree
    var keys: map<Key, BchVal>

    ghost predicate Valid()
      reads tree
    {
      tree.Valid()
    }

    ghost function Map(): map<Key, BchVal>
      reads tree
    {
      tree.Map()
    }

    constructor (size: nat)
      requires size >= MIN_NODE_SIZE && size % 8 == 0
      ensures Valid() && Map() == map[] && keys == map[] && fresh(tree)
      ensures tree.depth == 0 && tree.root == NewNode(0).(size := size)
    {
      tree := new Btree(size);
      keys := map[];
    }

    /** A lookup by landing position: what the cache has, else what the tree gives, which is
        kept. It is right exactly if the value kept is, or, without one, the newest is taken;
        and it leaves the cache right exactly if it was and nothing or the newest is taken. */
    method Get(k: Key) returns (o: Option<BchVal>)
      requires Valid()
      modifies this`keys
      ensures k in old(keys) ==> o == Some(old(keys)[k]) && keys == old(keys)
      ensures k !in old(keys) ==> keys == if o.Some? then old(keys)[k := o.value] else old(keys)
      ensures o == At(Map(), k) <==> if k in old(keys) then RightAt(old(keys), Map(), k) else TakesRight(tree, k)
      ensures Coherent(keys, Map()) <==>
              Coherent(old(keys), Map()) && (k in old(keys) || TakesNothing(tree, k) || TakesRight(tree, k))
      ensures k !in old(keys) ==> forall b: Addr :: LeafFor(tree, b, k) && Taken(tree.AllNodes()[b], k).Some? ==>
                                                      o == Some(Taken(tree.AllNodes()[b], k).value.val)
    {
      hide Btree.Valid, TakesNothing, TakesRight, Taken;
      if k in keys { return Some(keys[k]); }
      o := GetUncached(tree, k);
      if o.Some? {
        FillKeeps(keys, Map(), k, o.value);
        keys := keys[k := o.value];
      }
    }

    /** A lookup of all entries on from the landing position, with the same cache. */
    method GetEntry(k: Key) returns (o: Option<BchVal>)
      requires Valid()
      modifies this`keys
      ensures k in old(keys) ==> o == Some(old(keys)[k]) && keys == old(keys)
      ensures k !in old(keys) ==> keys == if o.Some? then old(keys)[k := o.value] else old(keys)
      ensures o == At(Map(), k) <==> if k in old(keys) then RightAt(old(keys), Map(), k) else NotVeiled(tree, k)
      ensures Coherent(keys, Map()) <==>
              Coherent(old(keys), Map()) && (k in old(keys) || FindsNothing(tree, k) || NotVeiled(tree, k))
    {
      hide Btree.Valid, FindsNothing, NotVeiled;
      if k in keys { return Some(keys[k]); }
      o := GetEntryUncached(tree, k);
      if o.Some? {
        FillKeeps(keys, Map(), k, o.value);
        keys := keys[k := o.value];
      }
    }

    /** A successful insert drops the key; the cache is right exactly if it was for the others. */
    method Insert(k: Key, v: BchVal) returns (ok: bool)
      requires Valid()
      modifies this`keys, tree
      ensures Valid() && (ok <==> !old(tree.InsertStuck(k)))
      ensures Map() == if ok then old(Map())[k := v] else old(Map())
      ensures keys == if ok then old(keys) - {k} else old(keys)
      ensures Coherent(keys, Map()) <==> if ok then old(CoherentBut(keys, Map(), k)) else old(Coherent(keys, Map()))
      ensures old(tree.depth) == 0 && old(tree.root).Fits() ==>
                tree.depth == 0 && Appended(old(tree.root), tree.root, Rec(k, Normal, v))
    {
      hide Btree.Valid, Appended, InsertRun;
      ok := tree.Insert(k, v);
      if ok {
        WriteKeeps(keys, old(Map()), Map(), k);
        keys := keys - {k};
      }
    }

    /** The same for an accepted delete. */
    method Delete(k: Key) returns (ok: bool)
      requires Valid()
      modifies this`keys, tree
      ensures Valid() && ok == old(tree.DeleteAccepted(k))
      ensures Map() == if old(tree.DeleteTakes(k)) then old(Map()) - {k} else old(Map())
      ensures keys == if ok then old(keys) - {k} else old(keys)
      ensures Coherent(keys, Map()) <==> if ok then old(CoherentBut(keys, Map(), k)) else old(Coherent(keys, Map()))
    {
      hide Btree.Valid, DeleteRun, LeafDelete;
      TakesIfAccepted(tree, k);
      ok := tree.Delete(k);
      if ok {
        WriteKeeps(keys, old(Map()), Map(), k);
        keys := keys - {k};
      }
    }

    method Do(op: Op) returns (r: Reply)
      requires Valid()
      modifies this`keys, tree
      ensures Valid() && MapStep(op, r, old(Map()), Map())
      ensures Looks(op) && op.key in old(keys) ==> r == Found(Some(old(keys)[op.key]))
      ensures forall k: Key :: Looks(op) || k != op.key ==>
                At(Map(), k) == old(At(Map(), k)) && Kept(old(keys), keys, k)
      ensures old(Coherent(keys, Map())) && RightReply(op, r, old(Map())) ==> Coherent(keys, Map())
    {
      hide Btree.Valid, TakesNothing, TakesRight, FindsNothing, NotVeiled, RightAt, Taken, Appended, LeafFor;
      hide Btree.Map, Btree.InsertStuck, Btree.DeleteTakes, Btree.DeleteAccepted, Coherent, CoherentBut;
      CoherentOthers(keys, Map(), op.key);
      TakesIfAccepted(tree, op.key);
      match op {
        case Get(k) =>
          ghost var was := keys;
          var o := Get(k);
          if k !in was && o.Some? { FillKeeps(was, Map(), k, o.value); }
          r := Found(o);
        case GetEntry(k) =>
          ghost var was := keys;
          var o := GetEntry(k);
          if k !in was && o.Some? { FillKeeps(was, Map(), k, o.value); }
          r := Found(o);
        case Insert(k, v) =>
          var ok := Insert(k, v);
          r := Wrote(ok);
        case Delete(k) =>
          var ok := Delete(k);
          r := Wrote(ok);
      }
    }

    /** Over any run, with the maps the tree had on the way: a cache that was right stays so as
        long as no lookup gives a wrong value; and a value kept is the answer for its key, right
        or not, until the key is written, whatever happens to other keys. */
    method Run(ops: seq<Op>) returns (replies: seq<Reply>, ghost trace: seq<map<Key, BchVal>>)
      requires Valid()
      modifies this`keys, tree
      ensures Valid() && IsTrace(ops, replies, trace) && trace[0] == old(Map()) && trace[|ops|] == Map()
      ensures old(Coherent(keys, Map())) && RightReplies(ops, replies, trace) ==> Coherent(keys, Map())
      ensures forall k: Key :: k in old(keys) && Unwritten(ops, k) ==>
                                 && Kept(old(keys), keys, k)
                                 && Same(ops, replies, trace, k, old(keys)[k], old(At(Map(), k)))
    {
      hide Btree.Valid, Coherent, Btree.Map, Map, MapStep, RightReply;
      replies, trace := [], [Map()];
      for n := 0 to |ops|
        invariant Valid() && IsTrace(ops[..n], replies, trace) && trace[0] == old(Map()) && trace[n] == Map()
        invariant old(Coherent(keys, Map())) && RightReplies(ops[..n], replies, trace) ==> Coherent(keys, Map())
        invariant forall k: Key :: k in old(keys) && Unwritten(ops[..n], k) ==>
                                     && Kept(old(keys), keys, k)
                                     && Same(ops[..n], replies, trace, k, old(keys)[k], old(At(Map(), k)))
      {
        var r := Do(ops[n]);
        NextTrace(ops, n, replies, trace, r, Map());
        forall k: Key | k in old(keys) && Unwritten(ops[..n + 1], k)
          ensures Kept(old(keys), keys, k)
          ensures Same(ops[..n + 1], replies + [r], trace + [Map()], k, old(keys)[k], old(At(Map(), k)))
        {
          NextSame(ops, n, replies, trace, r, Map(), k, old(keys)[k], old(At(Map(), k)));
        }
        replies, trace := replies + [r], trace + [Map()];
      }
      assert ops[..|ops|] == ops;
    }
  }

  /** The key is kept with the same value. */
  ghost predicate Kept(keys: map<Key, BchVal>, keys': map<Key, BchVal>, k: Key) {
    k in keys ==> k in keys' && keys'[k] == keys[k]
  }

  /** No operation writes the key. */
  ghost predicate Unwritten(ops: seq<Op>, k: Key) {
    forall i :: 0 <= i < |ops| ==> Looks(ops[i]) || ops[i].key != k
  }

  /** A value a lookup gives is the one the map has. */
  ghost predicate RightReply(op: Op, r: Reply, m: map<Key, BchVal>) {
    Looks(op) && r.Found? && r.value.Some? ==> r.value == At(m, op.key)
  }

  /** The maps before and after each operation of a run. */
  ghost predicate IsTrace(ops: seq<Op>, replies: seq<Reply>, trace: seq<map<Key, BchVal>>) {
    && |replies| == |ops| && |trace| == |ops| + 1
    && forall i :: 0 <= i < |ops| ==> MapStep(ops[i], replies[i], trace[i], trace[i + 1])
  }

  ghost predicate RightReplies(ops: seq<Op>, replies: seq<Reply>, trace: seq<map<Key, BchVal>>)
    requires IsTrace(ops, replies, trace)
  {
    forall i :: 0 <= i < |ops| ==> RightReply(ops[i], replies[i], trace[i])
  }

  /** Every lookup of the key gave the same value, while the map had the same all along. */
  ghost predicate Same(ops: seq<Op>, replies: seq<Reply>, trace: seq<map<Key, BchVal>>, k: Key, v: BchVal,
                       had: Option<BchVal>)
    requires IsTrace(ops, replies, trace)
  {
    && (forall i :: 0 <= i <= |ops| ==> At(trace[i], k) == had)
    && (forall i :: 0 <= i < |ops| && Looks(ops[i]) && ops[i].key == k ==> replies[i] == Found(Some(v)))
  }

  lemma NextTrace(ops: seq<Op>, n: nat, replies: seq<Reply>, trace: seq<map<Key, BchVal>>, r: Reply,
                  m: map<Key, BchVal>)
    requires n < |ops| && IsTrace(ops[..n], replies, trace) && MapStep(ops[n], r, trace[n], m)
    ensures IsTrace(ops[..n + 1], replies + [r], trace + [m])
    ensures RightReplies(ops[..n + 1], replies + [r], trace + [m]) ==>
              RightReplies(ops[..n], replies, trace) && RightReply(ops[n], r, trace[n])
  {
    hide MapStep, RightReply;
    var ops', replies', trace' := ops[..n + 1], replies + [r], trace + [m];
    forall i | 0 <= i < |ops'| ensures MapStep(ops'[i], replies'[i], trace'[i], trace'[i + 1]) {
      if i < n { assert MapStep(ops[..n][i], replies[i], trace[i], trace[i + 1]); }
    }
    if RightReplies(ops', replies', trace') {
      forall i | 0 <= i < n ensures RightReply(ops[..n][i], replies[i], trace[i]) {
        assert RightReply(ops'[i], replies'[i], trace'[i]);
      }
      assert RightReply(ops'[n], replies'[n], trace'[n]);
    }
  }

  lemma NextSame(ops: seq<Op>, n: nat, replies: seq<Reply>, trace: seq<map<Key, BchVal>>, r: Reply,
                 m: map<Key, BchVal>, k: Key, v: BchVal, had: Option<BchVal>)
    requires n < |ops| && IsTrace(ops[..n], replies, trace) && MapStep(ops[n], r, trace[n], m)
    requires Unwritten(ops[..n + 1], k)
    ensures Unwritten(ops[..n], k) && (Looks(ops[n]) || ops[n].key != k)
    ensures IsTrace(ops[..n + 1], replies + [r], trace + [m])
    ensures Same(ops[..n], replies, trace, k, v, had) && At(m, k) == had &&
            (Looks(ops[n]) && ops[n].key == k ==> r == Found(Some(v))) ==>
              Same(ops[..n + 1], replies + [r], trace + [m], k, v, had)
  {
    hide MapStep;
    NextTrace(ops, n, replies, trace, r, m);
    assert forall i :: 0 <= i < n ==> ops[..n + 1][i] == ops[..n][i];
    assert ops[..n + 1][n] == ops[n];
  }

  lemma CoherentOthers(keys: map<Key, BchVal>, m: map<Key, BchVal>, k: Key)
    ensures Coherent(keys, m) ==> CoherentBut(keys, m, k)
  {}

  /** What a delete takes it has accepted. */
  lemma TakesIfAccepted(t: Btree, k: Key)
    ensures t.DeleteTakes(k) ==> t.DeleteAccepted(k)
  {}

  // ---- a key written twice in a new tree, and looked up ----

  lemma NewFits(n: Node, n': Node, r: Rec)
    requires n == NewNode(0).(size := n.size) && n.size >= MIN_NODE_SIZE && Appended(n, n', r)
    ensures n'.Fits()
  {
    assert n.FreeStart() == 0 && n'.CompactFits();
    DropAuxHelps(n');
  }

  lemma NotStuck(t: Btree, k: Key)
    requires t.depth == 0
    ensures !t.InsertStuck(k)
  {}

  /** The older of two records of the first incremental run is the one taken. */
  lemma TakesFirst(n: Node, n': Node, n2: Node, k: Key, v0: BchVal, v1: BchVal)
    requires n == NewNode(0).(size := n.size)
    requires Appended(n, n', Rec(k, Normal, v0)) && Appended(n', n2, Rec(k, Normal, v1))
    ensures Taken(n2, k) == Some(Rec(k, Normal, v0))
  {
    assert n2.s1.recs == [Rec(k, Normal, v0), Rec(k, Normal, v1)] && n2.s0.recs == [] && n2.s2.recs == [];
    assert n2.All() == n2.s1.recs;
  }

  lemma RootIsLeaf(t: Btree, k: Key)
    requires t.Valid() && t.depth == 0
    ensures LeafFor(t, ROOT, k) && t.AllNodes()[ROOT] == t.root
  {
    GoodFacts(t.AllNodes(), t.shape, t.depth, t.nodeSize, ROOT);
  }

  /** Writing a key twice and looking it up once: from then on every lookup gives the first
      value, whatever is done to other keys, while the map has the second. */
  method Poisoned(size: nat, k: Key, v0: BchVal, v1: BchVal, ops: seq<Op>)
    returns (c: CachedTree, replies: seq<Reply>, ghost trace: seq<map<Key, BchVal>>)
    requires size >= MIN_NODE_SIZE && size % 8 == 0 && v0 != v1 && Unwritten(ops, k)
    ensures c.Valid() && At(c.Map(), k) == Some(v1) && k in c.keys && c.keys[k] == v0 && !RightAt(c.keys, c.Map(), k)
    ensures IsTrace(ops, replies, trace) && trace[|ops|] == c.Map() && Same(ops, replies, trace, k, v0, Some(v1))
  {
    hide Btree.Valid, Appended, TakesRight, TakesNothing, Coherent, CoherentBut, MapStep, Taken, Node.Fits, LeafFor;
    hide Btree.InsertStuck, Btree.Map;
    c := new CachedTree(size);
    ghost var n := c.tree.root;
    NotStuck(c.tree, k);
    RecordsFit(n);
    var ok := c.Insert(k, v0);
    ghost var n' := c.tree.root;
    NewFits(n, n', Rec(k, Normal, v0));
    NotStuck(c.tree, k);
    ok := c.Insert(k, v1);
    TakesFirst(n, n', c.tree.root, k, v0, v1);
    var o := c.Get(k);
    RootIsLeaf(c.tree, k);
    assert o == Some(v0);
    replies, trace := c.Run(ops);
  }
}
