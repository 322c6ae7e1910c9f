/** Merging the record sets of a node as it is read: length-prefixed packed records are
    collected by offset, sorted stably by position and copied out. */
module SortIters {
  import opened Wrappers
  import opened Numbers
  import opened Records
  import StableSort


  datatype CorruptData = TruncatedHeader(offset: nat) | ExceedsBuffer(offset: nat) | DestinationOverflow

  /** Size of the record at an offset: its first byte counts words of eight bytes. */
  function SizeAt(data: seq<Byte>, o: nat): nat
    requires o < |data|
  {
    var u: nat := data[o];
    8 * u
  }

  function RecordAt(data: seq<Byte>, o: nat): seq<Byte> {
    if o < |data| && o + SizeAt(data, o) <= |data| then data[o..o + SizeAt(data, o)] else []
  }

  /** Offsets of the records of a range, up to its end or a zero length. */
  function Offsets(data: seq<Byte>, start: nat, end: nat): (r: Result<seq<nat>, CorruptData>)
    decreases end - start
  {
    if start >= end then Ok([])
    else if start + 3 > |data| then Err(TruncatedHeader(start))
    else if data[start] == 0 then Ok([])
    else if start + SizeAt(data, start) > |data| then Err(ExceedsBuffer(start))
    else
      match Offsets(data, start + SizeAt(data, start), end)
      case Ok(rest) => Ok([start] + rest)
      case Err(e) => Err(e)
  }

  datatype Range = Range(start: nat, end: nat)

  function AllOffsets(data: seq<Byte>, ranges: seq<Range>): Result<seq<nat>, CorruptData> {
    if ranges == [] then Ok([])
    else
      match AllOffsets(data, ranges[..|ranges| - 1])
      case Err(e) => Err(e)
      case Ok(before) =>
        match Offsets(data, ranges[|ranges| - 1].start, ranges[|ranges| - 1].end)
        case Err(e) => Err(e)
        case Ok(last) => Ok(before + last)
  }

  /** Where records of a range begin, going by the lengths alone. */
  function Headers(data: seq<Byte>, start: nat, end: nat): (offs: seq<nat>)
    decreases end - start
  {
    if start >= end || start >= |data| || data[start] == 0 then []
    else [start] + Headers(data, start + SizeAt(data, start), end)
  }

  function AllHeaders(data: seq<Byte>, ranges: seq<Range>): seq<nat> {
    if ranges == [] then []
    else AllHeaders(data, ranges[..|ranges| - 1]) + Headers(data, ranges[|ranges| - 1].start, ranges[|ranges| - 1].end)
  }

  /** In a well-formed range these are the records; in a corrupt one they go on past the last
      record that lies inside the buffer by at most one. */
  lemma {:induction false} HeadersAre(data: seq<Byte>, start: nat, end: nat)
    ensures Offsets(data, start, end).Ok? ==> Headers(data, start, end) == Offsets(data, start, end).value
    ensures Offsets(data, start, end).Err? ==>
              forall i :: 0 <= i < |Headers(data, start, end)| - 1 ==>
                  Packed(RecordAt(data, Headers(data, start, end)[i]))
    decreases end - start
  {
    if start < end && start < |data| && data[start] != 0 {
      HeadersAre(data, start + SizeAt(data, start), end);
      var rest := Headers(data, start + SizeAt(data, start), end);
      if rest != [] { assert start + SizeAt(data, start) == rest[0] < |data|; }
    }
  }

  /** What is counted is what is sorted, for well-formed sets. */
  lemma {:induction false} AllHeadersAre(data: seq<Byte>, ranges: seq<Range>)
    requires AllOffsets(data, ranges).Ok?
    ensures AllHeaders(data, ranges) == AllOffsets(data, ranges).value
  {
    if ranges != [] {
      AllHeadersAre(data, ranges[..|ranges| - 1]);
      HeadersAre(data, ranges[|ranges| - 1].start, ranges[|ranges| - 1].end);
    }
  }

  /** The records at offsets, as bytes. */
  function RecordsAt(data: seq<Byte>, offs: seq<nat>): (rs: seq<seq<Byte>>)
    ensures |rs| == |offs| && forall i :: 0 <= i < |offs| ==> rs[i] == RecordAt(data, offs[i])
  {
    seq(|offs|, i requires 0 <= i < |offs| => RecordAt(data, offs[i]))
  }

  function Concat(rs: seq<seq<Byte>>): seq<Byte> {
    if rs == [] then [] else Concat(rs[..|rs| - 1]) + rs[|rs| - 1]
  }

  /** A packed record: as long as its first byte says, and not empty. */
  predicate Packed(r: seq<Byte>) { r != [] && r[0] > 0 && |r| == SizeAt(r, 0) }

  ghost predicate AllPacked(rs: seq<seq<Byte>>) {
    forall i :: 0 <= i < |rs| ==> Packed(rs[i])
  }

  /** What a buffer parses to. */
  function Parse(data: seq<Byte>, start: nat, end: nat): Result<seq<seq<Byte>>, CorruptData> {
    match Offsets(data, start, end)
    case Ok(offs) => Ok(RecordsAt(data, offs))
    case Err(e) => Err(e)
  }

  lemma {:induction false} ConcatCons(r: seq<Byte>, rs: seq<seq<Byte>>)
    ensures Concat([r] + rs) == r + Concat(rs)
  {
    if rs == [] {
      assert [r] + rs == [r] && [r][..0] == [];
      assert Concat([r]) == Concat([]) + r == r;
    } else {
      ConcatCons(r, rs[..|rs| - 1]);
      assert ([r] + rs)[..|rs|] == [r] + rs[..|rs| - 1];
      assert Concat([r] + rs) == (r + Concat(rs[..|rs| - 1])) + rs[|rs| - 1];
    }
  }

  /** Packed records written one after the other parse back to themselves. */
  lemma {:induction false} ParseConcat(before: seq<Byte>, rs: seq<seq<Byte>>)
    requires AllPacked(rs)
    ensures var data := before + Concat(rs); Parse(data, |before|, |data|) == Ok(rs)
    decreases |rs|
  {
    hide Parse, Concat;
    var data := before + Concat(rs);
    if rs == [] {
      ConcatNone(rs);
      assert rs[..0] == rs;
      ParseNone(data, |before|);
    } else {
      var r, rest := rs[0], rs[1..];
      assert rs == [r] + rest;
      ConcatCons(r, rest);
      ParseConcat(before + r, rest);
      assert data == (before + r) + Concat(rest);
      assert data[|before|..|before| + |r|] == r;
      ParseStep(data, |before|, r, rest);
    }
  }

  lemma ParseNone(data: seq<Byte>, o: nat)
    requires o >= |data|
    ensures Parse(data, o, |data|) == Ok([])
  {
    assert RecordsAt(data, []) == [];
  }

  lemma ParseStep(data: seq<Byte>, o: nat, r: seq<Byte>, rest: seq<seq<Byte>>)
    requires Packed(r) && o + |r| <= |data| && data[o..o + |r|] == r
    requires Parse(data, o + |r|, |data|) == Ok(rest)
    ensures Parse(data, o, |data|) == Ok([r] + rest)
  {
    assert data[o] == r[0] && SizeAt(data, o) == |r|;
    var offs := Offsets(data, o + |r|, |data|).value;
    assert Offsets(data, o, |data|) == Ok([o] + offs);
    assert RecordsAt(data, [o] + offs) == [r] + rest;
  }

  /** Every record found by its offset is packed and lies inside the buffer. */
  lemma {:induction false} OffsetsPacked(data: seq<Byte>, start: nat, end: nat)
    requires Offsets(data, start, end).Ok?
    ensures AllPacked(RecordsAt(data, Offsets(data, start, end).value))
    decreases end - start
  {
    if start < end && data[start] != 0 {
      OffsetsPacked(data, start + SizeAt(data, start), end);
      var rest := Offsets(data, start + SizeAt(data, start), end).value;
      assert Offsets(data, start, end).value == [start] + rest;
      assert RecordsAt(data, [start] + rest) == [RecordAt(data, start)] + RecordsAt(data, rest);
    }
  }

  lemma {:induction false} AllOffsetsPacked(data: seq<Byte>, ranges: seq<Range>)
    requires AllOffsets(data, ranges).Ok?
    ensures AllPacked(RecordsAt(data, AllOffsets(data, ranges).value))
  {
    if ranges != [] {
      var init, last := ranges[..|ranges| - 1], ranges[|ranges| - 1];
      AllOffsetsPacked(data, init);
      OffsetsPacked(data, last.start, last.end);
      RecordsConcat(data, AllOffsets(data, init).value, Offsets(data, last.start, last.end).value);
    }
  }

  lemma RecordsConcat(data: seq<Byte>, a: seq<nat>, b: seq<nat>)
    ensures RecordsAt(data, a + b) == RecordsAt(data, a) + RecordsAt(data, b)
  {}

  // ---- sorting by offset is sorting the records ----

  /** The rank of the record at an offset. */
  function OffsetRank(data: seq<Byte>, rank: seq<Byte> -> int): nat -> int {
    (o: nat) => rank(RecordAt(data, o))
  }

  lemma {:induction false} InsertRecords(data: seq<Byte>, rank: seq<Byte> -> int, o: nat, offs: seq<nat>)
    ensures RecordsAt(data, StableSort.Insert(o, offs, OffsetRank(data, rank))) ==
            StableSort.Insert(RecordAt(data, o), RecordsAt(data, offs), rank)
  {
    hide RecordAt;
    var key := OffsetRank(data, rank);
    if offs == [] || key(o) <= key(offs[0]) {
      assert RecordsAt(data, [o] + offs) == [RecordAt(data, o)] + RecordsAt(data, offs);
    } else {
      InsertRecords(data, rank, o, offs[1..]);
      var t := StableSort.Insert(o, offs[1..], key);
      assert RecordsAt(data, [offs[0]] + t) == [RecordAt(data, offs[0])] + RecordsAt(data, t);
      assert RecordsAt(data, offs)[1..] == RecordsAt(data, offs[1..]);
    }
  }

  lemma {:induction false} SortRecords(data: seq<Byte>, rank: seq<Byte> -> int, offs: seq<nat>)
    ensures RecordsAt(data, StableSort.Sort(offs, OffsetRank(data, rank))) ==
            StableSort.Sort(RecordsAt(data, offs), rank)
  {
    if offs != [] {
      SortRecords(data, rank, offs[1..]);
      InsertRecords(data, rank, offs[0], StableSort.Sort(offs[1..], OffsetRank(data, rank)));
      assert RecordsAt(data, offs)[1..] == RecordsAt(data, offs[1..]);
    }
  }

  lemma SortPacked(rs: seq<seq<Byte>>, rank: seq<Byte> -> int)
    requires AllPacked(rs)
    ensures AllPacked(StableSort.Sort(rs, rank))
  {
    StableSort.SortMembers(rs, rank);
    var s := StableSort.Sort(rs, rank);
    forall i | 0 <= i < |s| ensures Packed(s[i]) { assert s[i] in s && s[i] in rs; }
  }

  lemma {:induction false} ConcatPrefix(rs: seq<seq<Byte>>, i: nat)
    requires i <= |rs|
    ensures |Concat(rs[..i])| <= |Concat(rs)|
    decreases |rs| - i
  {
    if i == |rs| {
      assert rs[..i] == rs;
    } else {
      ConcatPrefix(rs, i + 1);
      assert rs[..i + 1][..i] == rs[..i];
    }
  }

  // ---- the iterator ----

  /** A record set of the node: where it lies and how many records it is said to hold. */
  datatype SetInfo = SetInfo(start: nat, end: nat, size: nat)

  /** The ranges of the sets that are not empty. */
  function RangesOf(sets: seq<SetInfo>): seq<Range> {
    if sets == [] then []
    else
      var last := sets[|sets| - 1];
      RangesOf(sets[..|sets| - 1]) +
      if last.size > 0 && last.start < last.end then [Range(last.start, last.end)] else []
  }

  class SortIter {
    const data: seq<Byte>
    const rank: seq<Byte> -> int
    var ranges: seq<Range>

    constructor (data: seq<Byte>, rank: seq<Byte> -> int)
      ensures this.data == data && this.rank == rank && ranges == []
    {
      this.data, this.rank, ranges := data, rank, [];
    }

    method Add(start: nat, end: nat)
      modifies this
      ensures ranges == if start < end then old(ranges) + [Range(start, end)] else old(ranges)
    {
      if start < end { ranges := ranges + [Range(start, end)]; }
    }

    method AddAllBsets(sets: seq<SetInfo>)
      modifies this
      ensures ranges == old(ranges) + RangesOf(sets)
    {
      for i := 0 to |sets|
        invariant ranges == old(ranges) + RangesOf(sets[..i])
      {
        assert sets[..i + 1][..i] == sets[..i];
        if sets[i].size > 0 { Add(sets[i].start, sets[i].end); }
      }
      assert sets[..|sets|] == sets;
    }

    /** Collects the offsets of all records of all ranges. */
    method Collect() returns (r: Result<seq<nat>, CorruptData>)
      ensures r == AllOffsets(data, ranges)
    {
      var offs: seq<nat> := [];
      for i := 0 to |ranges|
        invariant AllOffsets(data, ranges[..i]) == Ok(offs)
      {
        assert ranges[..i + 1][..i] == ranges[..i];
        var one := CollectRange(ranges[i].start, ranges[i].end);
        if one.Err? {
          ErrStays(data, ranges, i + 1);
          return one;
        }
        offs := offs + one.value;
      }
      assert ranges[..|ranges|] == ranges;
      r := Ok(offs);
    }

    method CollectRange(start: nat, end: nat) returns (r: Result<seq<nat>, CorruptData>)
      ensures r == Offsets(data, start, end)
    {
      var cur := start;
      var offs: seq<nat> := [];
      PrefixedNone(Offsets(data, start, end));
      while cur < end
        invariant Offsets(data, start, end) == Prefixed(offs, Offsets(data, cur, end))
        decreases end - cur
      {
        if cur + 3 > |data| { return Err(TruncatedHeader(cur)); }
        if data[cur] == 0 { break; }
        if cur + SizeAt(data, cur) > |data| { return Err(ExceedsBuffer(cur)); }
        PrefixedStep(offs, cur, Offsets(data, cur + SizeAt(data, cur), end));
        offs := offs + [cur];
        cur := cur + SizeAt(data, cur);
      }
      assert offs + [] == offs;
      r := Ok(offs);
    }

    /** Sorts the records of all ranges into the destination. */
    method SortInto(dst: array<Byte>) returns (r: Result<nat, CorruptData>)
      modifies dst
      ensures match AllOffsets(data, ranges)
              case Err(e) => r == Err(e) && dst[..] == old(dst[..])
              case Ok(offs) =>
                var out := Concat(StableSort.Sort(RecordsAt(data, offs), rank));
                if |out| <= dst.Length
                then r == Ok(|out|) && dst[..|out|] == out && dst[|out|..] == old(dst[|out|..])
                else r == Err(DestinationOverflow)
    {
      var c := Collect();
      if c.Err? { return Err(c.error); }
      var offs := StableSort.Sort(c.value, OffsetRank(data, rank));
      SortRecords(data, rank, c.value);
      AllOffsetsPacked(data, ranges);
      ghost var rs := StableSort.Sort(RecordsAt(data, c.value), rank);
      SortPacked(RecordsAt(data, c.value), rank);
      r := CopyAll(dst, offs, rs);
    }

    /** Copies the records at the given offsets one after the other, while there is room. */
    method CopyAll(dst: array<Byte>, offs: seq<nat>, ghost rs: seq<seq<Byte>>) returns (r: Result<nat, CorruptData>)
      requires rs == RecordsAt(data, offs) && AllPacked(rs)
      modifies dst
      ensures var out := Concat(rs);
              if |out| <= dst.Length
              then r == Ok(|out|) && dst[..|out|] == out && dst[|out|..] == old(dst[|out|..])
              else r == Err(DestinationOverflow)
    {
      hide Concat, RecordAt, Packed;
      var at := 0;
      ConcatNone(rs);
      for i := 0 to |offs|
        invariant at == |Concat(rs[..i])| <= dst.Length
        invariant Stored(dst[..], old(dst[..]), Concat(rs[..i]))
      {
        ConcatNext(rs, i);
        RecordInside(data, offs[i]);
        var size := SizeAt(data, offs[i]);
        if at + size > dst.Length {
          ConcatPrefix(rs, i + 1);
          return Err(DestinationOverflow);
        }
        ghost var was := dst[..];
        Copy(dst, at, offs[i], size);
        StoredNext(was, dst[..], old(dst[..]), Concat(rs[..i]), rs[i]);
        at := at + size;
      }
      assert rs[..|rs|] == rs;
      r := Ok(at);
    }

    method Copy(dst: array<Byte>, at: nat, src: nat, size: nat)
      requires src + size <= |data| && at + size <= dst.Length
      modifies dst
      ensures CopiedTo(old(dst[..]), dst[..], at, data[src..src + size])
    {
      for j := 0 to size
        invariant forall i :: 0 <= i < dst.Length ==>
                    dst[i] == if at <= i < at + j then data[src + i - at] else old(dst[i])
      {
        dst[at + j] := data[src + j];
      }
    }

    /** Counts the records of all ranges. */
    method TotalKeys() returns (count: nat)
      ensures count == |AllHeaders(data, ranges)|
    {
      count := 0;
      for i := 0 to |ranges|
        invariant count == |AllHeaders(data, ranges[..i])|
      {
        assert ranges[..i + 1][..i] == ranges[..i];
        var one := CountRange(ranges[i].start, ranges[i].end);
        count := count + one;
      }
      assert ranges[..|ranges|] == ranges;
    }

    method CountRange(start: nat, end: nat) returns (count: nat)
      ensures count == |Headers(data, start, end)|
    {
      var cur := start;
      count := 0;
      while cur < end
        invariant |Headers(data, start, end)| == count + |Headers(data, cur, end)|
        decreases end - cur
      {
        if cur >= |data| { break; }
        if data[cur] == 0 { break; }
        count := count + 1;
        cur := cur + SizeAt(data, cur);
      }
    }
  }

  /** The buffer starts with what was written; behind it, it is as it was. */
  ghost predicate Stored(buf: seq<Byte>, was: seq<Byte>, out: seq<Byte>) {
    |buf| == |was| && |out| <= |buf| && buf[..|out|] == out && buf[|out|..] == was[|out|..]
  }

  ghost predicate CopiedTo(before: seq<Byte>, after: seq<Byte>, at: nat, r: seq<Byte>) {
    && |after| == |before| && at + |r| <= |after|
    && forall i :: 0 <= i < |after| ==> after[i] == if at <= i < at + |r| then r[i - at] else before[i]
  }

  lemma StoredNext(before: seq<Byte>, after: seq<Byte>, was: seq<Byte>, out: seq<Byte>, r: seq<Byte>)
    requires Stored(before, was, out) && CopiedTo(before, after, |out|, r)
    ensures Stored(after, was, out + r)
  {
    assert forall i :: 0 <= i < |out| ==> before[i] == before[..|out|][i];
    assert forall i :: |out| <= i < |was| ==>
             before[i] == before[|out|..][i - |out|] && was[i] == was[|out|..][i - |out|];
  }

  lemma ConcatNone(rs: seq<seq<Byte>>)
    ensures Concat(rs[..0]) == []
  {}

  lemma ConcatNext(rs: seq<seq<Byte>>, i: nat)
    requires i < |rs| && AllPacked(rs)
    ensures Concat(rs[..i + 1]) == Concat(rs[..i]) + rs[i] && Packed(rs[i])
  {
    assert rs[..i + 1][..i] == rs[..i];
  }

  lemma RecordInside(data: seq<Byte>, o: nat)
    requires Packed(RecordAt(data, o))
    ensures o < |data| && o + SizeAt(data, o) <= |data|
    ensures RecordAt(data, o) == data[o..o + SizeAt(data, o)]
  {}

  function Prefixed(offs: seq<nat>, r: Result<seq<nat>, CorruptData>): Result<seq<nat>, CorruptData> {
    match r
    case Ok(rest) => Ok(offs + rest)
    case Err(e) => Err(e)
  }

  lemma PrefixedNone(r: Result<seq<nat>, CorruptData>)
    ensures Prefixed([], r) == r
  {
    if r.Ok? { assert [] + r.value == r.value; }
  }

  lemma PrefixedStep(offs: seq<nat>, o: nat, r: Result<seq<nat>, CorruptData>)
    ensures Prefixed(offs, Prefixed([o], r)) == Prefixed(offs + [o], r)
  {
    if r.Ok? { assert offs + ([o] + r.value) == (offs + [o]) + r.value; }
  }

  lemma {:induction false} ErrStays(data: seq<Byte>, ranges: seq<Range>, i: nat)
    requires i <= |ranges| && AllOffsets(data, ranges[..i]).Err?
    ensures AllOffsets(data, ranges) == AllOffsets(data, ranges[..i])
    decreases |ranges|
  {
    if i == |ranges| {
      assert ranges[..i] == ranges;
    } else {
      assert ranges[..|ranges| - 1][..i] == ranges[..i];
      ErrStays(data, ranges[..|ranges| - 1], i);
    }
  }

  // ---- what the merge means ----

  /** What a merge wrote parses back to the stable sort of all records, byte for byte. */
  lemma MergeParsesBack(data: seq<Byte>, ranges: seq<Range>, rank: seq<Byte> -> int)
    requires AllOffsets(data, ranges).Ok?
    ensures var sorted := StableSort.Sort(RecordsAt(data, AllOffsets(data, ranges).value), rank);
            Parse(Concat(sorted), 0, |Concat(sorted)|) == Ok(sorted)
  {
    var rs := RecordsAt(data, AllOffsets(data, ranges).value);
    AllOffsetsPacked(data, ranges);
    SortPacked(rs, rank);
    ParseConcat([], StableSort.Sort(rs, rank));
    assert [] + Concat(StableSort.Sort(rs, rank)) == Concat(StableSort.Sort(rs, rank));
  }

  /** Sorting a node's records by any order in which exactly the records of one key tie, and
      compacting then, gives what compacting at once gives. */
  lemma SortThenCompact(rs: seq<Rec>, order: Rec -> int)
    requires forall a, b :: order(a) == order(b) <==> a.key == b.key
    ensures Compacted(StableSort.Sort(rs, order)) == Compacted(rs)
  {
    var t := StableSort.Sort(rs, order);
    StableSort.SortIsStable(rs, order);
    StableSort.SortIsStable(t, RecKey);
    StableSort.SortIsStable(rs, RecKey);
    forall k
      ensures StableSort.Only(StableSort.Sort(t, RecKey), RecKey, k) ==
              StableSort.Only(StableSort.Sort(rs, RecKey), RecKey, k)
    {
      assert StableSort.Only(StableSort.Sort(t, RecKey), RecKey, k) == StableSort.Only(t, RecKey, k);
      assert StableSort.Only(StableSort.Sort(rs, RecKey), RecKey, k) == StableSort.Only(rs, RecKey, k);
      SameTies(t, rs, order, k);
    }
    StableSort.StableSortIsUnique(StableSort.Sort(t, RecKey), StableSort.Sort(rs, RecKey), RecKey);
  }

  lemma SameTies(a: seq<Rec>, b: seq<Rec>, order: Rec -> int, k: int)
    requires forall x, y :: order(x) == order(y) <==> x.key == y.key
    requires forall q :: StableSort.Only(a, order, q) == StableSort.Only(b, order, q)
    ensures StableSort.Only(a, RecKey, k) == StableSort.Only(b, RecKey, k)
  {
    if 0 <= k < KEY_SPACE {
      var q := order(Rec(k, Normal, BchVal(0, 0)));
      TiesAre(a, order, k, q);
      TiesAre(b, order, k, q);
      assert StableSort.Only(a, order, q) == StableSort.Only(b, order, q);
    } else {
      NoTies(a, k);
      NoTies(b, k);
    }
  }

  lemma {:induction false} TiesAre(s: seq<Rec>, order: Rec -> int, k: Key, q: int)
    requires forall x, y :: order(x) == order(y) <==> x.key == y.key
    requires q == order(Rec(k, Normal, BchVal(0, 0)))
    ensures StableSort.Only(s, RecKey, k) == StableSort.Only(s, order, q)
  {
    if s != [] {
      TiesAre(s[1..], order, k, q);
      assert order(s[0]) == q <==> s[0].key == k;
    }
  }

  lemma {:induction false} NoTies(s: seq<Rec>, k: int)
    requires !(0 <= k < KEY_SPACE)
    ensures StableSort.Only(s, RecKey, k) == []
  {
    if s != [] { NoTies(s[1..], k); }
  }
}
