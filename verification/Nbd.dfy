/** The NBD transmission handlers: byte ranges served from a device of fixed-size blocks. */
module Nbd {
  import opened Wrappers
  import opened Numbers

  const BLOCK_SIZE: nat := 4096

  /** First byte of a block, block of a byte, and position in it. */
  function Start(b: nat): nat { 4096 * b }

  function BlockOf(i: nat): nat { i / 4096 }

  function PosOf(i: nat): nat { i % 4096 }

  type Block = b: seq<Byte> | |b| == BLOCK_SIZE witness seq(BLOCK_SIZE, _ => 0)

  function BlocksUpTo(end: nat): nat { BlockOf(end + BLOCK_SIZE - 1) }

  /** The device as one flat array of bytes. */
  function Flat(blocks: seq<Block>): (f: seq<Byte>)
    ensures |f| == Start(|blocks|)
  {
    seq(Start(|blocks|), i requires 0 <= i < Start(|blocks|) => blocks[BlockOf(i)][PosOf(i)])
  }

  lemma FlatAt(blocks: seq<Block>, b: nat, j: nat)
    requires b < |blocks| && j < BLOCK_SIZE
    ensures Start(b) + j < |Flat(blocks)| && Flat(blocks)[Start(b) + j] == blocks[b][j]
  {
    assert BlockOf(Start(b) + j) == b && PosOf(Start(b) + j) == j;
  }

  /** A block lies partly inside and partly outside a byte range. */
  predicate Partial(b: nat, offset: nat, end: nat) {
    && Start(b) < end && offset < Start(b + 1) && offset < end
    && !(offset <= Start(b) && Start(b + 1) <= end)
  }

  predicate Touched(b: nat, offset: nat, end: nat) {
    Start(b) < end && offset < Start(b + 1) && offset < end
  }

  /** What a write makes of byte i: inside the range the data, elsewhere what was there. A
      block that must be read first and cannot be is written with zeros around the data. */
  function WrittenByte(flat: seq<Byte>, bad: set<nat>, offset: nat, end: nat, data: seq<Byte>, i: nat): Byte
    requires i < |flat| && end <= offset + |data|
  {
    if offset <= i < end then data[i - offset]
    else if BlockOf(i) in bad && Partial(BlockOf(i), offset, end) then 0
    else flat[i]
  }

  /** A flat array with some bytes replaced. */
  function Overlay(flat: seq<Byte>, offset: nat, data: seq<Byte>): seq<Byte>
    requires offset + |data| <= |flat|
  {
    flat[..offset] + data + flat[offset + |data|..]
  }

  function Zeroed(flat: seq<Byte>, lo: nat, hi: nat): (f: seq<Byte>)
    ensures |f| == |flat| && forall i :: 0 <= i < |flat| ==> f[i] == if lo <= i < hi then 0 else flat[i]
  {
    seq(|flat|, i requires 0 <= i < |flat| => if lo <= i < hi then 0 as Byte else flat[i])
  }

  const ZERO_BLOCK: Block := seq(BLOCK_SIZE, _ => 0)

  function Floor(offset: nat): nat { Start(BlockOf(offset)) }

  /** WrittenByte by block and position. */
  function WrittenAt(blocks: seq<Block>, bad: set<nat>, offset: nat, end: nat, data: seq<Byte>, c: nat, j: nat): Byte
    requires c < |blocks| && j < BLOCK_SIZE && end <= offset + |data|
  {
    var i := Start(c) + j;
    if offset <= i < end then data[i - offset]
    else if c in bad && Partial(c, offset, end) then 0
    else blocks[c][j]
  }

  lemma FlatWritten(before: seq<Block>, after: seq<Block>, bad: set<nat>, offset: nat, end: nat, data: seq<Byte>)
    requires |before| == |after| && end <= offset + |data|
    requires forall c, j :: 0 <= c < |after| && 0 <= j < BLOCK_SIZE ==>
               after[c][j] == WrittenAt(before, bad, offset, end, data, c, j)
    ensures forall i :: 0 <= i < |Flat(after)| ==>
              Flat(after)[i] == WrittenByte(Flat(before), bad, offset, end, data, i)
  {
    forall i | 0 <= i < |Flat(after)| ensures Flat(after)[i] == WrittenByte(Flat(before), bad, offset, end, data, i) {
      var c, j := BlockOf(i), PosOf(i);
      assert after[c][j] == WrittenAt(before, bad, offset, end, data, c, j);
    }
  }

  lemma FlatTrimmed(before: seq<Block>, after: seq<Block>, lo: nat, hi: nat)
    requires |before| == |after|
    requires forall c :: 0 <= c < |after| ==> after[c] == if lo <= c < hi then ZERO_BLOCK else before[c]
    ensures Flat(after) == Zeroed(Flat(before), Start(lo), Start(hi))
  {
    var f, z := Flat(after), Zeroed(Flat(before), Start(lo), Start(hi));
    forall i | 0 <= i < |f| ensures f[i] == z[i] {
      var c := BlockOf(i);
      assert lo <= c < hi <==> Start(lo) <= i < Start(hi);
    }
  }

  class BlockServer {
    const size: nat
    /** Blocks whose reading fails. */
    const bad: set<nat>
    var blocks: seq<Block>

    ghost predicate Valid()
      reads this
    {
      size <= Start(|blocks|)
    }

    constructor (size: nat, bad: set<nat>, blocks: seq<Block>)
      requires size <= Start(|blocks|)
      ensures Valid() && this.size == size && this.bad == bad && this.blocks == blocks
    {
      this.size, this.bad, this.blocks := size, bad, blocks;
    }

    method ReadBlock(b: nat) returns (o: Option<Block>)
      requires b < |blocks|
      ensures o == if b in bad then None else Some(blocks[b])
    {
      o := if b in bad then None else Some(blocks[b]);
    }

    /** Reads a range clipped to the export; an error if a block in it cannot be read. */
    method HandleRead(offset: nat, len: nat) returns (r: Result<seq<Byte>, ()>)
      requires Valid()
      ensures var end := Min(offset + len, size);
              r == if exists b :: b in bad && Touched(b, offset, end) then Err(())
                   else if offset < end then Ok(Flat(blocks)[offset..end]) else Ok([])
    {
      var end := Min(offset + len, size);
      var actual := if offset < end then end - offset else 0;
      var buf := new Byte[actual](_ => 0);
      var startBlock, endBlock := BlockOf(offset), BlocksUpTo(end);
      var readError := false;
      for b := startBlock to Max(startBlock, endBlock)
        invariant readError ==> exists c :: c in bad && Touched(c, offset, end)
        invariant !readError ==> forall c :: c in bad && c < b ==> !Touched(c, offset, end)
        invariant !readError ==> ReadUpTo(buf[..], Flat(blocks), offset, Start(b))
      {
        var blockOff := Start(b);
        var srcStart := if offset > blockOff then offset - blockOff else 0;
        var srcEnd := Min(BLOCK_SIZE, end - blockOff);
        if srcStart >= srcEnd {
          assert !Touched(b, offset, end);
          ReadNothing(buf[..], Flat(blocks), offset, end, b);
          continue;
        }
        assert Touched(b, offset, end);
        var block := ReadBlock(b);
        if block.None? {
          assert b in bad && Touched(b, offset, end);
          readError := true;
          continue;
        }
        var dstStart, copyLen := blockOff + srcStart - offset, srcEnd - srcStart;
        ghost var was := buf[..];
        assert dstStart + copyLen <= buf.Length && block.value == blocks[b];
        if dstStart + copyLen <= buf.Length {
          CopyInto(buf, dstStart, block.value[srcStart..srcEnd]);
        }
        assert forall i :: dstStart <= i < dstStart + copyLen ==> buf[i] == blocks[b][srcStart + i - dstStart];
        if !readError { ReadOne(was, buf[..], blocks, offset, end, b); }
      }
      forall c | c in bad && Touched(c, offset, end) ensures c < endBlock { LastBlock(c, offset, end); }
      if readError { return Err(()); }
      r := Ok(buf[..]);
      if offset < end { ReadAll(buf[..], Flat(blocks), offset, end, Start(endBlock)); }
    }

    /** Writes the part of a range that falls into one block. */
    method WriteOne(b: nat, offset: nat, end: nat, data: seq<Byte>)
      requires b < |blocks| && end <= offset + |data| && Start(b) < end
      modifies this
      ensures |blocks| == |old(blocks)| && forall c :: 0 <= c < |blocks| && c != b ==> blocks[c] == old(blocks)[c]
      ensures forall j :: 0 <= j < BLOCK_SIZE ==> blocks[b][j] == WrittenAt(old(blocks), bad, offset, end, data, b, j)
    {
      var blockOff := Start(b);
      var writeStart := if offset > blockOff then offset - blockOff else 0;
      var writeEnd := Min(BLOCK_SIZE, end - blockOff);
      if writeStart >= writeEnd { return; }
      var full := writeStart == 0 && writeEnd == BLOCK_SIZE;
      var block: seq<Byte> := seq(BLOCK_SIZE, _ => 0);
      if !full {
        var o := ReadBlock(b);
        if o.Some? { block := o.value; }
      }
      var dataStart, copyLen := blockOff + writeStart - offset, writeEnd - writeStart;
      if dataStart + copyLen <= |data| {
        block := block[..writeStart] + data[dataStart..dataStart + copyLen] + block[writeEnd..];
      }
      blocks := blocks[b := block];
    }

    /** Writes a range clipped to the export, block by block: a block that is not covered
        whole is read first, and a failure to read it is not noticed. */
    method HandleWrite(offset: nat, data: seq<Byte>)
      requires Valid()
      modifies this
      ensures Valid() && |blocks| == |old(blocks)|
      ensures var end := Min(offset + |data|, size);
              forall i :: 0 <= i < |Flat(blocks)| ==>
                  Flat(blocks)[i] == WrittenByte(Flat(old(blocks)), bad, offset, end, data, i)
    {
      var end := Min(offset + |data|, size);
      if end <= offset {
        return;
      }
      var startBlock, endBlock := BlockOf(offset), BlocksUpTo(end);
      for b := startBlock to endBlock
        invariant |blocks| == |old(blocks)|
        invariant forall c, j :: 0 <= c < |blocks| && 0 <= j < BLOCK_SIZE ==>
                    blocks[c][j] ==
                    if c < b then WrittenAt(old(blocks), bad, offset, end, data, c, j) else old(blocks)[c][j]
      {
        WriteOne(b, offset, end, data);
      }
      forall c, j | 0 <= c < |blocks| && 0 <= j < BLOCK_SIZE
        ensures blocks[c][j] == WrittenAt(old(blocks), bad, offset, end, data, c, j)
      {
        if c >= endBlock { assert Start(c) >= end; }
      }
      FlatWritten(old(blocks), blocks, bad, offset, end, data);
    }

    /** Trims every block a range touches, whole, and past the end of the export. */
    method HandleTrim(offset: nat, len: nat)
      requires Valid()
      modifies this
      ensures Valid() && |blocks| == |old(blocks)|
      ensures Flat(blocks) == Zeroed(Flat(old(blocks)), Floor(offset), Start(BlocksUpTo(offset + len)))
    {
      var startBlock, endBlock := BlockOf(offset), BlocksUpTo(offset + len);
      for b := startBlock to Max(startBlock, endBlock)
        invariant |blocks| == |old(blocks)|
        invariant forall c :: 0 <= c < |blocks| ==>
                    blocks[c] == if startBlock <= c < b then ZERO_BLOCK else old(blocks)[c]
      {
        if b < |blocks| { blocks := blocks[b := ZERO_BLOCK]; }
      }
      FlatTrimmed(old(blocks), blocks, startBlock, endBlock);
    }
  }

  /** The buffer agrees with the flat array below a limit. */
  ghost predicate ReadUpTo(buf: seq<Byte>, flat: seq<Byte>, offset: nat, limit: nat) {
    forall i {:trigger ReadAt(buf, flat, offset, i)} :: 0 <= i < |buf| && offset + i < limit ==>
        ReadAt(buf, flat, offset, i)
  }

  ghost predicate ReadAt(buf: seq<Byte>, flat: seq<Byte>, offset: nat, i: nat)
    requires i < |buf|
  {
    offset + i < |flat| && buf[i] == flat[offset + i]
  }

  lemma ReadAll(buf: seq<Byte>, flat: seq<Byte>, offset: nat, end: nat, limit: nat)
    requires ReadUpTo(buf, flat, offset, limit) && offset <= end <= limit && |buf| == end - offset && end <= |flat|
    ensures buf == flat[offset..end]
  {
    forall i | 0 <= i < |buf| ensures buf[i] == flat[offset..end][i] { assert ReadAt(buf, flat, offset, i); }
  }

  lemma ReadNothing(buf: seq<Byte>, flat: seq<Byte>, offset: nat, end: nat, b: nat)
    requires ReadUpTo(buf, flat, offset, Start(b)) && !Touched(b, offset, end)
    requires |buf| == if offset < end then end - offset else 0
    ensures ReadUpTo(buf, flat, offset, Start(b + 1))
  {
    forall i | 0 <= i < |buf| && offset + i < Start(b + 1) ensures ReadAt(buf, flat, offset, i) {
      assert offset + i >= Start(b) ==> Touched(b, offset, end);
    }
  }

  lemma ReadOne(was: seq<Byte>, buf: seq<Byte>, blocks: seq<Block>, offset: nat, end: nat, b: nat)
    requires ReadUpTo(was, Flat(blocks), offset, Start(b)) && Touched(b, offset, end) && b < |blocks|
    requires |buf| == |was| == end - offset
    requires var lo := if offset > Start(b) then offset - Start(b) else 0;
             var hi := Min(BLOCK_SIZE, end - Start(b));
             var at := Start(b) + lo - offset;
             forall i :: 0 <= i < |buf| ==> buf[i] == if at <= i < at + hi - lo then blocks[b][lo + i - at] else was[i]
    ensures ReadUpTo(buf, Flat(blocks), offset, Start(b + 1))
  {
    forall i | 0 <= i < |buf| && offset + i < Start(b + 1) ensures ReadAt(buf, Flat(blocks), offset, i) {
      assert offset + i < Start(b) ==> ReadAt(was, Flat(blocks), offset, i);
      if offset + i >= Start(b) { FlatAt(blocks, b, offset + i - Start(b)); }
    }
  }

  lemma LastBlock(b: nat, offset: nat, end: nat)
    requires Touched(b, offset, end)
    ensures BlockOf(offset) <= b < BlocksUpTo(end)
  {}

  method CopyInto(buf: array<Byte>, at: nat, data: seq<Byte>)
    requires at + |data| <= buf.Length
    modifies buf
    ensures forall i :: 0 <= i < buf.Length ==>
              buf[i] == if at <= i < at + |data| then data[i - at] else old(buf[i])
  {
    for i := 0 to |data|
      invariant forall j :: 0 <= j < buf.Length ==>
                  buf[j] == if at <= j < at + i then data[j - at] else old(buf[j])
    {
      buf[at + i] := data[i];
    }
  }

  // ---- the server as one flat byte array ----

  datatype Request = Read(offset: nat, len: nat) | Write(offset: nat, data: seq<Byte>) | Trim(offset: nat, len: nat)
  datatype Reply = Data(bytes: seq<Byte>) | Done | Failed

  /** What a request does to a flat array of which the first size bytes are exported. */
  function FlatAfter(flat: seq<Byte>, size: nat, req: Request): (f: seq<Byte>)
    requires size <= |flat|
    ensures |f| == |flat|
  {
    match req
    case Read(_, _) => flat
    case Write(offset, data) =>
      var end := Min(offset + |data|, size);
      if end <= offset then flat else Overlay(flat, offset, data[..end - offset])
    case Trim(offset, len) => Zeroed(flat, Floor(offset), Start(BlocksUpTo(offset + len)))
  }

  function FlatReply(flat: seq<Byte>, size: nat, req: Request): Reply
    requires size <= |flat|
  {
    match req
    case Read(offset, len) =>
      var end := Min(offset + len, size);
      if offset < end then Data(flat[offset..end]) else Data([])
    case Write(_, _) => Done
    case Trim(_, _) => Done
  }

  function FlatRun(flat: seq<Byte>, size: nat, reqs: seq<Request>): (r: (seq<Reply>, seq<Byte>))
    requires size <= |flat|
    ensures |r.1| == |flat|
  {
    if reqs == [] then ([], flat)
    else
      var before := FlatRun(flat, size, reqs[..|reqs| - 1]);
      var req := reqs[|reqs| - 1];
      (before.0 + [FlatReply(before.1, size, req)], FlatAfter(before.1, size, req))
  }

  /** A request that needs no unreadable block. */
  ghost predicate Readable(bad: set<nat>, size: nat, req: Request) {
    match req
    case Read(offset, len) => forall b :: b in bad ==> !Touched(b, offset, Min(offset + len, size))
    case Write(offset, data) => forall b :: b in bad ==> !Partial(b, offset, Min(offset + |data|, size))
    case Trim(_, _) => true
  }

  /** Read-modify-write changes the bytes of its range only, as long as the blocks it has to
      read can be read. */
  lemma WriteIsOverlay(blocks: seq<Block>, after: seq<Block>, bad: set<nat>, size: nat, offset: nat, data: seq<Byte>)
    requires |after| == |blocks| && size <= Start(|blocks|) && Readable(bad, size, Write(offset, data))
    requires var end := Min(offset + |data|, size);
             forall i :: 0 <= i < |Flat(after)| ==>
                 Flat(after)[i] == WrittenByte(Flat(blocks), bad, offset, end, data, i)
    ensures Flat(after) == FlatAfter(Flat(blocks), size, Write(offset, data))
  {
    hide Flat, Overlay;
    var end, f := Min(offset + |data|, size), Flat(blocks);
    if end <= offset {
      assert Flat(after) == f;
    } else {
      OverlayAt(f, offset, data[..end - offset]);
      assert Flat(after) == Overlay(f, offset, data[..end - offset]);
    }
  }

  lemma OverlayAt(flat: seq<Byte>, offset: nat, data: seq<Byte>)
    requires offset + |data| <= |flat|
    ensures |Overlay(flat, offset, data)| == |flat|
    ensures forall i :: 0 <= i < |flat| ==>
              Overlay(flat, offset, data)[i] == if offset <= i < offset + |data| then data[i - offset] else flat[i]
  {}

  method Handle(s: BlockServer, req: Request) returns (reply: Reply)
    requires s.Valid()
    modifies s
    ensures s.Valid() && |s.blocks| == |old(s.blocks)|
    ensures Readable(s.bad, s.size, req) ==>
              reply == FlatReply(Flat(old(s.blocks)), s.size, req) &&
              Flat(s.blocks) == FlatAfter(Flat(old(s.blocks)), s.size, req)
  {
    hide Flat;
    match req {
      case Read(offset, len) =>
        var r := s.HandleRead(offset, len);
        reply := if r.Ok? then Data(r.value) else Failed;
      case Write(offset, data) =>
        s.HandleWrite(offset, data);
        if Readable(s.bad, s.size, req) { WriteIsOverlay(old(s.blocks), s.blocks, s.bad, s.size, offset, data); }
        reply := Done;
      case Trim(offset, len) =>
        s.HandleTrim(offset, len);
        reply := Done;
    }
  }

  /** Any run of requests gets the replies of one flat byte array, and leaves its contents. */
  method Serve(s: BlockServer, reqs: seq<Request>) returns (replies: seq<Reply>)
    requires s.Valid() && forall req :: req in reqs ==> Readable(s.bad, s.size, req)
    modifies s
    ensures s.Valid() && (replies, Flat(s.blocks)) == FlatRun(Flat(old(s.blocks)), s.size, reqs)
  {
    hide Flat, FlatReply, FlatAfter, Readable;
    replies := [];
    for i := 0 to |reqs|
      invariant s.Valid() && |s.blocks| == |old(s.blocks)|
      invariant (replies, Flat(s.blocks)) == FlatRun(Flat(old(s.blocks)), s.size, reqs[..i])
    {
      assert reqs[..i + 1][..i] == reqs[..i];
      var reply := Handle(s, reqs[i]);
      replies := replies + [reply];
    }
    assert reqs[..|reqs|] == reqs;
  }

  /** On a device that holds only non-zero bytes, a trim zeroes exactly its range if and only
      if the range starts and ends on block boundaries. */
  lemma TrimExactIff(flat: seq<Byte>, offset: nat, len: nat)
    requires Start(BlocksUpTo(offset + len)) <= |flat| && forall i :: 0 <= i < |flat| ==> flat[i] != 0
    ensures Zeroed(flat, Floor(offset), Start(BlocksUpTo(offset + len))) == Zeroed(flat, offset, offset + len) <==>
            PosOf(offset) == 0 && PosOf(offset + len) == 0
  {
    var lo, hi := Floor(offset), Start(BlocksUpTo(offset + len));
    var z, w := Zeroed(flat, lo, hi), Zeroed(flat, offset, offset + len);
    if PosOf(offset) == 0 && PosOf(offset + len) == 0 {
      assert lo == offset && hi == offset + len;
    } else if lo < offset {
      assert z[lo] == 0 && w[lo] != 0;
    } else {
      assert z[hi - 1] == 0 && w[hi - 1] != 0;
    }
  }

  /** A write that has to read an unreadable block first loses that block's other bytes. */
  lemma FailedReadSpoils(blocks: seq<Block>, bad: set<nat>, offset: nat, end: nat, data: seq<Byte>, i: nat)
    requires i < Start(|blocks|) && end <= offset + |data| && !(offset <= i < end)
    requires BlockOf(i) in bad && offset < end && Touched(BlockOf(i), offset, end)
    ensures WrittenByte(Flat(blocks), bad, offset, end, data, i) == 0
  {}

  /** On a device that holds only non-zero bytes, a write replaces exactly its range if and
      only if every block it covers in part can be read. */
  lemma WriteExactIff(blocks: seq<Block>, after: seq<Block>, bad: set<nat>, size: nat, offset: nat, data: seq<Byte>)
    requires |after| == |blocks| && size <= Start(|blocks|)
    requires forall i :: 0 <= i < |Flat(blocks)| ==> Flat(blocks)[i] != 0
    requires var end := Min(offset + |data|, size);
             forall i :: 0 <= i < |Flat(after)| ==>
                 Flat(after)[i] == WrittenByte(Flat(blocks), bad, offset, end, data, i)
    ensures Flat(after) == FlatAfter(Flat(blocks), size, Write(offset, data)) <==>
              Readable(bad, size, Write(offset, data))
  {
    hide Flat, WrittenByte, Overlay;
    if Readable(bad, size, Write(offset, data)) {
      WriteIsOverlay(blocks, after, bad, size, offset, data);
    } else {
      var end := Min(offset + |data|, size);
      var b :| b in bad && Partial(b, offset, end);
      var i := Spoilt(b, offset, end);
      FailedReadSpoils(blocks, bad, offset, end, data, i);
      KeptOutside(Flat(blocks), size, offset, data, i);
      assert Flat(after)[i] == 0 && Flat(blocks)[i] != 0;
    }
  }

  /** A byte of a block that a range covers in part, outside the range. */
  lemma Spoilt(b: nat, offset: nat, end: nat) returns (i: nat)
    requires Partial(b, offset, end)
    ensures BlockOf(i) == b && !(offset <= i < end) && Touched(b, offset, end) && i < Start(b + 1)
  {
    i := if Start(b) < offset then Start(b) else Start(b + 1) - 1;
  }

  lemma KeptOutside(flat: seq<Byte>, size: nat, offset: nat, data: seq<Byte>, i: nat)
    requires size <= |flat| && i < |flat| && !(offset <= i < Min(offset + |data|, size))
    ensures FlatAfter(flat, size, Write(offset, data))[i] == flat[i]
  {}
}
