/**
 * What the counting flash reports for the storage's call sequences: bytes
 * read, bytes written and erases issued by write, read and scan, and the
 * totals for a savegame written on blank flash and then scanned or read
 * back.
 */
module Counts {
  import opened Bytes
  import opened Chksums
  import opened Slots
  import opened Flash
  import opened Layout
  import opened Mock
  import opened ScanFacts
  import opened WriteFacts
  import opened Chain

  /** Counting two call sequences one after the other is counting their concatenation. */
  lemma {:induction false} CountAllConcat(s: MeasuredStats, a: seq<Op>, b: seq<Op>)
    ensures CountAll(s, a + b) == CountAll(CountAll(s, a), b)
    decreases |b|
  {
    if |b| == 0 {
      assert a + b == a;
    } else {
      assert (a + b)[..|a + b| - 1] == a + b[..|b| - 1];
      CountAllConcat(s, a, b[..|b| - 1]);
    }
  }

  /** Counting one call. */
  lemma CountOne(s: MeasuredStats, op: Op)
    ensures CountAll(s, [op]) == Count(s, op)
  {
    assert [op][..0] == [];
  }

  /** Counting a first call and then the rest. */
  lemma CountCons(s: MeasuredStats, op: Op, ops: seq<Op>)
    ensures CountAll(s, [op] + ops) == CountAll(Count(s, op), ops)
  {
    CountAllConcat(s, [op], ops);
    CountOne(s, op);
  }

  /** The chunk loop writes every payload byte once and erases one slot per continuation slot. */
  lemma {:induction false} ChunkCounts(g: Geometry, s: MeasuredStats, j: nat, off: nat, data: seq<byte>)
    requires g.Valid() && 0 < off < g.slotSize
    requires s.write + |data| <= USIZE_MAX && s.erase + Chunks(g, off, data) - 1 <= USIZE_MAX
    ensures CountAll(s, ChunkOps(g, j, off, data))
      == MeasuredStats(s.read, s.write + |data|, s.erase + Chunks(g, off, data) - 1)
    decreases |data|
  {
    var n := Min(g.slotSize - off, |data|);
    var w := Op.Write(Addr(g, j) + off, data[..n]);
    if n == |data| {
      assert ChunkOps(g, j, off, data) == [w];
      CountOne(s, w);
    } else {
      var e := Op.Erase(Addr(g, NextIdx(g, j)));
      var rest := ChunkOps(g, NextIdx(g, j), 1, data[n..]);
      assert ChunkOps(g, j, off, data) == [w] + ([e] + rest);
      CountCons(s, w, [e] + rest);
      CountCons(Count(s, w), e, rest);
      assert Chunks(g, 1, data[n..]) == Chunks(g, off, data) - 1;
      ChunkCounts(g, MeasuredStats(s.read, s.write + n, s.erase + 1), NextIdx(g, j), 1, data[n..]);
    }
  }

  /** write counts every payload byte and the 12 header bytes, and one erase per slot it fills. */
  lemma WriteCounts(g: Geometry, s: MeasuredStats, i: nat, prev: Chksum, data: seq<byte>)
    requires g.Valid()
    requires s.write + |data| + HEADER_SIZE <= USIZE_MAX && s.erase + Chunks(g, HEADER_SIZE, data) <= USIZE_MAX
    ensures CountAll(s, WriteOps(g, i, prev, data))
      == MeasuredStats(s.read, s.write + |data| + HEADER_SIZE, s.erase + Chunks(g, HEADER_SIZE, data))
  {
    var hdr := Slot.Create(i, prev, data).Encode();
    CountFramed(s, Addr(g, i), ChunkOps(g, i, HEADER_SIZE, data), hdr);
    ChunkCounts(g, s.(erase := s.erase + 1), i, HEADER_SIZE, data);
  }

  /** Counting an erase, some calls, then a write. */
  lemma CountFramed(s: MeasuredStats, a: nat, ops: seq<Op>, b: seq<byte>)
    ensures CountAll(s, [Op.Erase(a)] + ops + [Op.Write(a, b)])
      == Count(CountAll(s.(erase := SatAdd(s.erase, 1)), ops), Op.Write(a, b))
  {
    CountAllConcat(s, [Op.Erase(a)] + ops, [Op.Write(a, b)]);
    CountCons(s, Op.Erase(a), ops);
    CountOne(CountAll(s, [Op.Erase(a)] + ops), Op.Write(a, b));
  }

  /** Gathering a payload reads each of its bytes once. */
  lemma {:induction false} GatherCounts(g: Geometry, s: MeasuredStats, j: nat, off: nat, len: nat)
    requires g.Valid() && 0 < off < g.slotSize && s.read + len <= USIZE_MAX
    ensures CountAll(s, GatherOps(g, j, off, len)) == s.(read := s.read + len)
    decreases len
  {
    if len > 0 {
      var n := Min(g.slotSize - off, len);
      var r := Op.Read(Addr(g, j) + off, n);
      CountCons(s, r, GatherOps(g, NextIdx(g, j), 1, len - n));
      GatherCounts(g, s.(read := s.read + n), NextIdx(g, j), 1, len - n);
    }
  }

  /** read counts the 12 header bytes, plus the payload when the buffer is long enough. */
  lemma ReadCounts(g: Geometry, s: MeasuredStats, mem: seq<byte>, i: nat, bufLen: nat)
    requires g.Valid() && |mem| == g.Space() && s.read + HEADER_SIZE + U32_LIMIT <= USIZE_MAX
    ensures var h := Slot.FromBytes(i, HeaderBytes(g, mem, i));
      CountAll(s, ReadOps(g, mem, i, bufLen))
        == s.(read := s.read + HEADER_SIZE + if bufLen < h.len then 0 else h.len)
  {
    var h := Slot.FromBytes(i, HeaderBytes(g, mem, i));
    var r := Op.Read(Addr(g, i), HEADER_SIZE);
    var rest := if bufLen < h.len then [] else GatherOps(g, i, HEADER_SIZE, h.len);
    CountCons(s, r, rest);
    if bufLen >= h.len {
      GatherCounts(g, s.(read := s.read + HEADER_SIZE), i, HEADER_SIZE, h.len);
    }
  }

  /** How many of slots 0 .. k-1 start with a byte whose top bit is clear. */
  function OpenHeads(g: Geometry, mem: seq<byte>, k: nat): (r: nat)
    requires g.Valid() && |mem| == g.Space() && k <= g.slotCount
    ensures r <= k
  {
    if k == 0 then 0
    else OpenHeads(g, mem, k - 1) + if TopBitSet(mem[Addr(g, k - 1)]) then 0 else 1
  }

  /** scan reads one byte per slot, and 11 more for every slot whose first byte lets the probe go on. */
  lemma {:induction false} ScanCounts(g: Geometry, s: MeasuredStats, mem: seq<byte>, k: nat)
    requires g.Valid() && |mem| == g.Space() && k <= g.slotCount && s.read + HEADER_SIZE * k <= USIZE_MAX
    ensures CountAll(s, ScanOpsUpTo(g, mem, k)) == s.(read := s.read + k + (HEADER_SIZE - 1) * OpenHeads(g, mem, k))
  {
    if k > 0 {
      var a := Addr(g, k - 1);
      ScanCounts(g, s, mem, k - 1);
      CountAllConcat(s, ScanOpsUpTo(g, mem, k - 1), ScanSlotOps(g, mem, k - 1));
      ScanSlotCounts(g, CountAll(s, ScanOpsUpTo(g, mem, k - 1)), mem, k - 1);
    }
  }

  /** One probe reads one byte, or the whole header when the first byte lets it go on. */
  lemma ScanSlotCounts(g: Geometry, s: MeasuredStats, mem: seq<byte>, j: nat)
    requires g.Valid() && |mem| == g.Space() && s.read + HEADER_SIZE <= USIZE_MAX
    ensures CountAll(s, ScanSlotOps(g, mem, j))
      == s.(read := s.read + if TopBitSet(mem[Addr(g, j)]) then 1 else HEADER_SIZE)
  {
    var a := Addr(g, j);
    var tail := if TopBitSet(mem[a]) then [] else [Op.Read(a + 1, HEADER_SIZE - 1)];
    CountCons(s, Op.Read(a, 1), tail);
    if !TopBitSet(mem[a]) {
      CountOne(Count(s, Op.Read(a, 1)), Op.Read(a + 1, HEADER_SIZE - 1));
    }
  }

  /** Exactly one slot, `i`, starts with a byte whose top bit is clear. */
  lemma {:induction false} OneOpenHead(g: Geometry, mem: seq<byte>, i: nat, k: nat)
    requires g.Valid() && |mem| == g.Space() && k <= g.slotCount && i < g.slotCount
    requires !TopBitSet(mem[Addr(g, i)])
    requires forall j :: 0 <= j < g.slotCount && j != i ==> TopBitSet(mem[Addr(g, j)])
    ensures OpenHeads(g, mem, k) == if i < k then 1 else 0
  {
    if k > 0 {
      OneOpenHead(g, mem, i, k - 1);
    }
  }

  /** After a write on blank flash only the written slot has an open first byte. */
  lemma BlankWriteOpenHeads(g: Geometry, md: Medium, m: seq<byte>, i: nat, prev: Chksum, data: seq<byte>)
    requires g.Valid() && Fits(g, md) && |m| == g.Space() && Blank(m) && i < g.slotCount
    requires Chunks(g, HEADER_SIZE, data) <= g.slotCount
    ensures OpenHeads(g, ApplyAll(md, m, WriteOps(g, i, prev, data)), g.slotCount) == 1
  {
    var m3 := ApplyAll(md, m, WriteOps(g, i, prev, data));
    forall j | 0 <= j < g.slotCount && j != i
      ensures TopBitSet(m3[Addr(g, j)])
    {
      if Dist(g, i, j) < Chunks(g, HEADER_SIZE, data) {
        ContinuationHeadErased(g, md, m, i, prev, data, j);
      } else {
        OtherSlotProbe(g, md, m, i, prev, data, j);
      }
    }
    assert !TopBitSet(m3[Addr(g, i)]) by {
      WriteHeader(g, md, m, i, prev, data);
      assert m3[Addr(g, i)] == HeaderBytes(g, m3, i)[0];
    }
    OneOpenHead(g, m3, i, g.slotCount);
  }

  /**
   * A savegame written on blank flash and then scanned: the counting flash
   * reports 11 header bytes beyond one byte per slot read, the payload and
   * header written, and one erase per slot the savegame fills.
   */
  lemma BlankWriteScanCounts(g: Geometry, md: Medium, m: seq<byte>, i: nat, prev: Chksum, data: seq<byte>)
    requires g.Valid() && Fits(g, md) && |m| == g.Space() && Blank(m) && i < g.slotCount
    requires Chunks(g, HEADER_SIZE, data) <= g.slotCount && |data| < U32_LIMIT
    ensures var m3 := ApplyAll(md, m, WriteOps(g, i, prev, data));
      CountAll(MeasuredStats(0, 0, 0), WriteOps(g, i, prev, data) + ScanOps(g, m3))
        == MeasuredStats(g.slotCount + HEADER_SIZE - 1, |data| + HEADER_SIZE, Chunks(g, HEADER_SIZE, data))
  {
    var m3 := ApplyAll(md, m, WriteOps(g, i, prev, data));
    var s := MeasuredStats(0, |data| + HEADER_SIZE, Chunks(g, HEADER_SIZE, data));
    assert g.slotCount < U32_LIMIT by {
      MulLe(1, g.slotSize, g.slotCount);
    }
    WriteCounts(g, MeasuredStats(0, 0, 0), i, prev, data);
    CountAllConcat(MeasuredStats(0, 0, 0), WriteOps(g, i, prev, data), ScanOps(g, m3));
    ScanCounts(g, s, m3, g.slotCount);
    BlankWriteOpenHeads(g, md, m, i, prev, data);
  }

  /** A savegame written and then read back into a long enough buffer: header and payload are read once each. */
  lemma WriteReadCounts(g: Geometry, md: Medium, m: seq<byte>, i: nat, prev: Chksum, data: seq<byte>, bufLen: nat)
    requires g.Valid() && Fits(g, md) && |m| == g.Space() && i < g.slotCount
    requires Chunks(g, HEADER_SIZE, data) <= g.slotCount && |data| < U32_LIMIT && |data| <= bufLen
    ensures var m3 := ApplyAll(md, m, WriteOps(g, i, prev, data));
      CountAll(MeasuredStats(0, 0, 0), WriteOps(g, i, prev, data) + ReadOps(g, m3, i, bufLen))
        == MeasuredStats(|data| + HEADER_SIZE, |data| + HEADER_SIZE, Chunks(g, HEADER_SIZE, data))
  {
    var m3 := ApplyAll(md, m, WriteOps(g, i, prev, data));
    var s := MeasuredStats(0, |data| + HEADER_SIZE, Chunks(g, HEADER_SIZE, data));
    WriteCounts(g, MeasuredStats(0, 0, 0), i, prev, data);
    CountAllConcat(MeasuredStats(0, 0, 0), WriteOps(g, i, prev, data), ReadOps(g, m3, i, bufLen));
    WriteHeader(g, md, m, i, prev, data);
    ReadCounts(g, s, m3, i, bufLen);
  }
}
