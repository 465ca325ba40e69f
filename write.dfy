/**
 * What `write` leaves behind. The calls it issues (`WriteOps`) erase the
 * target slot first, write the payload in chunks that never touch the first
 * byte of any slot, and write the header last. From that follow the read
 * round trip, power-fail safety (before the header lands the target slot
 * reads as free and no other header changes but by being erased), the
 * frame (slots outside the savegame's footprint keep every byte), and what
 * a scan finds afterwards.
 */
module WriteFacts {
  import opened Bytes
  import opened Chksums
  import opened Slots
  import opened Flash
  import opened Layout
  import opened Mock
  import opened ScanFacts

  // ------------------------------------------------------------ distances

  /** Stepping to the next slot brings every other slot one closer. */
  lemma DistNext(g: Geometry, j: nat, s: nat)
    requires g.Valid() && j < g.slotCount && s < g.slotCount && s != j
    ensures Dist(g, NextIdx(g, j), s) + 1 == Dist(g, j, s)
  {
  }

  /** Seen from the next slot, slot `j` is the farthest one. */
  lemma DistBack(g: Geometry, j: nat)
    requires g.Valid() && j < g.slotCount
    ensures Dist(g, NextIdx(g, j), j) == g.slotCount - 1
  {
  }

  /** Byte `k` of an address into slot `j` at offset `o`, for any index `j`. */
  lemma OffsetInSlot(g: Geometry, j: nat, o: nat)
    requires g.Valid() && o < g.slotSize
    ensures (Addr(g, j) + o) / g.slotSize == j % g.slotCount && (Addr(g, j) + o) % g.slotSize == o
    ensures Addr(g, j) + o < g.Space()
  {
    DivMod(j % g.slotCount, g.slotSize, o);
  }

  /**
   * The bytes a payload of `c` slots written from offset `off` of slot `j`
   * may reach: slot `j` from `off` on, and the whole of the next c - 1 slots.
   */
  predicate Touched(g: Geometry, j: nat, off: nat, c: nat, k: nat)
    requires g.Valid() && j < g.slotCount
  {
    var s := k / g.slotSize;
    (s == j && k % g.slotSize >= off) || (s != j && Dist(g, j, s) < c)
  }

  /** The number of slots the payload `data` fills from offset `off` on. */
  function Chunks(g: Geometry, off: nat, data: seq<byte>): (c: nat)
    requires g.Valid() && 0 < off < g.slotSize
    ensures 1 <= c
    ensures c == 1 <==> |data| <= g.slotSize - off
  {
    ChunkCount(g, g.slotSize - off, |data|)
  }

  // ----------------------------------------------------------- chunk ops

  /** An access that stays inside one slot; a write never reaches the slot's first byte, an erase is at its start. */
  predicate SlotLocal(g: Geometry, op: Op)
    requires g.Valid()
  {
    match op
    case Read(a, len) => a < g.Space() && a % g.slotSize + len <= g.slotSize
    case Write(a, b) => a < g.Space() && 0 < a % g.slotSize && a % g.slotSize + |b| <= g.slotSize
    case Erase(a) => a < g.Space() && a % g.slotSize == 0
  }

  /** A slot-local write never covers the first byte of a slot. */
  lemma LocalWriteMissesHeads(g: Geometry, a: nat, b: seq<byte>, k: nat)
    requires g.Valid() && SlotLocal(g, Op.Write(a, b)) && k % g.slotSize == 0
    ensures !Covers(a, |b|, k)
  {
    if Covers(a, |b|, k) {
      ModAdd(a, k - a, g.slotSize);
      assert false;
    }
  }

  /** Every call of the chunk loop is slot-local. */
  lemma {:induction false} ChunkOpsLocal(g: Geometry, j: nat, off: nat, data: seq<byte>)
    requires g.Valid() && 0 < off < g.slotSize
    ensures forall op :: op in ChunkOps(g, j, off, data) ==> SlotLocal(g, op)
    decreases |data|
  {
    var n := Min(g.slotSize - off, |data|);
    OffsetInSlot(g, j, off);
    if n < |data| {
      var nx := NextIdx(g, j);
      OffsetInSlot(g, nx, 0);
      ChunkOpsLocal(g, nx, 1, data[n..]);
    }
  }

  /** Hence no write of the chunk loop reaches the first byte of any slot. */
  lemma ChunkWritesMissHeads(g: Geometry, j: nat, off: nat, data: seq<byte>, k: nat)
    requires g.Valid() && 0 < off < g.slotSize && k % g.slotSize == 0
    ensures NoWriteCovers(ChunkOps(g, j, off, data), k)
  {
    var ops := ChunkOps(g, j, off, data);
    ChunkOpsLocal(g, j, off, data);
    forall op | op in ops && op.Write?
      ensures !Covers(op.addr, |op.bytes|, k)
    {
      LocalWriteMissesHeads(g, op.addr, op.bytes, k);
    }
  }

  /** The chunk loop reaches no byte outside the savegame's footprint. */
  lemma {:induction false} ChunkAvoids(g: Geometry, md: Medium, j: nat, off: nat, data: seq<byte>, k: nat)
    requires g.Valid() && Fits(g, md) && j < g.slotCount && 0 < off < g.slotSize && k < g.Space()
    requires Chunks(g, off, data) <= g.slotCount
    requires !Touched(g, j, off, Chunks(g, off, data), k)
    ensures Avoids(md, ChunkOps(g, j, off, data), k)
    decreases |data|
  {
    var n := Min(g.slotSize - off, |data|);
    var a := Addr(g, j) + off;
    var w := Op.Write(a, data[..n]);
    assert OpAvoids(md, w, k) by {
      if Covers(a, n, k) {
        CoveredInSlot(g, j, off, n, k);
        assert false;
      }
    }
    if n < |data| {
      var nx := NextIdx(g, j);
      var e := Op.Erase(Addr(g, nx));
      var rest := ChunkOps(g, nx, 1, data[n..]);
      var c := Chunks(g, off, data);
      assert Chunks(g, 1, data[n..]) == c - 1;
      assert OpAvoids(md, e, k) by {
        assert k / g.slotSize != nx;
        ErasesOnlySlot(g, md, nx, k);
      }
      assert Avoids(md, rest, k) by {
        if Touched(g, nx, 1, c - 1, k) {
          TouchedNext(g, j, off, c, k);
        }
        ChunkAvoids(g, md, nx, 1, data[n..], k);
      }
      assert ChunkOps(g, j, off, data) == [w] + ([e] + rest);
    }
  }

  /** A byte in slot `s` of the storage area lies in slot `s` at its offset. */
  lemma InSlotBytes(g: Geometry, s: nat, k: nat)
    requires g.Valid() && s < g.slotCount && Addr(g, s) <= k < Addr(g, s) + g.slotSize
    ensures k / g.slotSize == s && k < g.Space()
  {
    CoveredInSlot(g, s, 0, g.slotSize, k);
    SlotOfByte(g, k);
  }

  /** Erasing the start of slot `s` erases at least its first byte, and on NOR flash all of it. */
  lemma EraseClearsSlot(g: Geometry, md: Medium, m: seq<byte>, s: nat, k: nat)
    requires g.Valid() && Fits(g, md) && |m| == g.Space() && s < g.slotCount
    requires Addr(g, s) <= k < Addr(g, s) + g.slotSize
    requires md.Sectored? || k == Addr(g, s)
    ensures k < |m| && Apply(md, m, Op.Erase(Addr(g, s)))[k] == ERASED
  {
    InSlotBytes(g, s, k);
    AddrOf(g, s);
    DivMod(s, g.slotSize, 0);
    assert Apply(md, m, Op.Erase(Addr(g, s)))[k] == ByteAfter(md, m, Op.Erase(Addr(g, s)), k);
  }

  /** Erasing the start of slot `s` reaches no byte of another slot. */
  lemma ErasesOnlySlot(g: Geometry, md: Medium, s: nat, k: nat)
    requires g.Valid() && Fits(g, md) && s < g.slotCount && k / g.slotSize != s
    ensures !Erases(md, Addr(g, s), k)
  {
    assert Addr(g, s) / g.slotSize == s by {
      AddrOf(g, s);
      DivMod(s, g.slotSize, 0);
    }
  }

  /** ... so it leaves such a byte as it was. */
  lemma EraseKeepsOtherSlots(g: Geometry, md: Medium, m: seq<byte>, s: nat, k: nat)
    requires g.Valid() && Fits(g, md) && s < g.slotCount && k < |m| && k / g.slotSize != s
    ensures Apply(md, m, Op.Erase(Addr(g, s)))[k] == m[k]
  {
    ErasesOnlySlot(g, md, s, k);
    assert Apply(md, m, Op.Erase(Addr(g, s)))[k] == ByteAfter(md, m, Op.Erase(Addr(g, s)), k);
  }

  /** The erase and the chunks after the first leave the first chunk's bytes alone. */
  lemma LaterChunksKeep(g: Geometry, md: Medium, m: seq<byte>, j: nat, off: nat, data: seq<byte>, k: nat)
    requires g.Valid() && Fits(g, md) && |m| == g.Space() && j < g.slotCount && 0 < off < g.slotSize
    requires Chunks(g, off, data) <= g.slotCount && g.slotSize - off < |data|
    requires Addr(g, j) + off <= k < Addr(g, j) + g.slotSize
    ensures var m1 := Apply(md, m, Op.Write(Addr(g, j) + off, data[..g.slotSize - off]));
      k < |m| && ApplyAll(md, m, ChunkOps(g, j, off, data))[k] == m1[k]
  {
    var n := g.slotSize - off;
    var nx := NextIdx(g, j);
    var m1 := Apply(md, m, Op.Write(Addr(g, j) + off, data[..n]));
    var e := Op.Erase(Addr(g, nx));
    var m2 := Apply(md, m1, e);
    var rest := ChunkOps(g, nx, 1, data[n..]);
    assert ApplyAll(md, m, ChunkOps(g, j, off, data)) == ApplyAll(md, m2, rest) by {
      ChunkOpsUnfold(g, md, m, j, off, data);
    }
    assert k / g.slotSize == j by {
      CoveredInSlot(g, j, off, n, k);
    }
    assert m2[k] == m1[k] by {
      EraseKeepsOtherSlots(g, md, m1, nx, k);
    }
    assert ApplyAll(md, m2, rest)[k] == m2[k] by {
      DistBack(g, j);
      ChunkAvoids(g, md, nx, 1, data[n..], k);
      ApplyAllAvoids(md, m2, rest, k);
    }
  }

  /**
   * The chunk loop stores the payload where Gather finds it, provided the
   * payload does not wrap onto itself and, on NOR flash, the first slot
   * was erased from `off` on.
   */
  lemma {:induction false} ChunkRoundTrip(g: Geometry, md: Medium, m: seq<byte>, j: nat, off: nat, data: seq<byte>)
    requires g.Valid() && Fits(g, md) && |m| == g.Space() && j < g.slotCount && 0 < off < g.slotSize
    requires Chunks(g, off, data) <= g.slotCount
    requires md.Sectored? ==> forall k :: Addr(g, j) + off <= k < Addr(g, j) + g.slotSize ==> m[k] == ERASED
    ensures Gather(g, ApplyAll(md, m, ChunkOps(g, j, off, data)), j, off, |data|) == data
    decreases |data|
  {
    var n := Min(g.slotSize - off, |data|);
    if n == |data| {
      ChunkRoundTripLast(g, md, m, j, off, data);
    } else {
      var m1 := Apply(md, m, Op.Write(Addr(g, j) + off, data[..n]));
      var nx := NextIdx(g, j);
      NextSlotErased(g, md, m1, nx);
      assert Chunks(g, 1, data[n..]) <= g.slotCount;
      ChunkRoundTrip(g, md, Apply(md, m1, Op.Erase(Addr(g, nx))), nx, 1, data[n..]);
      ChunkRoundTripStep(g, md, m, j, off, data);
    }
  }

  /** Erasing the start of slot `s` on NOR flash leaves everything after its first byte erased. */
  lemma NextSlotErased(g: Geometry, md: Medium, m: seq<byte>, s: nat)
    requires g.Valid() && Fits(g, md) && |m| == g.Space() && s < g.slotCount
    ensures var m' := Apply(md, m, Op.Erase(Addr(g, s)));
      md.Sectored? ==> forall k :: Addr(g, s) + 1 <= k < Addr(g, s) + g.slotSize ==> m'[k] == ERASED
  {
    forall k | md.Sectored? && Addr(g, s) + 1 <= k < Addr(g, s) + g.slotSize
      ensures Apply(md, m, Op.Erase(Addr(g, s)))[k] == ERASED
    {
      EraseClearsSlot(g, md, m, s, k);
    }
  }

  /** The step of ChunkRoundTrip: the first chunk stays put, and the rest is where the next slot's gather reads it. */
  lemma ChunkRoundTripStep(g: Geometry, md: Medium, m: seq<byte>, j: nat, off: nat, data: seq<byte>)
    requires g.Valid() && Fits(g, md) && |m| == g.Space() && j < g.slotCount && 0 < off < g.slotSize
    requires Chunks(g, off, data) <= g.slotCount && g.slotSize - off < |data|
    requires md.Sectored? ==> forall k :: Addr(g, j) + off <= k < Addr(g, j) + g.slotSize ==> m[k] == ERASED
    requires var n := g.slotSize - off;
      var m1 := Apply(md, m, Op.Write(Addr(g, j) + off, data[..n]));
      var m2 := Apply(md, m1, Op.Erase(Addr(g, NextIdx(g, j))));
      Gather(g, ApplyAll(md, m2, ChunkOps(g, NextIdx(g, j), 1, data[n..])), NextIdx(g, j), 1, |data| - n) == data[n..]
    ensures Gather(g, ApplyAll(md, m, ChunkOps(g, j, off, data)), j, off, |data|) == data
  {
    ChunkOpsUnfold(g, md, m, j, off, data);
    FirstChunkKept(g, md, m, j, off, data);
    GatherSplit(g, ApplyAll(md, m, ChunkOps(g, j, off, data)), j, off, data);
  }

  /** The last chunk: one write puts the rest of the payload where Gather reads it. */
  lemma ChunkRoundTripLast(g: Geometry, md: Medium, m: seq<byte>, j: nat, off: nat, data: seq<byte>)
    requires g.Valid() && |m| == g.Space() && 0 < off < g.slotSize && |data| <= g.slotSize - off
    requires md.Sectored? ==> forall k :: Addr(g, j) + off <= k < Addr(g, j) + g.slotSize ==> m[k] == ERASED
    ensures Gather(g, ApplyAll(md, m, ChunkOps(g, j, off, data)), j, off, |data|) == data
  {
    var a := Addr(g, j) + off;
    var m1 := Apply(md, m, Op.Write(a, data));
    assert ApplyAll(md, m, ChunkOps(g, j, off, data)) == m1 by {
      var w := Op.Write(a, data);
      assert data[..|data|] == data;
      assert ChunkOps(g, j, off, data) == [w];
      ApplyAllCons(md, m, w, []);
    }
    assert m1[a..a + |data|] == data by {
      OffsetInSlot(g, j, off);
      WriteReadBack(md, m, a, data);
    }
    GatherSingle(g, m1, j, off, |data|);
  }

  /** The memory after a chunk that is not the last: its write, the next slot's erase, then the rest. */
  lemma ChunkOpsUnfold(g: Geometry, md: Medium, m: seq<byte>, j: nat, off: nat, data: seq<byte>)
    requires g.Valid() && 0 < off < g.slotSize && g.slotSize - off < |data|
    ensures var n := g.slotSize - off;
      var m1 := Apply(md, m, Op.Write(Addr(g, j) + off, data[..n]));
      var m2 := Apply(md, m1, Op.Erase(Addr(g, NextIdx(g, j))));
      ApplyAll(md, m, ChunkOps(g, j, off, data)) == ApplyAll(md, m2, ChunkOps(g, NextIdx(g, j), 1, data[n..]))
  {
    var n := g.slotSize - off;
    var w := Op.Write(Addr(g, j) + off, data[..n]);
    var e := Op.Erase(Addr(g, NextIdx(g, j)));
    var rest := ChunkOps(g, NextIdx(g, j), 1, data[n..]);
    assert ChunkOps(g, j, off, data) == [w] + ([e] + rest);
    ApplyAllCons(md, m, w, [e] + rest);
    ApplyAllCons(md, Apply(md, m, w), e, rest);
  }

  /** The first chunk of a longer payload is still in place after the rest is written. */
  lemma FirstChunkKept(g: Geometry, md: Medium, m: seq<byte>, j: nat, off: nat, data: seq<byte>)
    requires g.Valid() && Fits(g, md) && |m| == g.Space() && j < g.slotCount && 0 < off < g.slotSize
    requires Chunks(g, off, data) <= g.slotCount && g.slotSize - off < |data|
    requires md.Sectored? ==> forall k :: Addr(g, j) + off <= k < Addr(g, j) + g.slotSize ==> m[k] == ERASED
    ensures Addr(g, j) + g.slotSize <= |m|
    ensures ApplyAll(md, m, ChunkOps(g, j, off, data))[Addr(g, j) + off..Addr(g, j) + g.slotSize]
      == data[..g.slotSize - off]
  {
    var n := g.slotSize - off;
    var a := Addr(g, j) + off;
    var m1 := Apply(md, m, Op.Write(a, data[..n]));
    var m3 := ApplyAll(md, m, ChunkOps(g, j, off, data));
    assert m1[a..a + n] == data[..n] by {
      WriteReadBack(md, m, a, data[..n]);
    }
    LaterChunksKeepAll(g, md, m, j, off, data);
  }

  /** LaterChunksKeep for every byte of the first chunk. */
  lemma LaterChunksKeepAll(g: Geometry, md: Medium, m: seq<byte>, j: nat, off: nat, data: seq<byte>)
    requires g.Valid() && Fits(g, md) && |m| == g.Space() && j < g.slotCount && 0 < off < g.slotSize
    requires Chunks(g, off, data) <= g.slotCount && g.slotSize - off < |data|
    ensures var a := Addr(g, j) + off;
      var m1 := Apply(md, m, Op.Write(a, data[..g.slotSize - off]));
      ApplyAll(md, m, ChunkOps(g, j, off, data))[a..Addr(g, j) + g.slotSize] == m1[a..Addr(g, j) + g.slotSize]
  {
    var a := Addr(g, j) + off;
    var m1 := Apply(md, m, Op.Write(a, data[..g.slotSize - off]));
    var m3 := ApplyAll(md, m, ChunkOps(g, j, off, data));
    forall k | a <= k < Addr(g, j) + g.slotSize
      ensures m3[k] == m1[k]
    {
      LaterChunksKeep(g, md, m, j, off, data, k);
    }
    SameSlice(m3, m1, a, Addr(g, j) + g.slotSize);
  }

  /** Sequences that agree at every index of a range have the same slice there. */
  lemma SameSlice(x: seq<byte>, y: seq<byte>, lo: nat, hi: nat)
    requires lo <= hi <= |x| && |x| == |y|
    requires forall k :: lo <= k < hi ==> x[k] == y[k]
    ensures x[lo..hi] == y[lo..hi]
  {
  }

  /** A payload longer than the first slot's room is its first chunk followed by the rest, gathered from the next slot. */
  lemma GatherSplit(g: Geometry, m: seq<byte>, j: nat, off: nat, data: seq<byte>)
    requires g.Valid() && |m| == g.Space() && 0 < off < g.slotSize && g.slotSize - off < |data|
    requires Addr(g, j) + g.slotSize <= |m|
    requires m[Addr(g, j) + off..Addr(g, j) + g.slotSize] == data[..g.slotSize - off]
    requires Gather(g, m, NextIdx(g, j), 1, |data| - (g.slotSize - off)) == data[g.slotSize - off..]
    ensures Gather(g, m, j, off, |data|) == data
  {
    var n := g.slotSize - off;
    GatherUnfoldLong(g, m, j, off, |data|);
    assert data[..n] + data[n..] == data;
  }

  /** A payload longer than the room left in slot `j` takes all of that room, then goes on in the next slot. */
  lemma GatherUnfoldLong(g: Geometry, m: seq<byte>, j: nat, off: nat, len: nat)
    requires g.Valid() && |m| == g.Space() && 0 < off < g.slotSize && g.slotSize - off < len
    ensures Addr(g, j) + g.slotSize <= |m|
    ensures Gather(g, m, j, off, len)
      == m[Addr(g, j) + off..Addr(g, j) + g.slotSize] + Gather(g, m, NextIdx(g, j), 1, len - (g.slotSize - off))
  {
    assert Min(g.slotSize - off, len) == g.slotSize - off;
  }

  /** Memories `m` and `m'` agree on the footprint of `c` slots from offset `off` of slot `j`. */
  predicate AgreeOn(g: Geometry, m: seq<byte>, m': seq<byte>, j: nat, off: nat, c: nat)
    requires g.Valid() && |m| == g.Space() && |m'| == g.Space() && j < g.slotCount
  {
    forall k: nat {:trigger Touched(g, j, off, c, k)} :: k < g.Space() && Touched(g, j, off, c, k) ==> m[k] == m'[k]
  }

  /** Gather reads nothing outside the footprint: memories that agree on it give the same payload. */
  lemma {:induction false} GatherSame(g: Geometry, m: seq<byte>, m': seq<byte>, j: nat, off: nat, len: nat)
    requires g.Valid() && |m| == g.Space() && |m'| == g.Space() && j < g.slotCount && 0 < off < g.slotSize
    requires ChunkCount(g, g.slotSize - off, len) <= g.slotCount
    requires AgreeOn(g, m, m', j, off, ChunkCount(g, g.slotSize - off, len))
    ensures Gather(g, m, j, off, len) == Gather(g, m', j, off, len)
    decreases len
  {
    if len > 0 {
      var n := Min(g.slotSize - off, len);
      if n < len {
        RestAgrees(g, m, m', j, off, len);
        GatherSame(g, m, m', NextIdx(g, j), 1, len - n);
      }
      GatherSameStep(g, m, m', j, off, len);
    }
  }

  /** The step of GatherSame: agreeing on the first chunk and on the rest is agreeing on the payload. */
  lemma GatherSameStep(g: Geometry, m: seq<byte>, m': seq<byte>, j: nat, off: nat, len: nat)
    requires g.Valid() && |m| == g.Space() && |m'| == g.Space() && j < g.slotCount && 0 < off < g.slotSize && 0 < len
    requires AgreeOn(g, m, m', j, off, ChunkCount(g, g.slotSize - off, len))
    requires var n := Min(g.slotSize - off, len);
      Gather(g, m, NextIdx(g, j), 1, len - n) == Gather(g, m', NextIdx(g, j), 1, len - n)
    ensures Gather(g, m, j, off, len) == Gather(g, m', j, off, len)
  {
    FirstChunkAgrees(g, m, m', j, off, ChunkCount(g, g.slotSize - off, len), Min(g.slotSize - off, len));
    GatherUnfold(g, m, j, off, len);
    GatherUnfold(g, m', j, off, len);
  }

  /** Memories that agree on the footprint agree on the footprint of the rest, from the next slot on. */
  lemma RestAgrees(g: Geometry, m: seq<byte>, m': seq<byte>, j: nat, off: nat, len: nat)
    requires g.Valid() && |m| == g.Space() && |m'| == g.Space() && j < g.slotCount && 0 < off < g.slotSize
    requires g.slotSize - off < len && ChunkCount(g, g.slotSize - off, len) <= g.slotCount
    requires AgreeOn(g, m, m', j, off, ChunkCount(g, g.slotSize - off, len))
    ensures var rest := len - Min(g.slotSize - off, len);
      ChunkCount(g, g.slotSize - 1, rest) <= g.slotCount
      && AgreeOn(g, m, m', NextIdx(g, j), 1, ChunkCount(g, g.slotSize - 1, rest))
  {
    var c := ChunkCount(g, g.slotSize - off, len);
    var rest := len - (g.slotSize - off);
    assert ChunkCount(g, g.slotSize - 1, rest) == c - 1;
    forall k: nat | k < g.Space() && Touched(g, NextIdx(g, j), 1, c - 1, k)
      ensures m[k] == m'[k]
    {
      TouchedNext(g, j, off, c, k);
    }
  }

  /** Gather takes what is left of slot `j` and gathers the rest from the next slot. */
  lemma GatherUnfold(g: Geometry, m: seq<byte>, j: nat, off: nat, len: nat)
    requires g.Valid() && |m| == g.Space() && 0 < off < g.slotSize && 0 < len
    ensures var n := Min(g.slotSize - off, len);
      var a := Addr(g, j) + off;
      a + n <= |m| && Gather(g, m, j, off, len) == m[a..a + n] + Gather(g, m, NextIdx(g, j), 1, len - n)
  {
  }

  /** Memories that agree on the footprint agree on its first chunk. */
  lemma FirstChunkAgrees(g: Geometry, m: seq<byte>, m': seq<byte>, j: nat, off: nat, c: nat, n: nat)
    requires g.Valid() && |m| == g.Space() && |m'| == g.Space() && j < g.slotCount && 0 < off && off + n <= g.slotSize
    requires AgreeOn(g, m, m', j, off, c)
    ensures Addr(g, j) + off + n <= |m|
    ensures m[Addr(g, j) + off..Addr(g, j) + off + n] == m'[Addr(g, j) + off..Addr(g, j) + off + n]
  {
    var a := Addr(g, j) + off;
    forall k | a <= k < a + n
      ensures m[k] == m'[k]
    {
      CoveredInSlot(g, j, off, n, k);
      assert Touched(g, j, off, c, k);
    }
  }

  /** The footprint of the rest, from the next slot on, lies inside the whole footprint. */
  lemma TouchedNext(g: Geometry, j: nat, off: nat, c: nat, k: nat)
    requires g.Valid() && j < g.slotCount && 0 < off < g.slotSize && 1 < c <= g.slotCount && k < g.Space()
    requires Touched(g, NextIdx(g, j), 1, c - 1, k)
    ensures Touched(g, j, off, c, k)
  {
    var s := k / g.slotSize;
    var nx := NextIdx(g, j);
    SlotOfByte(g, k);
    if s == j {
      DistBack(g, j);
    } else if s != nx {
      DistNext(g, j, s);
    }
  }

  // ---------------------------------------------------------------- write

  /** The memory after write: erase, chunks, header. */
  lemma WriteOpsApply(g: Geometry, md: Medium, m: seq<byte>, i: nat, prev: Chksum, data: seq<byte>)
    requires g.Valid()
    ensures ApplyAll(md, m, WriteOps(g, i, prev, data))
      == Apply(md, ApplyAll(md, Apply(md, m, Op.Erase(Addr(g, i))), ChunkOps(g, i, HEADER_SIZE, data)),
               Op.Write(Addr(g, i), Slot.Create(i, prev, data).Encode()))
  {
    var e := Op.Erase(Addr(g, i));
    var chunks := ChunkOps(g, i, HEADER_SIZE, data);
    var h := Op.Write(Addr(g, i), Slot.Create(i, prev, data).Encode());
    ApplyAllSnoc(md, m, [e] + chunks, h);
    ApplyAllCons(md, m, e, chunks);
  }

  /** Every call before the header write is the erase or one of the chunk loop's. */
  lemma WriteOpsPrefix(g: Geometry, i: nat, prev: Chksum, data: seq<byte>, p: nat)
    requires g.Valid() && 1 <= p < |WriteOps(g, i, prev, data)|
    ensures WriteOps(g, i, prev, data)[..p] == [Op.Erase(Addr(g, i))] + ChunkOps(g, i, HEADER_SIZE, data)[..p - 1]
  {
  }

  /**
   * The order of write's calls: the target slot's start is erased first,
   * the first chunk goes 12 bytes into the slot, every chunk write stays
   * inside one slot and never reaches a slot's first byte, every erase is
   * at a slot's start, and the 12 header bytes are written last.
   */
  lemma WriteLayout(g: Geometry, i: nat, prev: Chksum, data: seq<byte>)
    requires g.Valid()
    ensures var ops := WriteOps(g, i, prev, data);
      && |ops| >= 3
      && ops[0] == Op.Erase(Addr(g, i))
      && ops[1] == Op.Write(Addr(g, i) + HEADER_SIZE, data[..Min(g.slotSize - HEADER_SIZE, |data|)])
      && ops[|ops| - 1] == Op.Write(Addr(g, i), Slot.Create(i, prev, data).Encode())
      && forall p :: 0 < p < |ops| - 1 ==> SlotLocal(g, ops[p])
  {
    var ops := WriteOps(g, i, prev, data);
    var chunks := ChunkOps(g, i, HEADER_SIZE, data);
    ChunkOpsLocal(g, i, HEADER_SIZE, data);
    forall p | 0 < p < |ops| - 1
      ensures SlotLocal(g, ops[p])
    {
      assert ops[p] == chunks[p - 1];
      assert chunks[p - 1] in chunks;
    }
  }

  /**
   * Power-fail safety: if write stops after any of its calls but before the
   * header write, the target slot's first byte is erased, so scan_slot
   * reports the slot free.
   */
  lemma PowerFail(g: Geometry, md: Medium, m: seq<byte>, i: nat, prev: Chksum, data: seq<byte>, p: nat)
    requires g.Valid() && Fits(g, md) && |m| == g.Space()
    requires 1 <= p < |WriteOps(g, i, prev, data)|
    ensures ApplyAll(md, m, WriteOps(g, i, prev, data)[..p])[Addr(g, i)] == ERASED
    ensures SlotAt(g, ApplyAll(md, m, WriteOps(g, i, prev, data)[..p]), i) == None
  {
    var a := Addr(g, i);
    var e := Op.Erase(a);
    var chunks := ChunkOps(g, i, HEADER_SIZE, data);
    var m1 := Apply(md, m, e);
    WriteOpsPrefix(g, i, prev, data, p);
    ApplyAllCons(md, m, e, chunks[..p - 1]);
    assert m1[a] == ByteAfter(md, m, e, a);
    AddrSlot(g, i);
    ChunkWritesMissHeads(g, i, HEADER_SIZE, data, a);
    assert forall op :: op in chunks[..p - 1] ==> op in chunks;
    ErasedStaysErased(md, m1, chunks[..p - 1], a);
  }

  /** write reaches no byte of a slot outside the savegame's footprint. */
  lemma WriteAvoids(g: Geometry, md: Medium, i: nat, prev: Chksum, data: seq<byte>, k: nat)
    requires g.Valid() && Fits(g, md) && i < g.slotCount && k < g.Space()
    requires Chunks(g, HEADER_SIZE, data) <= g.slotCount
    requires k / g.slotSize != i && !Touched(g, i, HEADER_SIZE, Chunks(g, HEADER_SIZE, data), k)
    ensures Avoids(md, WriteOps(g, i, prev, data), k)
  {
    var a := Addr(g, i);
    assert OpAvoids(md, Op.Erase(a), k) by {
      AddrOf(g, i);
      DivMod(i, g.slotSize, 0);
    }
    assert !Covers(a, HEADER_SIZE, k) by {
      if Covers(a, HEADER_SIZE, k) {
        CoveredInSlot(g, i, 0, HEADER_SIZE, k);
      }
    }
    ChunkAvoids(g, md, i, HEADER_SIZE, data, k);
  }

  /**
   * Every slot outside the savegame's footprint keeps every byte, at every
   * point of the write: write never disturbs another savegame.
   */
  lemma WriteKeepsOtherSlots(g: Geometry, md: Medium, m: seq<byte>, i: nat, prev: Chksum, data: seq<byte>, p: nat, k: nat)
    requires g.Valid() && Fits(g, md) && |m| == g.Space() && i < g.slotCount && k < g.Space()
    requires k / g.slotSize != i && !Touched(g, i, HEADER_SIZE, Chunks(g, HEADER_SIZE, data), k)
    requires Chunks(g, HEADER_SIZE, data) <= g.slotCount && p <= |WriteOps(g, i, prev, data)|
    ensures ApplyAll(md, m, WriteOps(g, i, prev, data)[..p])[k] == m[k]
  {
    WriteAvoids(g, md, i, prev, data, k);
    AvoidsPrefix(md, WriteOps(g, i, prev, data), p, k);
    ApplyAllAvoids(md, m, WriteOps(g, i, prev, data)[..p], k);
  }

  /** After write the target slot holds the header of the new savegame. */
  lemma WriteHeader(g: Geometry, md: Medium, m: seq<byte>, i: nat, prev: Chksum, data: seq<byte>)
    requires g.Valid() && Fits(g, md) && |m| == g.Space() && i < g.slotCount
    requires Chunks(g, HEADER_SIZE, data) <= g.slotCount
    ensures HeaderBytes(g, ApplyAll(md, m, WriteOps(g, i, prev, data)), i) == Slot.Create(i, prev, data).Encode()
  {
    var a := Addr(g, i);
    var e := Op.Erase(a);
    var chunks := ChunkOps(g, i, HEADER_SIZE, data);
    var hdr := Slot.Create(i, prev, data).Encode();
    var m1 := Apply(md, m, e);
    var m2 := ApplyAll(md, m1, chunks);
    WriteOpsApply(g, md, m, i, prev, data);
    if md.Sectored? {
      forall k | a <= k < a + HEADER_SIZE
        ensures m2[k] == ERASED
      {
        EraseClearsSlot(g, md, m, i, k);
        Position(g, i, k - a);
        ChunkAvoids(g, md, i, HEADER_SIZE, data, k);
        ApplyAllAvoids(md, m1, chunks, k);
      }
    }
    AddrOf(g, i);
    WriteReadBack(md, m2, a, hdr);
  }

  /**
   * Reading back: after write(i, prev, data), read(i, buf) gives `data` when
   * the buffer is long enough and None otherwise, on either medium, for
   * payloads that span several slots too (but not the whole table).
   */
  lemma WriteThenRead(g: Geometry, md: Medium, m: seq<byte>, i: nat, prev: Chksum, data: seq<byte>, bufLen: nat)
    requires g.Valid() && Fits(g, md) && |m| == g.Space() && i < g.slotCount
    requires |data| < U32_LIMIT && Chunks(g, HEADER_SIZE, data) <= g.slotCount
    ensures ReadResult(g, ApplyAll(md, m, WriteOps(g, i, prev, data)), i, bufLen)
      == if bufLen < |data| then None else Some(data)
  {
    var a := Addr(g, i);
    var chunks := ChunkOps(g, i, HEADER_SIZE, data);
    var h := Op.Write(a, Slot.Create(i, prev, data).Encode());
    var m1 := Apply(md, m, Op.Erase(a));
    var m2 := ApplyAll(md, m1, chunks);
    var m3 := ApplyAll(md, m, WriteOps(g, i, prev, data));
    assert m3 == Apply(md, m2, h) by {
      WriteOpsApply(g, md, m, i, prev, data);
    }
    assert Slot.FromBytes(i, HeaderBytes(g, m3, i)) == Slot.Create(i, prev, data) by {
      WriteHeader(g, md, m, i, prev, data);
    }
    assert Gather(g, m2, i, HEADER_SIZE, |data|) == data by {
      if md.Sectored? {
        forall k | a + HEADER_SIZE <= k < a + g.slotSize
          ensures m1[k] == ERASED
        {
          EraseClearsSlot(g, md, m, i, k);
        }
      }
      ChunkRoundTrip(g, md, m1, i, HEADER_SIZE, data);
    }
    assert Gather(g, m3, i, HEADER_SIZE, |data|) == Gather(g, m2, i, HEADER_SIZE, |data|) by {
      forall k: nat | k < g.Space() && Touched(g, i, HEADER_SIZE, Chunks(g, HEADER_SIZE, data), k)
        ensures m3[k] == m2[k]
      {
        HeaderMissesPayload(g, i, Chunks(g, HEADER_SIZE, data), k);
        assert m3[k] == ByteAfter(md, m2, h, k);
      }
      GatherSame(g, m3, m2, i, HEADER_SIZE, |data|);
    }
  }

  /** The header write reaches no byte of the payload's footprint. */
  lemma HeaderMissesPayload(g: Geometry, i: nat, c: nat, k: nat)
    requires g.Valid() && i < g.slotCount && k < g.Space() && Touched(g, i, HEADER_SIZE, c, k)
    ensures !Covers(Addr(g, i), HEADER_SIZE, k)
  {
    if Covers(Addr(g, i), HEADER_SIZE, k) {
      Position(g, i, k - Addr(g, i));
      assert false;
    }
  }

  /** read_static of a payload that fits behind the header gives it back after write. */
  lemma WriteThenReadStatic(g: Geometry, md: Medium, m: seq<byte>, i: nat, prev: Chksum, data: seq<byte>)
    requires g.Valid() && Fits(g, md) && |m| == g.Space() && i < g.slotCount
    requires |data| <= g.slotSize - HEADER_SIZE
    ensures StaticBytes(g, ApplyAll(md, m, WriteOps(g, i, prev, data)), i, |data|) == data
  {
    var m3 := ApplyAll(md, m, WriteOps(g, i, prev, data));
    assert Gather(g, m3, i, HEADER_SIZE, |data|) == data by {
      assert Chunks(g, HEADER_SIZE, data) == 1;
      WriteThenRead(g, md, m, i, prev, data, |data|);
    }
    GatherSingle(g, m3, i, HEADER_SIZE, |data|);
  }

  /** A payload that fits in the first slot is gathered in one piece. */
  lemma GatherSingle(g: Geometry, m: seq<byte>, j: nat, off: nat, len: nat)
    requires g.Valid() && |m| == g.Space() && 0 < off < g.slotSize && len <= g.slotSize - off
    ensures Addr(g, j) + off + len <= |m|
    ensures Gather(g, m, j, off, len) == m[Addr(g, j) + off..Addr(g, j) + off + len]
  {
  }

  // ------------------------------------------------------- returned index

  /** (x mod n + y) mod n is (x + y) mod n for one wrap. */
  lemma ModWrap(n: nat, t: nat)
    requires 0 < n
    ensures (n + t) % n == t % n
  {
    DivMod(t / n + 1, n, t % n);
    DivMod(t / n, n, t % n);
  }

  /** The chunk loop ends `c` slots on, wrapping around the table. */
  lemma {:induction false} ChunkEndValue(g: Geometry, j: nat, off: nat, data: seq<byte>)
    requires g.Valid() && j < g.slotCount && 0 < off < g.slotSize
    ensures ChunkEnd(g, j, off, data) == (j + Chunks(g, off, data)) % g.slotCount
    decreases |data|
  {
    var n := Min(g.slotSize - off, |data|);
    var nx := NextIdx(g, j);
    if n < |data| {
      ChunkEndValue(g, nx, 1, data[n..]);
      var c := Chunks(g, off, data);
      assert Chunks(g, 1, data[n..]) == c - 1;
      if j + 1 == g.slotCount {
        ModWrap(g.slotCount, c - 1);
      }
    }
  }

  /**
   * The index write returns is next_slot of the header it writes: the first
   * slot after the savegame, as used_bytes rounds it to whole slots.
   */
  lemma WriteEndIsNextSlot(g: Geometry, i: nat, prev: Chksum, data: seq<byte>)
    requires g.Valid() && i < g.slotCount && |data| < U32_LIMIT
    ensures ChunkEnd(g, i, HEADER_SIZE, data) == Slot.Create(i, prev, data).NextSlot(g)
  {
    var s := Slot.Create(i, prev, data);
    ChunkEndValue(g, i, HEADER_SIZE, data);
    NextSlotValue(g, s);
  }

  /** next_slot counts the slots the savegame fills, from its own slot on. */
  lemma NextSlotValue(g: Geometry, s: Slot)
    requires g.Valid() && s.idx < g.slotCount
    ensures s.NextSlot(g) == (s.idx + ChunkCount(g, g.slotSize - HEADER_SIZE, s.len)) % g.slotCount
  {
    var c := ChunkCount(g, g.slotSize - HEADER_SIZE, s.len);
    var u := DivCeil(UsedBytesOf(g, s.len), g.slotSize);
    assert u == c by {
      UsedSlots(g, s.len);
    }
    assert SatAdd(s.idx, u) == s.idx + c;
    assert s.NextSlot(g) == SatAdd(s.idx, u) % g.slotCount;
  }
}
