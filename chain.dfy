/**
 * What `scan` finds after `write`. Every slot the new savegame spills into
 * has its first byte erased, so scan skips it; slots outside the savegame
 * keep their headers; the target slot holds the new header. Hence a write
 * on blank flash is found by the next scan, and a savegame appended right
 * after the current one extends the checksum chain that scan follows.
 */
module Chain {
  import opened Bytes
  import opened Chksums
  import opened Slots
  import opened Flash
  import opened Layout
  import opened ScanFacts
  import opened WriteFacts

  /** The chunk loop erases the first byte of every continuation slot, and no later write of its own restores it. */
  lemma {:induction false} ChunkErasesHead(g: Geometry, md: Medium, m: seq<byte>, j: nat, off: nat, data: seq<byte>, s: nat)
    requires g.Valid() && Fits(g, md) && |m| == g.Space() && j < g.slotCount && 0 < off < g.slotSize
    requires s < g.slotCount && s != j && Dist(g, j, s) < Chunks(g, off, data)
    ensures ApplyAll(md, m, ChunkOps(g, j, off, data))[Addr(g, s)] == ERASED
    decreases |data|
  {
    var n := g.slotSize - off;
    var nx := NextIdx(g, j);
    var m1 := Apply(md, m, Op.Write(Addr(g, j) + off, data[..n]));
    var m2 := Apply(md, m1, Op.Erase(Addr(g, nx)));
    ChunkOpsUnfold(g, md, m, j, off, data);
    assert Chunks(g, 1, data[n..]) == Chunks(g, off, data) - 1;
    if s == nx {
      assert m2[Addr(g, s)] == ERASED by {
        EraseClearsSlot(g, md, m1, s, Addr(g, s));
      }
      AddrSlot(g, s);
      ChunkWritesMissHeads(g, nx, 1, data[n..], Addr(g, s));
      ErasedStaysErased(md, m2, ChunkOps(g, nx, 1, data[n..]), Addr(g, s));
    } else {
      DistNext(g, j, s);
      ChunkErasesHead(g, md, m2, nx, 1, data[n..], s);
    }
  }

  /** The header write of slot `i` reaches no other slot's first byte. */
  lemma HeaderMissesOtherHeads(g: Geometry, i: nat, s: nat)
    requires g.Valid() && i < g.slotCount && s < g.slotCount && s != i
    ensures !Covers(Addr(g, i), HEADER_SIZE, Addr(g, s))
  {
    AddrOf(g, i);
    AddrOf(g, s);
    StartsApart(i, s, g.slotSize);
  }

  /** The starts of two different blocks of `d` bytes lie at least `d` apart. */
  lemma StartsApart(i: nat, s: nat, d: nat)
    requires i != s
    ensures s * d < i * d ==> s * d + d <= i * d
    ensures i * d < s * d ==> i * d + d <= s * d
    ensures i * d != s * d || d == 0
  {
    if s < i {
      MulLe(s + 1, i, d);
      assert (s + 1) * d == s * d + d;
    } else {
      MulLe(i + 1, s, d);
      assert (i + 1) * d == i * d + d;
    }
  }

  /** After write, every continuation slot of the new savegame starts with an erased byte. */
  lemma ContinuationHeadErased(g: Geometry, md: Medium, m: seq<byte>, i: nat, prev: Chksum, data: seq<byte>, s: nat)
    requires g.Valid() && Fits(g, md) && |m| == g.Space() && i < g.slotCount
    requires s < g.slotCount && s != i && Dist(g, i, s) < Chunks(g, HEADER_SIZE, data)
    ensures ApplyAll(md, m, WriteOps(g, i, prev, data))[Addr(g, s)] == ERASED
  {
    var h := Op.Write(Addr(g, i), Slot.Create(i, prev, data).Encode());
    var m2 := ApplyAll(md, Apply(md, m, Op.Erase(Addr(g, i))), ChunkOps(g, i, HEADER_SIZE, data));
    WriteOpsApply(g, md, m, i, prev, data);
    ChunkErasesHead(g, md, Apply(md, m, Op.Erase(Addr(g, i))), i, HEADER_SIZE, data, s);
    HeaderMissesOtherHeads(g, i, s);
    assert Apply(md, m2, h)[Addr(g, s)] == ByteAfter(md, m2, h, Addr(g, s));
  }

  /** After write, slot `i` holds the new savegame, which scan_slot reports exactly when its `prev` is valid. */
  lemma WrittenSlotProbe(g: Geometry, md: Medium, m: seq<byte>, i: nat, prev: Chksum, data: seq<byte>)
    requires g.Valid() && Fits(g, md) && |m| == g.Space() && i < g.slotCount
    requires Chunks(g, HEADER_SIZE, data) <= g.slotCount
    ensures SlotAt(g, ApplyAll(md, m, WriteOps(g, i, prev, data)), i)
      == if prev.IsValid() then Some(Slot.Create(i, prev, data)) else None
  {
    var m3 := ApplyAll(md, m, WriteOps(g, i, prev, data));
    WriteHeader(g, md, m, i, prev, data);
    SlotAtIsHeaderValidity(g, m3, i);
  }

  /** A slot outside the new savegame's footprint reports what it reported before the write. */
  lemma OtherSlotProbe(g: Geometry, md: Medium, m: seq<byte>, i: nat, prev: Chksum, data: seq<byte>, s: nat)
    requires g.Valid() && Fits(g, md) && |m| == g.Space() && i < g.slotCount
    requires Chunks(g, HEADER_SIZE, data) <= g.slotCount
    requires s < g.slotCount && s != i && Chunks(g, HEADER_SIZE, data) <= Dist(g, i, s)
    ensures SlotAt(g, ApplyAll(md, m, WriteOps(g, i, prev, data)), s) == SlotAt(g, m, s)
    ensures ApplyAll(md, m, WriteOps(g, i, prev, data))[Addr(g, s)] == m[Addr(g, s)]
  {
    var ops := WriteOps(g, i, prev, data);
    var m3 := ApplyAll(md, m, ops);
    assert ops[..|ops|] == ops;
    forall k | Addr(g, s) <= k < Addr(g, s) + HEADER_SIZE
      ensures m3[k] == m[k]
    {
      Position(g, s, k - Addr(g, s));
      WriteKeepsOtherSlots(g, md, m, i, prev, data, |ops|, k);
    }
    SlotAtSameHeader(g, m3, m, s);
  }

  /** A continuation slot of the new savegame reports nothing. */
  lemma ContinuationSlotProbe(g: Geometry, md: Medium, m: seq<byte>, i: nat, prev: Chksum, data: seq<byte>, s: nat)
    requires g.Valid() && Fits(g, md) && |m| == g.Space() && i < g.slotCount
    requires s < g.slotCount && s != i && Dist(g, i, s) < Chunks(g, HEADER_SIZE, data)
    ensures SlotAt(g, ApplyAll(md, m, WriteOps(g, i, prev, data)), s) == None
  {
    ContinuationHeadErased(g, md, m, i, prev, data, s);
  }

  /** Reports that are all empty but one: scan holds that one. */
  lemma ScanOverSingle(found: seq<Option<Slot>>, i: nat, x: Slot)
    requires i < |found| && found[i] == Some(x)
    requires forall j :: 0 <= j < |found| && j != i ==> found[j] == None
    ensures ScanOver(found, |found|) == Some(x)
  {
    ScanOverNone(found, i);
    assert ScanOver(found, i + 1) == Some(x);
    ScanKeeps(found, i + 1, |found|, x);
  }

  /** Fully erased flash. */
  predicate Blank(mem: seq<byte>)
  {
    forall k :: 0 <= k < |mem| ==> mem[k] == ERASED
  }

  /**
   * A savegame written on blank flash is what the next scan finds, and scan
   * then points at the slot write returned and at the new checksum; a scan
   * right after write restores what append stored.
   */
  lemma BlankWriteScan(g: Geometry, md: Medium, m: seq<byte>, i: nat, prev: Chksum, data: seq<byte>)
    requires g.Valid() && Fits(g, md) && |m| == g.Space() && Blank(m) && i < g.slotCount
    requires prev.IsValid() && |data| < U32_LIMIT && Chunks(g, HEADER_SIZE, data) <= g.slotCount
    ensures ScanResult(g, ApplyAll(md, m, WriteOps(g, i, prev, data))) == Some(Slot.Create(i, prev, data))
    ensures Slot.Create(i, prev, data).NextSlot(g) == ChunkEnd(g, i, HEADER_SIZE, data)
    ensures Slot.Create(i, prev, data).chksum == Chksum.Hash(prev, data)
  {
    var m3 := ApplyAll(md, m, WriteOps(g, i, prev, data));
    var found := Probes(g, m3);
    forall j | 0 <= j < g.slotCount && j != i
      ensures found[j] == None
    {
      if Dist(g, i, j) < Chunks(g, HEADER_SIZE, data) {
        ContinuationSlotProbe(g, md, m, i, prev, data, j);
      } else {
        OtherSlotProbe(g, md, m, i, prev, data, j);
      }
    }
    WrittenSlotProbe(g, md, m, i, prev, data);
    ScanOverSingle(found, i, Slot.Create(i, prev, data));
    WriteEndIsNextSlot(g, i, prev, data);
  }

  /** The slots a savegame of `c` slots written at `n` spills into, when it does not wrap. */
  lemma DistNoWrap(g: Geometry, n: nat, c: nat, s: nat)
    requires g.Valid() && n < g.slotCount && n + c <= g.slotCount && s < g.slotCount
    ensures Dist(g, n, s) < c <==> n <= s < n + c
  {
  }

  /**
   * Appending extends the chain: when scan finds `w` and a new savegame is
   * written as an update to `w` at w's next slot, with no wrap-around and no
   * later slot claiming to update the new savegame, the next scan finds the
   * new savegame.
   */
  lemma AppendExtendsChain(g: Geometry, md: Medium, m: seq<byte>, data: seq<byte>)
    requires g.Valid() && Fits(g, md) && |m| == g.Space()
    requires ScanResult(g, m).Some?
    requires var w := ScanResult(g, m).value;
      var n := w.NextSlot(g);
      && w.idx < n && n + Chunks(g, HEADER_SIZE, data) <= g.slotCount
      && forall s :: n + Chunks(g, HEADER_SIZE, data) <= s < g.slotCount && SlotAt(g, m, s).Some?
           ==> !SlotAt(g, m, s).value.IsUpdateTo(Slot.Create(n, w.chksum, data))
    ensures var w := ScanResult(g, m).value;
      var n := w.NextSlot(g);
      ScanResult(g, ApplyAll(md, m, WriteOps(g, n, w.chksum, data))) == Some(Slot.Create(n, w.chksum, data))
  {
    var w := ScanResult(g, m).value;
    var n := w.NextSlot(g);
    var x := Slot.Create(n, w.chksum, data);
    var m3 := ApplyAll(md, m, WriteOps(g, n, w.chksum, data));
    var found' := Probes(g, m3);
    assert w.IsValid() && w.idx < g.slotCount by {
      ScanWinner(g, m);
    }
    assert ScanOver(found', n) == Some(w) by {
      ProbesBefore(g, md, m, n, w.chksum, data);
      ProbesIndexed(g, m);
      ScanHoldsWinnerAfterItsSlot(Probes(g, m), n);
    }
    assert found'[n] == Some(x) by {
      WrittenSlotProbe(g, md, m, n, w.chksum, data);
      assert found'[n] == SlotAt(g, m3, n);
    }
    assert ScanOver(found', n + 1) == Some(x);
    assert forall s :: n + Chunks(g, HEADER_SIZE, data) <= s < g.slotCount && SlotAt(g, m, s).Some?
             ==> !SlotAt(g, m, s).value.IsUpdateTo(x);
    NewSavegameKept(g, md, m, n, w.chksum, data, x, found');
  }

  /** Past a write at `n` that does not wrap, no report updates the new savegame unless one did before the write, so scan keeps it. */
  lemma NewSavegameKept(g: Geometry, md: Medium, m: seq<byte>, n: nat, prev: Chksum, data: seq<byte>,
                        x: Slot, found': seq<Option<Slot>>)
    requires g.Valid() && Fits(g, md) && |m| == g.Space()
    requires n + Chunks(g, HEADER_SIZE, data) <= g.slotCount
    requires x == Slot.Create(n, prev, data) && found' == Probes(g, ApplyAll(md, m, WriteOps(g, n, prev, data)))
    requires forall s :: n + Chunks(g, HEADER_SIZE, data) <= s < g.slotCount && SlotAt(g, m, s).Some?
               ==> !SlotAt(g, m, s).value.IsUpdateTo(x)
    requires n < g.slotCount && ScanOver(found', n + 1) == Some(x)
    ensures ScanOver(found', g.slotCount) == Some(x)
  {
    forall j | n + 1 <= j < g.slotCount && found'[j].Some?
      ensures !found'[j].value.IsUpdateTo(x)
    {
      ProbeAfter(g, md, m, n, prev, data, j);
    }
    ScanKeeps(found', n + 1, g.slotCount, x);
  }

  /** A write at `n` that does not wrap leaves what scan holds after slots 0 .. n-1 as it was. */
  lemma ProbesBefore(g: Geometry, md: Medium, m: seq<byte>, n: nat, prev: Chksum, data: seq<byte>)
    requires g.Valid() && Fits(g, md) && |m| == g.Space()
    requires n + Chunks(g, HEADER_SIZE, data) <= g.slotCount
    ensures ScanUpTo(g, ApplyAll(md, m, WriteOps(g, n, prev, data)), n) == ScanUpTo(g, m, n)
  {
    var found := Probes(g, m);
    var found' := Probes(g, ApplyAll(md, m, WriteOps(g, n, prev, data)));
    forall j | 0 <= j < n
      ensures found'[j] == found[j]
    {
      DistNoWrap(g, n, Chunks(g, HEADER_SIZE, data), j);
      OtherSlotProbe(g, md, m, n, prev, data, j);
    }
    ScanOverSame(found', found, n);
  }

  /** Past slot `n`, a write at `n` that does not wrap leaves only reports from beyond its footprint. */
  lemma ProbeAfter(g: Geometry, md: Medium, m: seq<byte>, n: nat, prev: Chksum, data: seq<byte>, j: nat)
    requires g.Valid() && Fits(g, md) && |m| == g.Space()
    requires n + Chunks(g, HEADER_SIZE, data) <= g.slotCount && n < j < g.slotCount
    requires SlotAt(g, ApplyAll(md, m, WriteOps(g, n, prev, data)), j).Some?
    ensures n + Chunks(g, HEADER_SIZE, data) <= j
    ensures SlotAt(g, ApplyAll(md, m, WriteOps(g, n, prev, data)), j) == SlotAt(g, m, j)
  {
    DistNoWrap(g, n, Chunks(g, HEADER_SIZE, data), j);
    if j < n + Chunks(g, HEADER_SIZE, data) {
      ContinuationSlotProbe(g, md, m, n, prev, data, j);
    } else {
      OtherSlotProbe(g, md, m, n, prev, data, j);
    }
  }
}
