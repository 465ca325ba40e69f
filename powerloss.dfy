/**
 * What scan finds when write is cut short. Before the header is written,
 * the target slot starts with an erased byte; every other slot the new
 * savegame reaches either starts with an erased byte, because the chunk
 * loop erases a slot's start before it writes anything else into it, or
 * still holds what it held; and the slots before the target are untouched.
 * So an interrupted append leaves the savegame scan found before as what
 * the next scan finds.
 */
module PowerLoss {
  import opened Bytes
  import opened Chksums
  import opened Slots
  import opened Flash
  import opened Layout
  import opened ScanFacts
  import opened WriteFacts

  /** Slot `s` of `m'` starts with an erased byte, or holds every byte it holds in `m`. */
  predicate ErasedOrKept(g: Geometry, m: seq<byte>, m': seq<byte>, s: nat)
    requires g.Valid() && |m| == g.Space() && |m'| == g.Space() && s < g.slotCount
  {
    m'[Addr(g, s)] == ERASED
    || forall k :: Addr(g, s) <= k < Addr(g, s) + g.slotSize ==> m'[k] == m[k]
  }

  /** A write inside slot `j` leaves every byte of another slot as it was. */
  lemma LocalWriteKeepsSlot(g: Geometry, md: Medium, m: seq<byte>, j: nat, off: nat, b: seq<byte>, s: nat)
    requires g.Valid() && |m| == g.Space() && j < g.slotCount && off + |b| <= g.slotSize
    requires s < g.slotCount && s != j
    ensures forall k :: Addr(g, s) <= k < Addr(g, s) + g.slotSize
              ==> Apply(md, m, Op.Write(Addr(g, j) + off, b))[k] == m[k]
  {
    var w := Op.Write(Addr(g, j) + off, b);
    forall k | Addr(g, s) <= k < Addr(g, s) + g.slotSize
      ensures Apply(md, m, w)[k] == m[k]
    {
      InSlotBytes(g, s, k);
      if Covers(Addr(g, j) + off, |b|, k) {
        CoveredInSlot(g, j, off, |b|, k);
      }
      assert Apply(md, m, w)[k] == ByteAfter(md, m, w, k);
    }
  }

  /** An erase at the start of slot `t` leaves every byte of another slot as it was. */
  lemma EraseKeepsSlot(g: Geometry, md: Medium, m: seq<byte>, t: nat, s: nat)
    requires g.Valid() && Fits(g, md) && |m| == g.Space() && t < g.slotCount
    requires s < g.slotCount && s != t
    ensures forall k :: Addr(g, s) <= k < Addr(g, s) + g.slotSize
              ==> Apply(md, m, Op.Erase(Addr(g, t)))[k] == m[k]
  {
    forall k | Addr(g, s) <= k < Addr(g, s) + g.slotSize
      ensures Apply(md, m, Op.Erase(Addr(g, t)))[k] == m[k]
    {
      InSlotBytes(g, s, k);
      EraseKeepsOtherSlots(g, md, m, t, k);
    }
  }

  /**
   * Stopped after any number of its calls, the chunk loop leaves every slot
   * other than its first either starting with an erased byte or as it was.
   */
  lemma {:induction false} ChunkPrefixErasedOrKept(g: Geometry, md: Medium, m: seq<byte>, j: nat, off: nat,
                                                   data: seq<byte>, q: nat, s: nat)
    requires g.Valid() && Fits(g, md) && |m| == g.Space() && j < g.slotCount && 0 < off < g.slotSize
    requires s < g.slotCount && s != j && q <= |ChunkOps(g, j, off, data)|
    ensures ErasedOrKept(g, m, ApplyAll(md, m, ChunkOps(g, j, off, data)[..q]), s)
    decreases |data|
  {
    var ops := ChunkOps(g, j, off, data);
    var n := Min(g.slotSize - off, |data|);
    var w := Op.Write(Addr(g, j) + off, data[..n]);
    var m1 := Apply(md, m, w);
    LocalWriteKeepsSlot(g, md, m, j, off, data[..n], s);
    if q == 0 {
      assert ops[..q] == [];
    } else if q == 1 {
      assert ops[..q] == [w];
      ApplyAllCons(md, m, w, []);
    } else {
      assert n < |data|;
      var nx := NextIdx(g, j);
      var e := Op.Erase(Addr(g, nx));
      var m2 := Apply(md, m1, e);
      var rest := ChunkOps(g, nx, 1, data[n..]);
      var part := rest[..q - 2];
      assert ops[..q] == [w] + ([e] + part);
      ApplyAllCons(md, m, w, [e] + part);
      ApplyAllCons(md, m1, e, part);
      if s == nx {
        EraseClearsSlot(g, md, m1, s, Addr(g, s));
        AddrSlot(g, s);
        ChunkWritesMissHeads(g, nx, 1, data[n..], Addr(g, s));
        assert forall op :: op in part ==> op in rest;
        ErasedStaysErased(md, m2, part, Addr(g, s));
      } else {
        EraseKeepsSlot(g, md, m1, nx, s);
        ChunkPrefixErasedOrKept(g, md, m2, nx, 1, data[n..], q - 2, s);
      }
    }
  }

  /**
   * Stopped after any of its calls before the header, write leaves every
   * slot other than its target either starting with an erased byte or as it was.
   */
  lemma WritePrefixErasedOrKept(g: Geometry, md: Medium, m: seq<byte>, i: nat, prev: Chksum, data: seq<byte>,
                                p: nat, s: nat)
    requires g.Valid() && Fits(g, md) && |m| == g.Space() && i < g.slotCount
    requires 1 <= p < |WriteOps(g, i, prev, data)| && s < g.slotCount && s != i
    ensures ErasedOrKept(g, m, ApplyAll(md, m, WriteOps(g, i, prev, data)[..p]), s)
  {
    var e := Op.Erase(Addr(g, i));
    var chunks := ChunkOps(g, i, HEADER_SIZE, data);
    WriteOpsPrefix(g, i, prev, data, p);
    ApplyAllCons(md, m, e, chunks[..p - 1]);
    EraseKeepsSlot(g, md, m, i, s);
    ChunkPrefixErasedOrKept(g, md, Apply(md, m, e), i, HEADER_SIZE, data, p - 1, s);
  }

  /** A slot that starts with an erased byte or holds what it held reports nothing or what it reported. */
  lemma ErasedOrKeptProbe(g: Geometry, m: seq<byte>, m': seq<byte>, s: nat)
    requires g.Valid() && |m| == g.Space() && |m'| == g.Space() && s < g.slotCount
    requires ErasedOrKept(g, m, m', s)
    ensures SlotAt(g, m', s) == None || SlotAt(g, m', s) == SlotAt(g, m, s)
  {
    if m'[Addr(g, s)] != ERASED {
      SlotAtSameHeader(g, m', m, s);
    }
  }

  /** A slot before a write that does not wrap reports what it reported, at every point of the write. */
  lemma PrefixKeepsEarlierSlot(g: Geometry, md: Medium, m: seq<byte>, i: nat, prev: Chksum, data: seq<byte>,
                               p: nat, s: nat)
    requires g.Valid() && Fits(g, md) && |m| == g.Space()
    requires i + Chunks(g, HEADER_SIZE, data) <= g.slotCount && s < i
    requires p <= |WriteOps(g, i, prev, data)|
    ensures SlotAt(g, ApplyAll(md, m, WriteOps(g, i, prev, data)[..p]), s) == SlotAt(g, m, s)
  {
    var mp := ApplyAll(md, m, WriteOps(g, i, prev, data)[..p]);
    forall k | Addr(g, s) <= k < Addr(g, s) + HEADER_SIZE
      ensures mp[k] == m[k]
    {
      Position(g, s, k - Addr(g, s));
      WriteKeepsOtherSlots(g, md, m, i, prev, data, p, k);
    }
    SlotAtSameHeader(g, mp, m, s);
  }

  /** Up to the target slot, scan over the interrupted write finds what the whole scan found before. */
  lemma InterruptedWriteScanUpTo(g: Geometry, md: Medium, m: seq<byte>, i: nat, prev: Chksum, data: seq<byte>, p: nat)
    requires g.Valid() && Fits(g, md) && |m| == g.Space()
    requires ScanResult(g, m).Some? && ScanResult(g, m).value.idx < i
    requires i + Chunks(g, HEADER_SIZE, data) <= g.slotCount
    requires p <= |WriteOps(g, i, prev, data)|
    ensures ScanUpTo(g, ApplyAll(md, m, WriteOps(g, i, prev, data)[..p]), i) == ScanResult(g, m)
  {
    var mp := ApplyAll(md, m, WriteOps(g, i, prev, data)[..p]);
    var found := Probes(g, m);
    var found' := Probes(g, mp);
    forall s | 0 <= s < i
      ensures found'[s] == found[s]
    {
      PrefixKeepsEarlierSlot(g, md, m, i, prev, data, p, s);
    }
    ScanOverSame(found', found, i);
    ProbesIndexed(g, m);
    ScanHoldsWinnerAfterItsSlot(found, i);
  }

  /** Past the target slot, the interrupted write leaves no report that updates the savegame scan found before. */
  lemma InterruptedWriteLaterSlot(g: Geometry, md: Medium, m: seq<byte>, i: nat, prev: Chksum, data: seq<byte>,
                                  p: nat, s: nat)
    requires g.Valid() && Fits(g, md) && |m| == g.Space()
    requires ScanResult(g, m).Some? && ScanResult(g, m).value.idx < i < s < g.slotCount
    requires 1 <= p < |WriteOps(g, i, prev, data)|
    ensures var r := SlotAt(g, ApplyAll(md, m, WriteOps(g, i, prev, data)[..p]), s);
      r.Some? ==> !r.value.IsUpdateTo(ScanResult(g, m).value)
  {
    var mp := ApplyAll(md, m, WriteOps(g, i, prev, data)[..p]);
    ScanWinner(g, m);
    WritePrefixErasedOrKept(g, md, m, i, prev, data, p, s);
    ErasedOrKeptProbe(g, m, mp, s);
  }

  /**
   * Scan finds `w` when it holds `w` before slot `i`, slot `i` reports
   * nothing, and no later report updates `w`.
   */
  lemma ScanKeepsPast(g: Geometry, mp: seq<byte>, i: nat, w: Slot)
    requires g.Valid() && |mp| == g.Space() && i < g.slotCount
    requires ScanUpTo(g, mp, i) == Some(w) && SlotAt(g, mp, i) == None
    requires forall s :: i < s < g.slotCount && SlotAt(g, mp, s).Some? ==> !SlotAt(g, mp, s).value.IsUpdateTo(w)
    ensures ScanResult(g, mp) == Some(w)
  {
    var found := Probes(g, mp);
    assert forall s :: i <= s < g.slotCount && found[s].Some? ==> !found[s].value.IsUpdateTo(w);
    ScanKeeps(found, i, g.slotCount, w);
  }

  /**
   * Power-fail safety as scan sees it: if write stops after any of its calls
   * before the header, at a slot past the savegame scan found and without
   * wrapping around the table, the next scan still finds that savegame.
   */
  lemma InterruptedWriteKeepsWinner(g: Geometry, md: Medium, m: seq<byte>, i: nat, prev: Chksum, data: seq<byte>, p: nat)
    requires g.Valid() && Fits(g, md) && |m| == g.Space()
    requires ScanResult(g, m).Some? && ScanResult(g, m).value.idx < i
    requires i + Chunks(g, HEADER_SIZE, data) <= g.slotCount
    requires 1 <= p < |WriteOps(g, i, prev, data)|
    ensures ScanResult(g, ApplyAll(md, m, WriteOps(g, i, prev, data)[..p])) == ScanResult(g, m)
  {
    var w := ScanResult(g, m).value;
    var mp := ApplyAll(md, m, WriteOps(g, i, prev, data)[..p]);
    InterruptedWriteScanUpTo(g, md, m, i, prev, data, p);
    PowerFail(g, md, m, i, prev, data, p);
    forall s | i < s < g.slotCount && SlotAt(g, mp, s).Some?
      ensures !SlotAt(g, mp, s).value.IsUpdateTo(w)
    {
      InterruptedWriteLaterSlot(g, md, m, i, prev, data, p, s);
    }
    ScanKeepsPast(g, mp, i, w);
  }

  /**
   * An append cut short before its header, at the slot after the savegame
   * scan found and without wrapping around the table, leaves that savegame
   * as what the next scan finds.
   */
  lemma InterruptedAppendKeepsWinner(g: Geometry, md: Medium, m: seq<byte>, data: seq<byte>, p: nat)
    requires g.Valid() && Fits(g, md) && |m| == g.Space()
    requires ScanResult(g, m).Some?
    requires var w := ScanResult(g, m).value;
      var n := w.NextSlot(g);
      w.idx < n && n + Chunks(g, HEADER_SIZE, data) <= g.slotCount && 1 <= p < |WriteOps(g, n, w.chksum, data)|
    ensures var w := ScanResult(g, m).value;
      ScanResult(g, ApplyAll(md, m, WriteOps(g, w.NextSlot(g), w.chksum, data)[..p])) == Some(w)
  {
    var w := ScanResult(g, m).value;
    InterruptedWriteKeepsWinner(g, md, m, w.NextSlot(g), w.chksum, data, p);
  }
}
