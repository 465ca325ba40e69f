/**
 * What `scan` finds. The scan probes every slot in index order and keeps
 * the first valid header, replacing it with each later valid header whose
 * `prev` is the checksum of the one held. These lemmas characterise the
 * result, show that the 1-byte early skip never hides a valid header, and
 * state what erasing does to a later scan.
 */
module ScanFacts {
  import opened Bytes
  import opened Chksums
  import opened Slots
  import opened Flash
  import opened Layout
  import opened Mock

  /** A slot scan_slot reports sits at its own index and has a valid header. */
  lemma SlotAtSome(g: Geometry, mem: seq<byte>, j: nat)
    requires g.Valid() && |mem| == g.Space()
    requires SlotAt(g, mem, j).Some?
    ensures SlotAt(g, mem, j).value.idx == j && SlotAt(g, mem, j).value.IsValid()
    ensures SlotAt(g, mem, j).value == Slot.FromBytes(j, HeaderBytes(g, mem, j))
  {
  }

  /**
   * The early skip is sound: probing the first byte gives the same answer
   * as decoding the whole header and checking it, because a first byte
   * with the top bit set always decodes to an invalid checksum.
   */
  lemma SlotAtIsHeaderValidity(g: Geometry, mem: seq<byte>, j: nat)
    requires g.Valid() && |mem| == g.Space()
    ensures var s := Slot.FromBytes(j, HeaderBytes(g, mem, j));
      SlotAt(g, mem, j) == if s.IsValid() then Some(s) else None
  {
    var h := HeaderBytes(g, mem, j);
    var s := Slot.FromBytes(j, h);
    EncodeFromBytes(j, h);
    assert h[0] == mem[Addr(g, j)];
  }

  /** Two memories with the same header bytes in slot `j` look the same to scan_slot. */
  lemma SlotAtSameHeader(g: Geometry, m: seq<byte>, m': seq<byte>, j: nat)
    requires g.Valid() && |m| == g.Space() && |m'| == g.Space()
    requires forall k :: Addr(g, j) <= k < Addr(g, j) + HEADER_SIZE ==> m[k] == m'[k]
    ensures SlotAt(g, m, j) == SlotAt(g, m', j)
  {
    assert HeaderBytes(g, m, j) == HeaderBytes(g, m', j);
  }

  /** Every report names the slot it was read from and carries a valid header. */
  predicate Indexed(found: seq<Option<Slot>>)
  {
    forall j :: 0 <= j < |found| && found[j].Some? ==> found[j].value.idx == j && found[j].value.IsValid()
  }

  /** scan_slot's reports are indexed by their slots. */
  lemma ProbesIndexed(g: Geometry, mem: seq<byte>)
    requires g.Valid() && |mem| == g.Space()
    ensures Indexed(Probes(g, mem))
  {
    forall j | 0 <= j < g.slotCount && Probes(g, mem)[j].Some?
      ensures Probes(g, mem)[j].value.idx == j && Probes(g, mem)[j].value.IsValid()
    {
      SlotAtSome(g, mem, j);
    }
  }

  /** Scan holds nothing after k reports exactly when none of them found a header. */
  lemma {:induction false} ScanOverNone(found: seq<Option<Slot>>, k: nat)
    requires k <= |found|
    ensures ScanOver(found, k) == None <==> forall j :: 0 <= j < k ==> found[j] == None
  {
    if k > 0 {
      ScanOverNone(found, k - 1);
    }
  }

  /** scan returns None exactly when no slot holds a valid header. */
  lemma ScanNoneIff(g: Geometry, mem: seq<byte>)
    requires g.Valid() && |mem| == g.Space()
    ensures ScanResult(g, mem) == None <==> forall j: nat :: j < g.slotCount ==> SlotAt(g, mem, j) == None
  {
    var found := Probes(g, mem);
    ScanOverNone(found, g.slotCount);
    if forall j :: 0 <= j < g.slotCount ==> found[j] == None {
      forall j: nat | j < g.slotCount
        ensures SlotAt(g, mem, j) == None
      {
        assert found[j] == SlotAt(g, mem, j);
      }
    }
    if forall j: nat :: j < g.slotCount ==> SlotAt(g, mem, j) == None {
      forall j | 0 <= j < g.slotCount
        ensures found[j] == None
      {
        assert found[j] == SlotAt(g, mem, j);
      }
    }
  }

  /**
   * What scan holds after k reports is a valid header reported at its own
   * index, and no later report among those k is an update to it.
   */
  lemma {:induction false} ScanOverFound(found: seq<Option<Slot>>, k: nat)
    requires k <= |found| && Indexed(found)
    requires ScanOver(found, k).Some?
    ensures var w := ScanOver(found, k).value;
      w.idx < k && found[w.idx] == Some(w) && w.IsValid()
      && forall j :: w.idx < j < k && found[j].Some? ==> !found[j].value.IsUpdateTo(w)
  {
    if ScanOver(found, k) == ScanOver(found, k - 1) {
      ScanOverFound(found, k - 1);
    }
  }

  /** The savegame scan returns: valid, at its own slot, and not superseded by any later slot. */
  lemma ScanWinner(g: Geometry, mem: seq<byte>)
    requires g.Valid() && |mem| == g.Space()
    requires ScanResult(g, mem).Some?
    ensures var w := ScanResult(g, mem).value;
      w.idx < g.slotCount && SlotAt(g, mem, w.idx) == Some(w) && w.IsValid()
      && forall j :: w.idx < j < g.slotCount && SlotAt(g, mem, j).Some? ==> !SlotAt(g, mem, j).value.IsUpdateTo(w)
  {
    var found := Probes(g, mem);
    ProbesIndexed(g, mem);
    ScanOverFound(found, g.slotCount);
    forall j | 0 <= j < g.slotCount
      ensures SlotAt(g, mem, j) == found[j]
    {
    }
  }

  /** Once scan holds a header it holds one for good, and never one at a lower index. */
  lemma {:induction false} ScanOverMonotone(found: seq<Option<Slot>>, k: nat, k': nat)
    requires k <= k' <= |found| && Indexed(found)
    requires ScanOver(found, k).Some?
    ensures ScanOver(found, k').Some?
    ensures ScanOver(found, k').value.idx >= ScanOver(found, k).value.idx
    decreases k' - k
  {
    if k < k' {
      ScanOverMonotone(found, k, k' - 1);
      ScanOverFound(found, k' - 1);
    }
  }

  /** The header scan holds was taken when its own slot was probed. */
  lemma {:induction false} ScanOverTakenAt(found: seq<Option<Slot>>, k: nat)
    requires k <= |found| && Indexed(found)
    requires ScanOver(found, k).Some?
    ensures ScanOver(found, k).value.idx < k
    ensures ScanOver(found, ScanOver(found, k).value.idx + 1) == ScanOver(found, k)
  {
    if ScanOver(found, k) == ScanOver(found, k - 1) {
      ScanOverTakenAt(found, k - 1);
    }
  }

  /** From the winner's slot on, scan already holds the winner. */
  lemma ScanHoldsWinnerAfterItsSlot(found: seq<Option<Slot>>, k: nat)
    requires Indexed(found)
    requires ScanOver(found, |found|).Some? && ScanOver(found, |found|).value.idx < k <= |found|
    ensures ScanOver(found, k) == ScanOver(found, |found|)
  {
    var w := ScanOver(found, |found|).value;
    ScanOverTakenAt(found, |found|);
    ScanOverMonotone(found, w.idx + 1, k);
    ScanOverMonotone(found, k, |found|);
    ScanOverFound(found, k);
    ScanOverFound(found, |found|);
  }

  /** Scan results depend only on the reports. */
  lemma {:induction false} ScanOverSame(found: seq<Option<Slot>>, found': seq<Option<Slot>>, k: nat)
    requires k <= |found| && k <= |found'|
    requires forall j :: 0 <= j < k ==> found[j] == found'[j]
    ensures ScanOver(found, k) == ScanOver(found', k)
  {
    if k > 0 {
      ScanOverSame(found, found', k - 1);
    }
  }

  /** Scan keeps what it holds across reports that are empty or hold no update to it. */
  lemma {:induction false} ScanKeeps(found: seq<Option<Slot>>, k0: nat, k: nat, x: Slot)
    requires k0 <= k <= |found|
    requires ScanOver(found, k0) == Some(x)
    requires forall j :: k0 <= j < k && found[j].Some? ==> !found[j].value.IsUpdateTo(x)
    ensures ScanOver(found, k) == Some(x)
    decreases k - k0
  {
    if k0 < k {
      ScanKeeps(found, k0, k - 1, x);
    }
  }

  /** On fully erased flash every probe stops after one byte. */
  lemma {:induction false} BlankScanOps(g: Geometry, mem: seq<byte>, k: nat)
    requires g.Valid() && |mem| == g.Space() && k <= g.slotCount
    requires forall a :: 0 <= a < |mem| ==> mem[a] == ERASED
    ensures ScanOpsUpTo(g, mem, k) == seq(k, j requires 0 <= j => Op.Read(Addr(g, j), 1))
    ensures ScanUpTo(g, mem, k) == None
  {
    if k > 0 {
      BlankScanOps(g, mem, k - 1);
    }
  }

  /** Counting `k` one-byte reads adds `k` to the read counter and leaves the others alone. */
  lemma {:induction false} CountOneByteReads(g: Geometry, s: MeasuredStats, k: nat)
    requires g.Valid() && k <= g.slotCount && s.read + k <= USIZE_MAX
    ensures CountAll(s, seq(k, j requires 0 <= j => Op.Read(Addr(g, j), 1)))
      == MeasuredStats(s.read + k, s.write, s.erase)
  {
    if k > 0 {
      var ops := seq(k, j requires 0 <= j => Op.Read(Addr(g, j), 1));
      assert ops[..k - 1] == seq(k - 1, j requires 0 <= j => Op.Read(Addr(g, j), 1));
      CountOneByteReads(g, s, k - 1);
    }
  }

  /**
   * Scanning fully erased flash finds nothing and reads one byte per slot:
   * with 8 slots, a counting flash reports 8 bytes read, nothing written
   * and nothing erased.
   */
  lemma BlankScan(g: Geometry, mem: seq<byte>)
    requires g.Valid() && |mem| == g.Space()
    requires forall a :: 0 <= a < |mem| ==> mem[a] == ERASED
    ensures ScanResult(g, mem) == None
    ensures CountAll(MeasuredStats(0, 0, 0), ScanOps(g, mem)) == MeasuredStats(g.slotCount, 0, 0)
  {
    BlankScanOps(g, mem, g.slotCount);
    assert g.slotCount <= USIZE_MAX by {
      MulLe(1, g.slotSize, g.slotCount);
    }
    CountOneByteReads(g, MeasuredStats(0, 0, 0), g.slotCount);
  }

  /** Erasing a slot's address makes scan_slot skip that slot, on either medium. */
  lemma EraseInvalidates(g: Geometry, md: Medium, mem: seq<byte>, j: nat)
    requires g.Valid() && Fits(g, md) && |mem| == g.Space()
    ensures SlotAt(g, Apply(md, mem, Op.Erase(Addr(g, j))), j) == None
  {
    var a := Addr(g, j);
    assert Apply(md, mem, Op.Erase(a))[a] == ByteAfter(md, mem, Op.Erase(a), a);
  }

  /**
   * As written, the default erase_all erases at addresses 0 .. SLOT_COUNT-1,
   * which all lie in slot 0 when there are no more slots than bytes in a
   * slot: every other slot is left as it was.
   */
  lemma EraseAllAsWrittenKeepsSlots(g: Geometry, md: Medium, mem: seq<byte>, j: nat)
    requires g.Valid() && Fits(g, md) && |mem| == g.Space()
    requires g.slotCount <= g.slotSize && 1 <= j < g.slotCount
    ensures SlotAt(g, ApplyAll(md, mem, EraseAllOps(g.slotCount)), j) == SlotAt(g, mem, j)
  {
    var ops := EraseAllOps(g.slotCount);
    forall k | Addr(g, j) <= k < Addr(g, j) + HEADER_SIZE
      ensures ApplyAll(md, mem, ops)[k] == mem[k]
    {
      EraseAllAsWrittenAvoids(g, md, j, k);
      ApplyAllAvoids(md, mem, ops, k);
    }
    SlotAtSameHeader(g, ApplyAll(md, mem, ops), mem, j);
  }

  lemma EraseAllAsWrittenAvoids(g: Geometry, md: Medium, j: nat, k: nat)
    requires g.Valid() && Fits(g, md)
    requires g.slotCount <= g.slotSize && 1 <= j < g.slotCount
    requires Addr(g, j) <= k < Addr(g, j) + g.slotSize
    ensures Avoids(md, EraseAllOps(g.slotCount), k)
  {
    var ops := EraseAllOps(g.slotCount);
    var size := g.slotSize;
    AddrOf(g, j);
    MulLe(1, j, size);
    DivMod(1, size, 0);
    DivMono(size, k, size);
    forall e | 0 <= e < |ops|
      ensures OpAvoids(md, ops[e], k)
    {
      DivMod(0, size, e);
    }
  }

  /** Hence a savegame anywhere past slot 0 survives the as-written erase_all: scan still finds one. */
  lemma EraseAllAsWrittenLeavesSavegame(g: Geometry, md: Medium, mem: seq<byte>, j: nat)
    requires g.Valid() && Fits(g, md) && |mem| == g.Space()
    requires g.slotCount <= g.slotSize && 1 <= j < g.slotCount
    requires SlotAt(g, mem, j).Some?
    ensures ScanResult(g, ApplyAll(md, mem, EraseAllOps(g.slotCount))).Some?
  {
    EraseAllAsWrittenKeepsSlots(g, md, mem, j);
    ScanNoneIff(g, ApplyAll(md, mem, EraseAllOps(g.slotCount)));
  }

  /** Erasing every slot's address clears the first byte of every slot. */
  lemma {:induction false} SlotEraseAllErasesHeads(g: Geometry, md: Medium, mem: seq<byte>, j: nat)
    requires g.Valid() && Fits(g, md) && |mem| == g.Space() && j < g.slotCount
    ensures ApplyAll(md, mem, SlotEraseAllOps(g))[Addr(g, j)] == ERASED
  {
    var ops := SlotEraseAllOps(g);
    var a := Addr(g, j);
    assert ops == ops[..j] + [ops[j]] + ops[j + 1..];
    ApplyAllConcat(md, mem, ops[..j] + [ops[j]], ops[j + 1..]);
    ApplyAllConcat(md, mem, ops[..j], [ops[j]]);
    var m1 := ApplyAll(md, mem, ops[..j]);
    var m2 := Apply(md, m1, ops[j]);
    assert ApplyAll(md, m1, [ops[j]]) == m2;
    assert m2[a] == ByteAfter(md, m1, Op.Erase(a), a);
    ErasedStaysErased(md, m2, ops[j + 1..], a);
  }

  /** Erasing at every slot's address, as intended, leaves scan nothing to find. */
  lemma SlotEraseAllClears(g: Geometry, md: Medium, mem: seq<byte>)
    requires g.Valid() && Fits(g, md) && |mem| == g.Space()
    ensures ScanResult(g, ApplyAll(md, mem, SlotEraseAllOps(g))) == None
  {
    var m := ApplyAll(md, mem, SlotEraseAllOps(g));
    forall j: nat | j < g.slotCount
      ensures SlotAt(g, m, j) == None
    {
      SlotEraseAllErasesHeads(g, md, mem, j);
    }
    ScanNoneIff(g, m);
  }
}
