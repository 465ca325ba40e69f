/**
 * Where the storage engine puts things and what it reads and writes: slot
 * addresses, the chunking of a payload over consecutive slots, and the
 * exact sequence of flash calls `scan`, `read`, `write` and `erase_all`
 * issue, each as a function of the slot geometry and the flash contents.
 * The `Storage` class is proved to issue these sequences; the lemmas about
 * them live beside this module.
 */
module Layout {
  import opened Bytes
  import opened Chksums
  import opened Slots
  import opened Flash

  /** A NOR sector must be exactly one slot; byte-wise memory has no sectors. */
  predicate Fits(g: Geometry, md: Medium)
  {
    md.ByteWise? || md.sectorSize == g.slotSize
  }

  /** addr(idx): the first byte of slot `idx`, wrapping around the slot table. */
  function Addr(g: Geometry, idx: nat): (a: nat)
    requires g.Valid()
    ensures a + g.slotSize <= g.Space()
  {
    var j := idx % g.slotCount;
    MulLe(j + 1, g.slotCount, g.slotSize);
    j * g.slotSize
  }

  /** The slot after `j`, as `idx.saturating_add(1) % SLOT_COUNT`. */
  function NextIdx(g: Geometry, j: nat): (r: nat)
    requires g.Valid()
    ensures r < g.slotCount
    ensures j < g.slotCount ==> r == if j + 1 < g.slotCount then j + 1 else 0
  {
    SatAdd(j, 1) % g.slotCount
  }

  /** How many slots forward from `j` slot `s` lies. */
  function Dist(g: Geometry, j: nat, s: nat): nat
    requires g.Valid() && j < g.slotCount
  {
    if j <= s then s - j else s + g.slotCount - j
  }

  // ------------------------------------------------------- slot arithmetic

  /** The start of a slot is a multiple of the slot size, in the slot its index names modulo the table. */
  lemma AddrSlot(g: Geometry, idx: nat)
    requires g.Valid()
    ensures Addr(g, idx) % g.slotSize == 0 && Addr(g, idx) / g.slotSize == idx % g.slotCount
  {
    DivMod(idx % g.slotCount, g.slotSize, 0);
  }

  /** Slot `j` of the table starts `j` slots in. */
  lemma AddrOf(g: Geometry, j: nat)
    requires g.Valid() && j < g.slotCount
    ensures Addr(g, j) == j * g.slotSize
  {
    assert j % g.slotCount == j;
  }

  /** Byte `o` of slot `j` lies in slot `j` at offset `o`. */
  lemma Position(g: Geometry, j: nat, o: nat)
    requires g.Valid() && j < g.slotCount && o < g.slotSize
    ensures (Addr(g, j) + o) / g.slotSize == j && (Addr(g, j) + o) % g.slotSize == o
  {
    AddrOf(g, j);
    DivMod(j, g.slotSize, o);
  }

  /** Every byte of the storage area lies in some slot of the table. */
  lemma SlotOfByte(g: Geometry, k: nat)
    requires g.Valid() && k < g.Space()
    ensures k / g.slotSize < g.slotCount
    ensures Addr(g, k / g.slotSize) + k % g.slotSize == k
  {
    var s := k / g.slotSize;
    if s >= g.slotCount {
      MulLe(g.slotCount, s, g.slotSize);
      assert false;
    }
    AddrOf(g, s);
  }

  /** A run of `len` bytes from offset `off` of slot `j` that fits in the slot stays in slot `j`, at offsets from `off` on. */
  lemma CoveredInSlot(g: Geometry, j: nat, off: nat, len: nat, k: nat)
    requires g.Valid() && j < g.slotCount && off + len <= g.slotSize
    requires Covers(Addr(g, j) + off, len, k)
    ensures k / g.slotSize == j && k % g.slotSize >= off
  {
    AddrOf(g, j);
    DivMod(j, g.slotSize, k - Addr(g, j));
  }

  // ---------------------------------------------------------------- write

  /**
   * The flash calls that store `data` from offset `off` of slot `j` on:
   * write as much as fits, and if anything is left erase the next slot and
   * go on one byte into it, leaving that slot's first byte erased.
   */
  function ChunkOps(g: Geometry, j: nat, off: nat, data: seq<byte>): (ops: seq<Op>)
    requires g.Valid() && 0 < off < g.slotSize
    decreases |data|
  {
    var n := Min(g.slotSize - off, |data|);
    [Op.Write(Addr(g, j) + off, data[..n])]
      + (if n == |data| then []
         else [Op.Erase(Addr(g, NextIdx(g, j)))] + ChunkOps(g, NextIdx(g, j), 1, data[n..]))
  }

  /** The slot index the write loop holds when it stops: one past the last slot written. */
  function ChunkEnd(g: Geometry, j: nat, off: nat, data: seq<byte>): (r: nat)
    requires g.Valid() && 0 < off < g.slotSize
    ensures r < g.slotCount
    decreases |data|
  {
    var n := Min(g.slotSize - off, |data|);
    if n == |data| then NextIdx(g, j) else ChunkEnd(g, NextIdx(g, j), 1, data[n..])
  }

  /** write(i, prev, data): erase slot i, write the payload, then the header. */
  function WriteOps(g: Geometry, i: nat, prev: Chksum, data: seq<byte>): seq<Op>
    requires g.Valid()
  {
    [Op.Erase(Addr(g, i))]
      + ChunkOps(g, i, HEADER_SIZE, data)
      + [Op.Write(Addr(g, i), Slot.Create(i, prev, data).Encode())]
  }

  // ----------------------------------------------------------------- read

  /** `len` payload bytes gathered from offset `off` of slot `j` on, with the write's chunking. */
  function Gather(g: Geometry, mem: seq<byte>, j: nat, off: nat, len: nat): (r: seq<byte>)
    requires g.Valid() && 0 < off < g.slotSize && |mem| == g.Space()
    ensures |r| == len
    decreases len
  {
    if len == 0 then []
    else
      var n := Min(g.slotSize - off, len);
      var a := Addr(g, j) + off;
      mem[a..a + n] + Gather(g, mem, NextIdx(g, j), 1, len - n)
  }

  /** The reads that gather a payload: none at all for an empty one. */
  function GatherOps(g: Geometry, j: nat, off: nat, len: nat): seq<Op>
    requires g.Valid() && 0 < off < g.slotSize
    decreases len
  {
    if len == 0 then []
    else
      var n := Min(g.slotSize - off, len);
      [Op.Read(Addr(g, j) + off, n)] + GatherOps(g, NextIdx(g, j), 1, len - n)
  }

  /** The 12 bytes at the start of slot `j`. */
  function HeaderBytes(g: Geometry, mem: seq<byte>, j: nat): (r: seq<byte>)
    requires g.Valid() && |mem| == g.Space()
    ensures |r| == HEADER_SIZE
  {
    mem[Addr(g, j)..Addr(g, j) + HEADER_SIZE]
  }

  /** read(i, buf): the header's length decides; a buffer too short gives None. */
  function ReadResult(g: Geometry, mem: seq<byte>, i: nat, bufLen: nat): Option<seq<byte>>
    requires g.Valid() && |mem| == g.Space()
  {
    var h := Slot.FromBytes(i, HeaderBytes(g, mem, i));
    if bufLen < h.len then None else Some(Gather(g, mem, i, HEADER_SIZE, h.len))
  }

  function ReadOps(g: Geometry, mem: seq<byte>, i: nat, bufLen: nat): seq<Op>
    requires g.Valid() && |mem| == g.Space()
  {
    var h := Slot.FromBytes(i, HeaderBytes(g, mem, i));
    [Op.Read(Addr(g, i), HEADER_SIZE)]
      + (if bufLen < h.len then [] else GatherOps(g, i, HEADER_SIZE, h.len))
  }

  /** read_static: `size` bytes straight behind the header of slot `i`. */
  function StaticBytes(g: Geometry, mem: seq<byte>, i: nat, size: nat): (r: seq<byte>)
    requires g.Valid() && |mem| == g.Space() && size <= g.slotSize - HEADER_SIZE
    ensures |r| == size
  {
    mem[Addr(g, i) + HEADER_SIZE..Addr(g, i) + HEADER_SIZE + size]
  }

  // ----------------------------------------------------------------- scan

  /** scan_slot(j): a first byte with the top bit set skips the slot; otherwise the header must be valid. */
  function SlotAt(g: Geometry, mem: seq<byte>, j: nat): Option<Slot>
    requires g.Valid() && |mem| == g.Space()
  {
    if TopBitSet(mem[Addr(g, j)]) then None
    else
      var s := Slot.FromBytes(j, HeaderBytes(g, mem, j));
      if s.IsValid() then Some(s) else None
  }

  /** A 1-byte probe, then the other 11 header bytes unless the probe says the slot is free. */
  function ScanSlotOps(g: Geometry, mem: seq<byte>, j: nat): seq<Op>
    requires g.Valid() && |mem| == g.Space()
  {
    var a := Addr(g, j);
    [Op.Read(a, 1)] + (if TopBitSet(mem[a]) then [] else [Op.Read(a + 1, HEADER_SIZE - 1)])
  }

  /** One step of scan: a found slot is taken if nothing is held yet or if it updates what is held. */
  function ScanStep(current: Option<Slot>, found: Option<Slot>): Option<Slot>
  {
    match found
    case None => current
    case Some(s) => if current.Some? && !s.IsUpdateTo(current.value) then current else found
  }

  /** What scan_slot reports for each slot, in index order. */
  function Probes(g: Geometry, mem: seq<byte>): (r: seq<Option<Slot>>)
    requires g.Valid() && |mem| == g.Space()
    ensures |r| == g.slotCount
  {
    seq(g.slotCount, j requires 0 <= j < g.slotCount => SlotAt(g, mem, j))
  }

  /** What scan holds after the first `k` of the reports `found`. */
  function ScanOver(found: seq<Option<Slot>>, k: nat): Option<Slot>
    requires k <= |found|
  {
    if k == 0 then None else ScanStep(ScanOver(found, k - 1), found[k - 1])
  }

  /** What scan holds after probing slots 0 .. k-1. */
  function ScanUpTo(g: Geometry, mem: seq<byte>, k: nat): Option<Slot>
    requires g.Valid() && |mem| == g.Space() && k <= g.slotCount
  {
    ScanOver(Probes(g, mem), k)
  }

  function ScanResult(g: Geometry, mem: seq<byte>): Option<Slot>
    requires g.Valid() && |mem| == g.Space()
  {
    ScanUpTo(g, mem, g.slotCount)
  }

  function ScanOpsUpTo(g: Geometry, mem: seq<byte>, k: nat): seq<Op>
    requires g.Valid() && |mem| == g.Space() && k <= g.slotCount
  {
    if k == 0 then [] else ScanOpsUpTo(g, mem, k - 1) + ScanSlotOps(g, mem, k - 1)
  }

  function ScanOps(g: Geometry, mem: seq<byte>): seq<Op>
    requires g.Valid() && |mem| == g.Space()
  {
    ScanOpsUpTo(g, mem, g.slotCount)
  }

  // ------------------------------------------------------------ erase_all

  /** The default `Flash::erase_all(count)`: erase at addresses 0, 1, .., count - 1. */
  function EraseAllOps(count: nat): (ops: seq<Op>)
    ensures |ops| == count
  {
    seq(count, k requires 0 <= k => Op.Erase(k))
  }

  /** Erasing every slot: erase at the address of each slot. */
  function SlotEraseAllOps(g: Geometry): (ops: seq<Op>)
    requires g.Valid()
    ensures |ops| == g.slotCount
  {
    seq(g.slotCount, k requires 0 <= k => Op.Erase(Addr(g, k)))
  }
}
