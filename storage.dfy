/**
 * The savegame storage manager: a slot table over one of the mock flash
 * devices, with the index of the next free slot and the checksum of the
 * most recent savegame. Every flash call it makes is recorded in a ghost
 * log, and each operation is proved to make exactly the calls the Layout
 * module describes, so the lemmas about those call sequences (round trip,
 * power-fail safety, what scan finds) are statements about these methods.
 */
module Storages {
  import opened Bytes
  import opened Chksums
  import opened Slots
  import opened Flash
  import opened Layout
  import opened Mock
  import opened ScanFacts
  import opened WriteFacts

  /** The flash behind a storage: one of the three mock devices. */
  datatype Device = Eeprom(eeprom: MockFlash) | Nor(nor: SectorMockFlash) | Measured(measured: MeasuredMockFlash)

  /** The objects a device's calls may change. */
  function DevFrame(d: Device): set<object>
  {
    match d
    case Eeprom(f) => {f.data}
    case Nor(f) => {f.data}
    case Measured(f) => {f, f.flash.data}
  }

  /** The device's whole memory. */
  ghost function DevMem(d: Device): seq<byte>
    reads DevFrame(d)
  {
    match d
    case Eeprom(f) => f.data[..]
    case Nor(f) => f.data[..]
    case Measured(f) => f.flash.data[..]
  }

  /** How the device's writes and erases behave. */
  function DevMedium(d: Device): Medium
  {
    match d
    case Nor(f) => Sectored(f.sectorSize)
    case _ => ByteWise
  }

  /**
   * The slot table fits on the device, from address 0 on; on NOR flash a
   * slot is exactly one sector. The device may be larger than the table.
   */
  ghost predicate DevValid(g: Geometry, d: Device)
    reads DevFrame(d)
  {
    && |DevMem(d)| >= g.Space()
    && (d.Nor? ==> d.nor.Valid() && d.nor.sectorSize == g.slotSize && d.nor.sectorCount >= g.slotCount)
  }

  /** The bytes of a memory the slot table occupies. */
  function Table(g: Geometry, mem: seq<byte>): (r: seq<byte>)
  {
    if |mem| <= g.Space() then mem else mem[..g.Space()]
  }

  /** The part of the device's memory the slot table occupies. */
  ghost function TableMem(g: Geometry, d: Device): seq<byte>
    reads DevFrame(d)
  {
    Table(g, DevMem(d))
  }

  /** A call inside the table does to the table what it does to the whole memory. */
  lemma TableApply(g: Geometry, md: Medium, mem: seq<byte>, op: Op)
    requires |mem| >= g.Space()
    ensures Table(g, Apply(md, mem, op)) == Apply(md, Table(g, mem), op)
  {
    ApplyPrefix(md, mem, op, g.Space());
  }

  /** Reading inside the table reads the table. */
  lemma TableRead(g: Geometry, mem: seq<byte>, addr: nat, len: nat)
    requires |mem| >= g.Space() && addr + len <= g.Space()
    ensures Table(g, mem)[addr..addr + len] == mem[addr..addr + len]
  {
  }

  /** The devices agree with the slot table's media. */
  lemma DevFits(g: Geometry, d: Device)
    requires DevValid(g, d)
    ensures Fits(g, DevMedium(d))
  {
  }

  /** An access of `len` bytes the device accepts: inside the memory, and inside one sector on NOR flash. */
  predicate Accessible(g: Geometry, d: Device, addr: nat, len: nat)
  {
    addr + len <= g.Space() && (d.Nor? ==> 0 < d.nor.sectorSize && d.nor.InSector(addr, len))
  }

  /** Every access the storage makes, `len` bytes from offset `off` of a slot, is one the device accepts. */
  lemma SlotAccess(g: Geometry, d: Device, j: nat, off: nat, len: nat)
    requires g.Valid() && DevValid(g, d) && off < g.slotSize && off + len <= g.slotSize
    ensures Accessible(g, d, Addr(g, j) + off, len)
  {
    AddrSlot(g, j);
    DivMod(j % g.slotCount, g.slotSize, off);
    assert Addr(g, j) + off == (j % g.slotCount) * g.slotSize + off;
  }

  class Storage {
    /** SLOT_SIZE and SLOT_COUNT. */
    const g: Geometry
    const dev: Device
    /** The slot the next append writes to. */
    var idx: nat
    /** The checksum of the most recent savegame, which the next append chains to. */
    var prev: Chksum
    /** Every flash call made so far, oldest first. */
    ghost var calls: seq<Op>
    /** The counting device's counters when the storage was created. */
    ghost const stats0: MeasuredStats

    ghost function Frame(): set<object>
    {
      DevFrame(dev)
    }

    /** The slot table's bytes. */
    ghost function Mem(): seq<byte>
      reads Frame()
    {
      Table(g, DevMem(dev))
    }

    function Md(): Medium
    {
      DevMedium(dev)
    }

    /** The counting device's counters. */
    ghost function Stats(): MeasuredStats
      requires dev.Measured?
      reads dev.measured
    {
      dev.measured.stats
    }

    /** idx names a slot, prev is a valid checksum, and a counting device has counted every call. */
    ghost predicate Valid()
      reads this, Frame()
    {
      && g.Valid() && DevValid(g, dev)
      && |Mem()| == g.Space() && idx < g.slotCount && prev.IsValid()
      && (dev.Measured? ==> Stats() == CountAll(stats0, calls))
    }

    /** new(flash): no savegame yet, slot 0 next, chained to the zero checksum; the flash is not touched. */
    constructor (g: Geometry, dev: Device)
      requires g.Valid() && DevValid(g, dev)
      ensures Valid()
      ensures this.g == g && this.dev == dev
      ensures idx == 0 && prev == Chksum.Zero() && calls == []
      ensures Mem() == old(TableMem(g, dev))
      ensures dev.Measured? ==> stats0 == dev.measured.stats
    {
      this.g := g;
      this.dev := dev;
      idx := 0;
      prev := Chksum.Zero();
      calls := [];
      stats0 := if dev.Measured? then dev.measured.stats else MeasuredStats(0, 0, 0);
    }

    /** Counting one more call keeps the counters in step with the log. */
    lemma CountSnoc(s: MeasuredStats, ops: seq<Op>, op: Op)
      ensures CountAll(s, ops + [op]) == Count(CountAll(s, ops), op)
    {
      assert (ops + [op])[..|ops|] == ops;
    }

    /** Flash::read(addr, buf): `len` bytes from `addr`, logged as one read call. */
    method FlashRead(addr: nat, len: nat) returns (buf: seq<byte>)
      requires Valid() && Accessible(g, dev, addr, len)
      modifies this, Frame()
      ensures Valid() && idx == old(idx) && prev == old(prev)
      ensures Mem() == old(Mem()) && calls == old(calls) + [Op.Read(addr, len)]
      ensures buf == old(Mem())[addr..addr + len]
    {
      ghost var whole := DevMem(dev);
      match dev {
        case Eeprom(f) =>
          buf := f.Read(addr, len);
        case Nor(f) =>
          buf := f.Read(addr, len);
        case Measured(f) =>
          buf := f.Read(addr, len);
          CountSnoc(stats0, calls, Op.Read(addr, len));
      }
      TableRead(g, whole, addr, len);
      calls := calls + [Op.Read(addr, len)];
    }

    /** Flash::write(addr, data): the device's write of `bytes` at `addr`, logged as one write call. */
    method FlashWrite(addr: nat, bytes: seq<byte>)
      requires Valid() && Accessible(g, dev, addr, |bytes|)
      modifies this, Frame()
      ensures Valid() && idx == old(idx) && prev == old(prev)
      ensures Mem() == Apply(Md(), old(Mem()), Op.Write(addr, bytes))
      ensures calls == old(calls) + [Op.Write(addr, bytes)]
    {
      ghost var whole := DevMem(dev);
      match dev {
        case Eeprom(f) =>
          f.Write(addr, bytes);
        case Nor(f) =>
          f.Write(addr, bytes);
        case Measured(f) =>
          f.Write(addr, bytes);
          CountSnoc(stats0, calls, Op.Write(addr, bytes));
      }
      assert DevMem(dev) == Apply(Md(), whole, Op.Write(addr, bytes));
      TableApply(g, Md(), whole, Op.Write(addr, bytes));
      calls := calls + [Op.Write(addr, bytes)];
    }

    /** Flash::erase(addr): the device's erase at `addr`, logged as one erase call. */
    method FlashErase(addr: nat)
      requires Valid() && addr < g.Space()
      modifies this, Frame()
      ensures Valid() && idx == old(idx) && prev == old(prev)
      ensures Mem() == Apply(Md(), old(Mem()), Op.Erase(addr))
      ensures calls == old(calls) + [Op.Erase(addr)]
    {
      ghost var whole := DevMem(dev);
      match dev {
        case Eeprom(f) =>
          f.Erase(addr);
        case Nor(f) =>
          SlotOfByte(g, addr);
          DivMod(f.DivRem(addr).0, f.sectorSize, f.DivRem(addr).1);
          f.Erase(addr);
        case Measured(f) =>
          f.Erase(addr);
          CountSnoc(stats0, calls, Op.Erase(addr));
      }
      assert DevMem(dev) == Apply(Md(), whole, Op.Erase(addr));
      TableApply(g, Md(), whole, Op.Erase(addr));
      calls := calls + [Op.Erase(addr)];
    }

    /** scan_slot(j): probe the first byte, and read the rest of the header only when it may hold a savegame. */
    method ScanSlot(j: nat) returns (r: Option<Slot>)
      requires Valid()
      modifies this, Frame()
      ensures Valid() && idx == old(idx) && prev == old(prev) && Mem() == old(Mem())
      ensures r == SlotAt(g, old(Mem()), j)
      ensures calls == old(calls) + ScanSlotOps(g, old(Mem()), j)
    {
      var addr := Addr(g, j);
      SlotAccess(g, dev, j, 0, 1);
      var head := FlashRead(addr, 1);
      TopBitSetIsMask(head[0]);
      if ByteAnd(head[0], BYTE_MASK) != 0 {
        return None;
      }
      SlotAccess(g, dev, j, 1, HEADER_SIZE - 1);
      var tail := FlashRead(addr + 1, HEADER_SIZE - 1);
      assert head + tail == HeaderBytes(g, old(Mem()), j);
      var slot := Slot.FromBytes(j, head + tail);
      r := if slot.IsValid() then Some(slot) else None;
    }

    /**
     * scan(): probe every slot in index order, keep the first savegame found
     * and replace it by each later one that updates it; on success point
     * idx past the winner and prev at its checksum.
     */
    method Scan() returns (r: Option<Slot>)
      requires Valid()
      modifies this, Frame()
      ensures Valid() && Mem() == old(Mem())
      ensures r == ScanResult(g, old(Mem()))
      ensures calls == old(calls) + ScanOps(g, old(Mem()))
      ensures r.Some? ==> idx == r.value.NextSlot(g) && prev == r.value.chksum
      ensures r.None? ==> idx == old(idx) && prev == old(prev)
    {
      ghost var mem, log0 := Mem(), calls;
      var current: Option<Slot> := None;
      for j := 0 to g.slotCount
        invariant Valid() && Mem() == mem && idx == old(idx) && prev == old(prev)
        invariant current == ScanUpTo(g, mem, j)
        invariant calls == log0 + ScanOpsUpTo(g, mem, j)
      {
        ghost var current0, log1 := current, calls;
        var found := ScanSlot(j);
        if found.Some? {
          if current.Some? {
            if found.value.IsUpdateTo(current.value) {
              current := found;
            }
          } else {
            current := found;
          }
        }
        ScanAdvance(g, mem, j, current0, found, current, log0, log1, calls);
      }
      if current.Some? {
        ScanWinnerValid(g, mem);
        idx := current.value.NextSlot(g);
        prev := current.value.chksum;
      }
      r := current;
    }

    /** erase(i): mark slot i unused by erasing at its address. */
    method Erase(i: nat)
      requires Valid()
      modifies this, Frame()
      ensures Valid() && idx == old(idx) && prev == old(prev)
      ensures Mem() == Apply(Md(), old(Mem()), Op.Erase(Addr(g, i)))
      ensures calls == old(calls) + [Op.Erase(Addr(g, i))]
    {
      FlashErase(Addr(g, i));
    }

    /** The default Flash::erase_all(count): erase at addresses 0, 1, .., count - 1. */
    method FlashEraseAll(count: nat)
      requires Valid() && count <= g.Space()
      modifies this, Frame()
      ensures Valid() && idx == old(idx) && prev == old(prev)
      ensures Mem() == ApplyAll(Md(), old(Mem()), EraseAllOps(count))
      ensures calls == old(calls) + EraseAllOps(count)
    {
      for k := 0 to count
        invariant Valid() && idx == old(idx) && prev == old(prev)
        invariant Mem() == ApplyAll(Md(), old(Mem()), EraseAllOps(k))
        invariant calls == old(calls) + EraseAllOps(k)
      {
        FlashErase(k);
        assert EraseAllOps(k + 1) == EraseAllOps(k) + [Op.Erase(k)];
        ApplyAllSnoc(Md(), old(Mem()), EraseAllOps(k), Op.Erase(k));
      }
    }

    /**
     * erase_all() as written: reset idx and prev, then Flash::erase_all
     * with the slot count, which erases byte addresses rather than slots.
     */
    method EraseAll()
      requires Valid()
      modifies this, Frame()
      ensures Valid() && idx == 0 && prev == Chksum.Zero()
      ensures Mem() == ApplyAll(Md(), old(Mem()), EraseAllOps(g.slotCount))
      ensures calls == old(calls) + EraseAllOps(g.slotCount)
    {
      idx := 0;
      prev := Chksum.Zero();
      MulLe(1, g.slotSize, g.slotCount);
      FlashEraseAll(g.slotCount);
    }

    /** erase_all() as intended: reset idx and prev, then erase at the address of every slot. */
    method EraseAllSlots()
      requires Valid()
      modifies this, Frame()
      ensures Valid() && idx == 0 && prev == Chksum.Zero()
      ensures Mem() == ApplyAll(Md(), old(Mem()), SlotEraseAllOps(g))
      ensures calls == old(calls) + SlotEraseAllOps(g)
    {
      idx := 0;
      prev := Chksum.Zero();
      for k := 0 to g.slotCount
        invariant Valid() && idx == 0 && prev == Chksum.Zero()
        invariant Mem() == ApplyAll(Md(), old(Mem()), SlotEraseAllOps(g)[..k])
        invariant calls == old(calls) + SlotEraseAllOps(g)[..k]
      {
        Erase(k);
        assert SlotEraseAllOps(g)[..k + 1] == SlotEraseAllOps(g)[..k] + [Op.Erase(Addr(g, k))];
        ApplyAllSnoc(Md(), old(Mem()), SlotEraseAllOps(g)[..k], Op.Erase(Addr(g, k)));
      }
      assert SlotEraseAllOps(g)[..g.slotCount] == SlotEraseAllOps(g);
    }

    /**
     * read(i, buf): read the header of slot i; if the buffer is shorter than
     * the savegame give None, else read the payload with write's chunking.
     */
    method Read(i: nat, bufLen: nat) returns (r: Option<seq<byte>>)
      requires Valid()
      modifies this, Frame()
      ensures Valid() && idx == old(idx) && prev == old(prev) && Mem() == old(Mem())
      ensures r == ReadResult(g, old(Mem()), i, bufLen)
      ensures calls == old(calls) + ReadOps(g, old(Mem()), i, bufLen)
    {
      ghost var m0 := Mem();
      var addr := Addr(g, i);
      SlotAccess(g, dev, i, 0, HEADER_SIZE);
      var header := FlashRead(addr, HEADER_SIZE);
      assert header == HeaderBytes(g, m0, i);
      var slot := Slot.FromBytes(i, header);
      if bufLen < slot.len {
        return None;
      }
      var out := ReadChunks(i, slot.len);
      r := Some(out);
    }

    /** The loop of read: `len` payload bytes from 12 bytes into slot i on, as write laid them out. */
    method ReadChunks(i: nat, len: nat) returns (out: seq<byte>)
      requires Valid()
      modifies this, Frame()
      ensures Valid() && idx == old(idx) && prev == old(prev) && Mem() == old(Mem())
      ensures out == Gather(g, old(Mem()), i, HEADER_SIZE, len)
      ensures calls == old(calls) + GatherOps(g, i, HEADER_SIZE, len)
    {
      ghost var mem, log1 := Mem(), calls;
      ghost var off := HEADER_SIZE;
      ghost var done: seq<Op> := [];
      var j := i;
      var addr := Addr(g, i) + HEADER_SIZE;
      out := [];
      var remaining: nat := len;
      var remainingSpace: nat := g.slotSize - HEADER_SIZE;
      while remaining > 0
        invariant Valid() && idx == old(idx) && prev == old(prev) && Mem() == mem
        invariant 0 < off < g.slotSize && remainingSpace == g.slotSize - off && addr == Addr(g, j) + off
        invariant GatherLeft(g, mem, i, len, out, done, j, off, remaining)
        invariant calls == log1 + done
        decreases remaining
      {
        ghost var out0, done0, j0, off0, remaining0, addr0, calls0 := out, done, j, off, remaining, addr, calls;
        var readSize := Min(remainingSpace, remaining);
        SlotAccess(g, dev, j, off, readSize);
        var chunk := FlashRead(addr, readSize);
        out := out + chunk;
        done := done + [Op.Read(addr, readSize)];
        remaining := remaining - readSize;
        j := NextIdx(g, j);
        addr := Addr(g, j) + 1;
        remainingSpace := g.slotSize - 1;
        off := 1;
        GatherStep(g, mem, i, len, out0, done0, j0, off0, remaining0, addr0, readSize, chunk, out, done, j);
        LogStep(log1, done0, calls0, Op.Read(addr0, readSize), done, calls);
      }
      GatherDone(g, mem, i, len, out, done, j, off);
    }

    /** read_static(i, buf): `size` bytes straight behind the header of slot i, in one read. */
    method ReadStatic(i: nat, size: nat) returns (buf: seq<byte>)
      requires Valid() && size <= g.slotSize - HEADER_SIZE
      modifies this, Frame()
      ensures Valid() && idx == old(idx) && prev == old(prev) && Mem() == old(Mem())
      ensures buf == StaticBytes(g, old(Mem()), i, size)
      ensures calls == old(calls) + [Op.Read(Addr(g, i) + HEADER_SIZE, size)]
    {
      SlotAccess(g, dev, i, HEADER_SIZE, size);
      buf := FlashRead(Addr(g, i) + HEADER_SIZE, size);
    }

    /**
     * write(i, prev, data): erase slot i, write the payload behind the
     * header position and on into the following slots, then the header;
     * return the slot after the savegame and its checksum.
     */
    method Write(i: nat, prevSum: Chksum, data: seq<byte>) returns (next: nat, sum: Chksum)
      requires Valid()
      modifies this, Frame()
      ensures Valid() && idx == old(idx) && prev == old(prev)
      ensures Mem() == ApplyAll(Md(), old(Mem()), WriteOps(g, i, prevSum, data))
      ensures calls == old(calls) + WriteOps(g, i, prevSum, data)
      ensures next == ChunkEnd(g, i, HEADER_SIZE, data)
      ensures sum == Chksum.Hash(prevSum, data)
    {
      ghost var m0, log0 := Mem(), calls;
      var slot := Slot.Create(i, prevSum, data);
      var slotAddr := Addr(g, i);
      FlashErase(slotAddr);
      next := WriteChunks(i, data);
      var bytes := slot.ToBytes();
      SlotAccess(g, dev, i, 0, HEADER_SIZE);
      FlashWrite(slotAddr, bytes);
      WriteOpsApply(g, Md(), m0, i, prevSum, data);
      WriteLog(g, i, prevSum, data, log0);
      sum := slot.chksum;
    }

    /** Flash::write as one more call after `done`, which began on memory `m1` with log `log1`. */
    method LoggedWrite(ghost m1: seq<byte>, ghost log1: seq<Op>, ghost done: seq<Op>, addr: nat, bytes: seq<byte>)
      requires Valid() && Accessible(g, dev, addr, |bytes|)
      requires Mem() == ApplyAll(Md(), m1, done) && calls == log1 + done
      modifies this, Frame()
      ensures Valid() && idx == old(idx) && prev == old(prev)
      ensures Mem() == ApplyAll(Md(), m1, done + [Op.Write(addr, bytes)])
      ensures calls == log1 + (done + [Op.Write(addr, bytes)])
    {
      ghost var calls0 := calls;
      FlashWrite(addr, bytes);
      ApplyAllSnoc(Md(), m1, done, Op.Write(addr, bytes));
      LogStep(log1, done, calls0, Op.Write(addr, bytes), done + [Op.Write(addr, bytes)], calls);
    }

    /** Flash::erase as one more call after `done`, which began on memory `m1` with log `log1`. */
    method LoggedErase(ghost m1: seq<byte>, ghost log1: seq<Op>, ghost done: seq<Op>, addr: nat)
      requires Valid() && addr < g.Space()
      requires Mem() == ApplyAll(Md(), m1, done) && calls == log1 + done
      modifies this, Frame()
      ensures Valid() && idx == old(idx) && prev == old(prev)
      ensures Mem() == ApplyAll(Md(), m1, done + [Op.Erase(addr)])
      ensures calls == log1 + (done + [Op.Erase(addr)])
    {
      ghost var calls0 := calls;
      FlashErase(addr);
      ApplyAllSnoc(Md(), m1, done, Op.Erase(addr));
      LogStep(log1, done, calls0, Op.Erase(addr), done + [Op.Erase(addr)], calls);
    }

    /**
     * The loop of write: the payload from 12 bytes into slot i on, as much
     * as fits in each slot; each further slot is erased first and written
     * from its second byte, so its first byte stays erased.
     */
    method WriteChunks(i: nat, data: seq<byte>) returns (next: nat)
      requires Valid()
      modifies this, Frame()
      ensures Valid() && idx == old(idx) && prev == old(prev)
      ensures Mem() == ApplyAll(Md(), old(Mem()), ChunkOps(g, i, HEADER_SIZE, data))
      ensures calls == old(calls) + ChunkOps(g, i, HEADER_SIZE, data)
      ensures next == ChunkEnd(g, i, HEADER_SIZE, data)
    {
      ghost var m1, log1 := Mem(), calls;
      ghost var off := HEADER_SIZE;
      ghost var done: seq<Op> := [];
      var addr := Addr(g, i) + HEADER_SIZE;
      var remainingSpace: nat := g.slotSize - HEADER_SIZE;
      var rest := data;
      next := i;
      while true
        invariant Valid() && idx == old(idx) && prev == old(prev)
        invariant 0 < off < g.slotSize && remainingSpace == g.slotSize - off && addr == Addr(g, next) + off
        invariant ChunksLeft(g, i, data, done, next, off, rest)
        invariant Mem() == ApplyAll(Md(), m1, done) && calls == log1 + done
        decreases |rest|
      {
        ghost var done0, next0, off0, rest0 := done, next, off, rest;
        var writeSize := Min(remainingSpace, |rest|);
        SlotAccess(g, dev, next, off, writeSize);
        LoggedWrite(m1, log1, done, addr, rest[..writeSize]);
        done := done + [Op.Write(addr, rest[..writeSize])];
        rest := rest[writeSize..];
        next := NextIdx(g, next);
        if |rest| == 0 {
          ChunksLast(g, i, data, done0, next0, off0, rest0, writeSize, done, next);
          break;
        }
        addr := Addr(g, next);
        LoggedErase(m1, log1, done, addr);
        done := done + [Op.Erase(addr)];
        addr := addr + 1;
        remainingSpace := g.slotSize - 1;
        off := 1;
        ChunksStep(g, i, data, done0, next0, off0, rest0, writeSize, done, next, rest);
      }
    }

    /**
     * append(data): write the savegame at idx, chained to prev, and move
     * idx and prev on to the slot after it and its checksum.
     */
    method Append(data: seq<byte>)
      requires Valid()
      modifies this, Frame()
      ensures Valid()
      ensures Mem() == ApplyAll(Md(), old(Mem()), WriteOps(g, old(idx), old(prev), data))
      ensures calls == old(calls) + WriteOps(g, old(idx), old(prev), data)
      ensures idx == ChunkEnd(g, old(idx), HEADER_SIZE, data)
      ensures |data| < U32_LIMIT ==> idx == Slot.Create(old(idx), old(prev), data).NextSlot(g)
      ensures prev == Chksum.Hash(old(prev), data)
    {
      var next, sum := Write(idx, prev, data);
      if |data| < U32_LIMIT {
        WriteEndIsNextSlot(g, idx, prev, data);
      }
      idx := next;
      prev := sum;
    }
  }

  /** What is left of read's loop: the bytes and reads so far followed by those still to come make up the whole payload and its reads. */
  ghost predicate GatherLeft(g: Geometry, mem: seq<byte>, i: nat, len: nat, out: seq<byte>, done: seq<Op>, j: nat, off: nat, rem: nat)
    requires g.Valid() && |mem| == g.Space() && 0 < off < g.slotSize
  {
    && out + Gather(g, mem, j, off, rem) == Gather(g, mem, i, HEADER_SIZE, len)
    && done + GatherOps(g, j, off, rem) == GatherOps(g, i, HEADER_SIZE, len)
  }

  /** One pass of read's loop moves the next chunk and its read from what is to come to what is done. */
  lemma GatherStep(g: Geometry, mem: seq<byte>, i: nat, len: nat, out: seq<byte>, done: seq<Op>, j: nat, off: nat, rem: nat,
                   addr: nat, n: nat, chunk: seq<byte>, out': seq<byte>, done': seq<Op>, j': nat)
    requires g.Valid() && |mem| == g.Space() && 0 < off < g.slotSize && 0 < rem
    requires GatherLeft(g, mem, i, len, out, done, j, off, rem)
    requires addr == Addr(g, j) + off && n == Min(g.slotSize - off, rem) && j' == NextIdx(g, j)
    requires addr + n <= |mem| && chunk == mem[addr..addr + n]
    requires out' == out + chunk && done' == done + [Op.Read(addr, n)]
    ensures GatherLeft(g, mem, i, len, out', done', j', 1, rem - n)
  {
    ChunkGathered(g, mem, j, off, rem, addr, n, chunk, out, out', Gather(g, mem, i, HEADER_SIZE, len));
    ReadIssued(g, j, off, rem, addr, n, done, done', GatherOps(g, i, HEADER_SIZE, len));
  }

  /** The bytes of the next chunk move from what is left to gather to what is gathered. */
  lemma ChunkGathered(g: Geometry, mem: seq<byte>, j: nat, off: nat, rem: nat,
                      addr: nat, n: nat, chunk: seq<byte>, out: seq<byte>, out': seq<byte>, whole: seq<byte>)
    requires g.Valid() && |mem| == g.Space() && 0 < off < g.slotSize && 0 < rem
    requires out + Gather(g, mem, j, off, rem) == whole
    requires addr == Addr(g, j) + off && n == Min(g.slotSize - off, rem)
    requires addr + n <= |mem| && chunk == mem[addr..addr + n] && out' == out + chunk
    ensures out' + Gather(g, mem, NextIdx(g, j), 1, rem - n) == whole
  {
    GatherUnfold(g, mem, j, off, rem);
    Shift(out, chunk, Gather(g, mem, NextIdx(g, j), 1, rem - n), out');
  }

  /** The read of the next chunk moves from the reads to come to the reads done. */
  lemma ReadIssued(g: Geometry, j: nat, off: nat, rem: nat, addr: nat, n: nat, done: seq<Op>, done': seq<Op>, whole: seq<Op>)
    requires g.Valid() && 0 < off < g.slotSize && 0 < rem
    requires done + GatherOps(g, j, off, rem) == whole
    requires addr == Addr(g, j) + off && n == Min(g.slotSize - off, rem) && done' == done + [Op.Read(addr, n)]
    ensures done' + GatherOps(g, NextIdx(g, j), 1, rem - n) == whole
  {
    Shift(done, [Op.Read(addr, n)], GatherOps(g, NextIdx(g, j), 1, rem - n), done');
  }

  /** Moving a piece from the front of what is to come to the end of what is done keeps the whole. */
  lemma Shift<T>(done: seq<T>, piece: seq<T>, rest: seq<T>, done': seq<T>)
    requires done' == done + piece
    ensures done + (piece + rest) == done' + rest
  {
  }

  /** A call appended to the log is appended to the calls a loop has made so far. */
  lemma LogStep(log: seq<Op>, done: seq<Op>, calls: seq<Op>, op: Op, done': seq<Op>, calls': seq<Op>)
    requires calls == log + done && done' == done + [op] && calls' == calls + [op]
    ensures calls' == log + done'
  {
  }

  /** When nothing is left, read's loop has gathered the whole payload with the whole of its reads. */
  lemma GatherDone(g: Geometry, mem: seq<byte>, i: nat, len: nat, out: seq<byte>, done: seq<Op>, j: nat, off: nat)
    requires g.Valid() && |mem| == g.Space() && 0 < off < g.slotSize
    requires GatherLeft(g, mem, i, len, out, done, j, off, 0)
    ensures out == Gather(g, mem, i, HEADER_SIZE, len) && done == GatherOps(g, i, HEADER_SIZE, len)
  {
    assert out + [] == out && done + [] == done;
  }

  /** What is left of write's loop: the calls so far followed by those still to come make up the whole chunking, which ends at the same slot. */
  ghost predicate ChunksLeft(g: Geometry, i: nat, data: seq<byte>, done: seq<Op>, j: nat, off: nat, rest: seq<byte>)
    requires g.Valid() && 0 < off < g.slotSize
  {
    && done + ChunkOps(g, j, off, rest) == ChunkOps(g, i, HEADER_SIZE, data)
    && ChunkEnd(g, j, off, rest) == ChunkEnd(g, i, HEADER_SIZE, data)
  }

  /**
   * A pass of write's loop that leaves data over: with its write of `n`
   * bytes and the erase of the next slot done, what is left starts one
   * byte into the next slot.
   */
  lemma ChunksStep(g: Geometry, i: nat, data: seq<byte>, done: seq<Op>, j: nat, off: nat, rest: seq<byte>,
                   n: nat, done': seq<Op>, j': nat, rest': seq<byte>)
    requires g.Valid() && 0 < off < g.slotSize && ChunksLeft(g, i, data, done, j, off, rest)
    requires n == Min(g.slotSize - off, |rest|) && n < |rest| && j' == NextIdx(g, j) && rest' == rest[n..]
    requires done' == done + [Op.Write(Addr(g, j) + off, rest[..n])] + [Op.Erase(Addr(g, j'))]
    ensures ChunksLeft(g, i, data, done', j', 1, rest')
  {
    var w, e := Op.Write(Addr(g, j) + off, rest[..n]), Op.Erase(Addr(g, j'));
    assert ChunkOps(g, j, off, rest) == [w] + ([e] + ChunkOps(g, j', 1, rest'));
    assert done + ([w] + ([e] + ChunkOps(g, j', 1, rest'))) == done' + ChunkOps(g, j', 1, rest');
  }

  /** The pass of write's loop that writes the last of the data completes the chunking and stops at its end. */
  lemma ChunksLast(g: Geometry, i: nat, data: seq<byte>, done: seq<Op>, j: nat, off: nat, rest: seq<byte>,
                   n: nat, done': seq<Op>, j': nat)
    requires g.Valid() && 0 < off < g.slotSize && ChunksLeft(g, i, data, done, j, off, rest)
    requires n == Min(g.slotSize - off, |rest|) && n == |rest| && j' == NextIdx(g, j)
    requires done' == done + [Op.Write(Addr(g, j) + off, rest[..n])]
    ensures done' == ChunkOps(g, i, HEADER_SIZE, data) && j' == ChunkEnd(g, i, HEADER_SIZE, data)
  {
    assert ChunkOps(g, j, off, rest) == [Op.Write(Addr(g, j) + off, rest[..n])] + [];
  }

  /** write's calls: the erase, then the chunk loop's, then the header. */
  lemma WriteLog(g: Geometry, i: nat, prev: Chksum, data: seq<byte>, log: seq<Op>)
    requires g.Valid()
    ensures log + [Op.Erase(Addr(g, i))] + ChunkOps(g, i, HEADER_SIZE, data) + [Op.Write(Addr(g, i), Slot.Create(i, prev, data).Encode())]
      == log + WriteOps(g, i, prev, data)
  {
  }

  /** One pass of scan's loop: slot j's report folded into what is held, and its probe reads appended to the log. */
  lemma ScanAdvance(g: Geometry, mem: seq<byte>, j: nat, current: Option<Slot>, found: Option<Slot>, current': Option<Slot>,
                    log0: seq<Op>, log1: seq<Op>, log2: seq<Op>)
    requires g.Valid() && |mem| == g.Space() && j < g.slotCount
    requires current == ScanUpTo(g, mem, j) && found == SlotAt(g, mem, j) && current' == ScanStep(current, found)
    requires log1 == log0 + ScanOpsUpTo(g, mem, j) && log2 == log1 + ScanSlotOps(g, mem, j)
    ensures current' == ScanUpTo(g, mem, j + 1)
    ensures log2 == log0 + ScanOpsUpTo(g, mem, j + 1)
  {
    assert Probes(g, mem)[j] == found;
  }

  /** scan's winner is a valid header at its own slot. */
  lemma ScanWinnerValid(g: Geometry, mem: seq<byte>)
    requires g.Valid() && |mem| == g.Space() && ScanResult(g, mem).Some?
    ensures ScanResult(g, mem).value.IsValid()
  {
    ScanWinner(g, mem);
  }
}
