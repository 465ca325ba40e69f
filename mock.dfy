/**
 * The mock flash devices: an EEPROM-like byte array, a NOR-like array of
 * sectors, and a wrapper around the byte array that counts the bytes read
 * and written and the erases issued. Each starts fully erased. Each
 * operation is specified both directly on the array and by the `Flash`
 * semantics it implements.
 */
module Mock {
  import opened Bytes
  import opened Flash

  /** Byte-addressable flash: writes overwrite, an erase resets one byte. */
  class MockFlash {
    const data: array<byte>

    constructor (size: nat)
      ensures data.Length == size
      ensures forall k :: 0 <= k < size ==> data[k] == ERASED
      ensures fresh(data)
    {
      data := new byte[size](_ => ERASED);
    }

    method Read(addr: nat, len: nat) returns (buf: seq<byte>)
      requires addr + len <= data.Length
      ensures buf == data[addr..addr + len]
    {
      buf := data[addr..addr + len];
    }

    method Write(addr: nat, bytes: seq<byte>)
      requires addr + |bytes| <= data.Length
      modifies data
      ensures data[addr..addr + |bytes|] == bytes
      ensures forall k :: 0 <= k < data.Length && !Covers(addr, |bytes|, k) ==> data[k] == old(data[k])
      ensures data[..] == Apply(ByteWise, old(data[..]), Op.Write(addr, bytes))
    {
      forall k | addr <= k < addr + |bytes| {
        data[k] := bytes[k - addr];
      }
    }

    method Erase(addr: nat)
      requires addr < data.Length
      modifies data
      ensures data[addr] == ERASED
      ensures forall k :: 0 <= k < data.Length && k != addr ==> data[k] == old(data[k])
      ensures data[..] == Apply(ByteWise, old(data[..]), Op.Erase(addr))
    {
      data[addr] := ERASED;
    }
  }

  /**
   * NOR-like flash of `sectorCount` sectors of `sectorSize` bytes, kept end
   * to end in one array: sector `s` is `data[s * sectorSize..(s + 1) * sectorSize]`.
   * A write ANDs bits in and must stay inside one sector; an erase resets
   * a whole sector.
   */
  class SectorMockFlash {
    const sectorSize: nat
    const sectorCount: nat
    const data: array<byte>

    predicate Valid()
    {
      0 < sectorSize && data.Length == sectorSize * sectorCount
    }

    constructor (sectorSize: nat, sectorCount: nat)
      requires 0 < sectorSize
      ensures Valid()
      ensures this.sectorSize == sectorSize && this.sectorCount == sectorCount
      ensures forall k :: 0 <= k < data.Length ==> data[k] == ERASED
      ensures fresh(data)
    {
      this.sectorSize := sectorSize;
      this.sectorCount := sectorCount;
      data := new byte[sectorSize * sectorCount](_ => ERASED);
    }

    /** The sector holding `addr` and the offset of `addr` inside it. */
    function DivRem(addr: nat): (r: (nat, nat))
      requires 0 < sectorSize
      ensures r.0 * sectorSize + r.1 == addr && r.1 < sectorSize
    {
      (addr / sectorSize, addr % sectorSize)
    }

    /** The access of `len` bytes at `addr` stays inside an existing sector. */
    predicate InSector(addr: nat, len: nat)
      requires 0 < sectorSize
    {
      DivRem(addr).0 < sectorCount && DivRem(addr).1 + len <= sectorSize
    }

    lemma InSectorBounds(addr: nat, len: nat)
      requires Valid() && InSector(addr, len)
      ensures addr + len <= data.Length
    {
      MulLe(DivRem(addr).0 + 1, sectorCount, sectorSize);
    }

    lemma InSectorSame(addr: nat, len: nat)
      requires 0 < sectorSize && InSector(addr, len)
      ensures forall k :: addr <= k < addr + len ==> k / sectorSize == addr / sectorSize
    {
      var s := DivRem(addr).0;
      forall k | addr <= k < addr + len
        ensures k / sectorSize == addr / sectorSize
      {
        DivRange(k, sectorSize, s);
      }
    }

    method Read(addr: nat, len: nat) returns (buf: seq<byte>)
      requires Valid() && InSector(addr, len)
      ensures addr + len <= data.Length && buf == data[addr..addr + len]
    {
      InSectorBounds(addr, len);
      var sector, offset := DivRem(addr).0, DivRem(addr).1;
      var start := sector * sectorSize + offset;
      assert start == addr;
      buf := data[start..start + len];
    }

    method Write(addr: nat, bytes: seq<byte>)
      requires Valid() && InSector(addr, |bytes|)
      modifies data
      ensures addr + |bytes| <= data.Length
      ensures forall k :: addr <= k < addr + |bytes| ==> data[k] == ByteAnd(old(data[k]), bytes[k - addr])
      ensures forall k :: 0 <= k < data.Length && !Covers(addr, |bytes|, k) ==> data[k] == old(data[k])
      ensures forall k :: 0 <= k < data.Length && data[k] != old(data[k]) ==> k / sectorSize == addr / sectorSize
      ensures data[..] == Apply(Sectored(sectorSize), old(data[..]), Op.Write(addr, bytes))
    {
      InSectorBounds(addr, |bytes|);
      InSectorSame(addr, |bytes|);
      var sector, offset := DivRem(addr).0, DivRem(addr).1;
      var start := sector * sectorSize + offset;
      assert start == addr;
      for i := 0 to |bytes|
        invariant forall k :: 0 <= k < data.Length ==>
          data[k] == if start <= k < start + i then ByteAnd(old(data[k]), bytes[k - start]) else old(data[k])
      {
        data[start + i] := ByteAnd(data[start + i], bytes[i]);
      }
    }

    method Erase(addr: nat)
      requires Valid() && DivRem(addr).0 < sectorCount
      modifies data
      ensures forall k :: 0 <= k < data.Length ==>
        data[k] == if k / sectorSize == addr / sectorSize then ERASED else old(data[k])
      ensures data[..] == Apply(Sectored(sectorSize), old(data[..]), Op.Erase(addr))
    {
      var (sector, _) := DivRem(addr);
      var start := sector * sectorSize;
      forall k | start <= k < start + sectorSize && k < data.Length {
        data[k] := ERASED;
      }
      forall k | 0 <= k < data.Length
        ensures data[k] == if k / sectorSize == addr / sectorSize then ERASED else old(data[k])
      {
        DivRange(k, sectorSize, sector);
      }
    }
  }

  /** Bytes read, bytes written and erases issued so far. */
  datatype MeasuredStats = MeasuredStats(read: nat, write: nat, erase: nat)

  /** The counters after one more call, each a usize that saturates. */
  function Count(s: MeasuredStats, op: Op): MeasuredStats
  {
    match op
    case Read(_, len) => s.(read := SatAdd(s.read, len))
    case Write(_, b) => s.(write := SatAdd(s.write, |b|))
    case Erase(_) => s.(erase := SatAdd(s.erase, 1))
  }

  /** The counters after a sequence of calls. */
  function CountAll(s: MeasuredStats, ops: seq<Op>): MeasuredStats
    decreases |ops|
  {
    if |ops| == 0 then s else Count(CountAll(s, ops[..|ops| - 1]), ops[|ops| - 1])
  }

  /** A MockFlash that counts what passes through it. */
  class MeasuredMockFlash {
    const flash: MockFlash
    var stats: MeasuredStats

    constructor (size: nat)
      ensures stats == MeasuredStats(0, 0, 0)
      ensures flash.data.Length == size
      ensures forall k :: 0 <= k < size ==> flash.data[k] == ERASED
      ensures fresh(flash) && fresh(flash.data)
    {
      flash := new MockFlash(size);
      stats := MeasuredStats(0, 0, 0);
    }

    method Read(addr: nat, len: nat) returns (buf: seq<byte>)
      requires addr + len <= flash.data.Length
      modifies this
      ensures stats == old(stats).(read := SatAdd(old(stats).read, len))
      ensures stats == Count(old(stats), Op.Read(addr, len))
      ensures buf == flash.data[addr..addr + len]
    {
      stats := stats.(read := SatAdd(stats.read, len));
      buf := flash.Read(addr, len);
    }

    method Write(addr: nat, bytes: seq<byte>)
      requires addr + |bytes| <= flash.data.Length
      modifies this, flash.data
      ensures stats == old(stats).(write := SatAdd(old(stats).write, |bytes|))
      ensures stats == Count(old(stats), Op.Write(addr, bytes))
      ensures flash.data[..] == Apply(ByteWise, old(flash.data[..]), Op.Write(addr, bytes))
    {
      stats := stats.(write := SatAdd(stats.write, |bytes|));
      flash.Write(addr, bytes);
    }

    method Erase(addr: nat)
      requires addr < flash.data.Length
      modifies this, flash.data
      ensures stats == old(stats).(erase := SatAdd(old(stats).erase, 1))
      ensures stats == Count(old(stats), Op.Erase(addr))
      ensures flash.data[..] == Apply(ByteWise, old(flash.data[..]), Op.Erase(addr))
    {
      stats := stats.(erase := SatAdd(stats.erase, 1));
      flash.Erase(addr);
    }
  }
}
