/**
 * The storage engine's own usage scenarios on a 64-byte, 8-slot table,
 * run against each of the three mock devices: a fresh device, the `Storage`
 * built on it, the calls of the scenario, and what they return. For the
 * counting device the counters it ends with are stated as well.
 */
module Scenarios {
  import opened Bytes
  import opened Chksums
  import opened Slots
  import opened Flash
  import opened Layout
  import opened Mock
  import opened WriteFacts
  import opened Chain
  import opened Counts
  import opened ScanFacts
  import opened Storages

  /** Which mock device a scenario runs on. */
  datatype MockKind = PlainMock | SectorMock | MeasuredMock

  /** The geometry the scenarios use: 8 slots of 64 bytes. */
  const G: Geometry := Geometry(64, 8)

  /** 128 bytes of 'A', two slots' worth. */
  const BIG: seq<byte> := seq(128, _ => 65)

  /** A blank device of the kind asked for, covering the whole slot table. */
  method NewDevice(g: Geometry, kind: MockKind) returns (dev: Device)
    requires g.Valid()
    ensures DevValid(g, dev) && Blank(TableMem(g, dev)) && fresh(DevFrame(dev))
    ensures dev.Measured? <==> kind == MeasuredMock
    ensures dev.Measured? ==> dev.measured.stats == MeasuredStats(0, 0, 0)
  {
    match kind {
      case PlainMock =>
        var f := new MockFlash(g.Space());
        dev := Eeprom(f);
      case SectorMock =>
        var f := new SectorMockFlash(g.slotSize, g.slotCount);
        dev := Nor(f);
      case MeasuredMock =>
        var f := new MeasuredMockFlash(g.Space());
        dev := Measured(f);
    }
  }

  /** The counters of the device, when it counts. */
  function StatsOf(dev: Device): (r: Option<MeasuredStats>)
    reads if dev.Measured? then {dev.measured} else {}
    ensures r.Some? <==> dev.Measured?
  {
    if dev.Measured? then Some(dev.measured.stats) else None
  }

  // ------------------------------------------------- on any blank device

  /** A fresh storage engine on blank flash scans and finds nothing, reading one byte per slot. */
  method ScanBlank(g: Geometry, dev: Device) returns (r: Option<Slot>)
    requires g.Valid() && DevValid(g, dev) && Blank(TableMem(g, dev))
    modifies DevFrame(dev)
    ensures r == None
    ensures dev.Measured? ==> dev.measured.stats == CountAll(old(dev.measured.stats), ScanOps(g, old(TableMem(g, dev))))
  {
    var s := new Storage(g, dev);
    ghost var m := s.Mem();
    BlankScan(g, m);
    r := s.Scan();
    assert s.calls == ScanOps(g, m);
  }

  /** A payload appended to blank flash by a fresh storage engine is what the next scan finds. */
  method AppendThenScan(g: Geometry, dev: Device, data: seq<byte>) returns (r: Option<Slot>)
    requires g.Valid() && DevValid(g, dev) && Blank(TableMem(g, dev))
    requires |data| < U32_LIMIT && Chunks(g, HEADER_SIZE, data) <= g.slotCount
    requires dev.Measured? ==> dev.measured.stats == MeasuredStats(0, 0, 0)
    modifies DevFrame(dev)
    ensures r == Some(Slot.Create(0, Chksum.Zero(), data))
    ensures dev.Measured? ==>
              dev.measured.stats == MeasuredStats(g.slotCount + HEADER_SIZE - 1, |data| + HEADER_SIZE, Chunks(g, HEADER_SIZE, data))
  {
    var s := new Storage(g, dev);
    ghost var m := s.Mem();
    DevFits(g, dev);
    s.Append(data);
    ghost var written := WriteOps(g, 0, Chksum.Zero(), data);
    assert s.calls == written;
    BlankWriteScan(g, s.Md(), m, 0, Chksum.Zero(), data);
    ghost var m3 := s.Mem();
    r := s.Scan();
    BlankWriteScanCounts(g, s.Md(), m, 0, Chksum.Zero(), data);
    assert s.calls == written + ScanOps(g, m3);
  }

  /** A payload appended by a fresh storage engine reads back from slot 0 into a buffer long enough for it. */
  method AppendThenRead(g: Geometry, dev: Device, data: seq<byte>, bufLen: nat) returns (r: Option<seq<byte>>)
    requires g.Valid() && DevValid(g, dev)
    requires |data| < U32_LIMIT && Chunks(g, HEADER_SIZE, data) <= g.slotCount && |data| <= bufLen
    requires dev.Measured? ==> dev.measured.stats == MeasuredStats(0, 0, 0)
    modifies DevFrame(dev)
    ensures r == Some(data)
    ensures dev.Measured? ==>
              dev.measured.stats == MeasuredStats(|data| + HEADER_SIZE, |data| + HEADER_SIZE, Chunks(g, HEADER_SIZE, data))
  {
    var s := new Storage(g, dev);
    ghost var m := s.Mem();
    DevFits(g, dev);
    s.Append(data);
    ghost var written := WriteOps(g, 0, Chksum.Zero(), data);
    assert s.calls == written;
    WriteThenRead(g, s.Md(), m, 0, Chksum.Zero(), data, bufLen);
    ghost var m3 := s.Mem();
    r := s.Read(0, bufLen);
    WriteReadCounts(g, s.Md(), m, 0, Chksum.Zero(), data, bufLen);
    assert s.calls == written + ReadOps(g, m3, 0, bufLen);
  }

  /** Forces the write position of `s` back to slot 0, as a test that reaches into the engine does. */
  method Rewind(s: Storage)
    requires s.Valid() && s !in s.Frame()
    modifies s
    ensures s.Valid() && s.idx == 0 && s.prev == old(s.prev) && s.calls == old(s.calls)
    ensures s.Mem() == old(s.Mem())
  {
    s.idx := 0;
  }

  /**
   * A payload appended to blank flash moves the write position past its
   * last slot; with the position forced back to 0, scan restores it and the
   * payload's checksum.
   */
  method AppendResetScan(g: Geometry, dev: Device, data: seq<byte>) returns (idxAfterAppend: nat, idx: nat, prev: Chksum)
    requires g.Valid() && DevValid(g, dev) && Blank(TableMem(g, dev))
    requires |data| < U32_LIMIT && Chunks(g, HEADER_SIZE, data) <= g.slotCount
    requires dev.Measured? ==> dev.measured.stats == MeasuredStats(0, 0, 0)
    modifies DevFrame(dev)
    ensures idxAfterAppend == ChunkEnd(g, 0, HEADER_SIZE, data) && idx == idxAfterAppend
    ensures prev == Chksum.Hash(Chksum.Zero(), data)
    ensures dev.Measured? ==>
              dev.measured.stats == MeasuredStats(g.slotCount + HEADER_SIZE - 1, |data| + HEADER_SIZE, Chunks(g, HEADER_SIZE, data))
  {
    var s := new Storage(g, dev);
    ghost var m := s.Mem();
    DevFits(g, dev);
    s.Append(data);
    ghost var written := WriteOps(g, 0, Chksum.Zero(), data);
    assert s.calls == written;
    idxAfterAppend := s.idx;
    Rewind(s);
    ghost var x := Slot.Create(0, Chksum.Zero(), data);
    BlankWriteScan(g, s.Md(), m, 0, Chksum.Zero(), data);
    ghost var m3 := s.Mem();
    assert ScanResult(g, m3) == Some(x);
    var r := s.Scan();
    assert r == Some(x);
    BlankWriteScanCounts(g, s.Md(), m, 0, Chksum.Zero(), data);
    assert s.calls == written + ScanOps(g, m3);
    idx, prev := s.idx, s.prev;
  }

  // --------------------------------------------- the 64-byte, 8-slot table

  /** Scanning blank flash finds nothing, reading one byte per slot. */
  method EmptyScan(kind: MockKind) returns (r: Option<Slot>, stats: Option<MeasuredStats>)
    ensures r == None
    ensures stats == if kind == MeasuredMock then Some(MeasuredStats(8, 0, 0)) else None
  {
    var dev := NewDevice(G, kind);
    ghost var m := TableMem(G, dev);
    BlankScan(G, m);
    r := ScanBlank(G, dev);
    stats := StatsOf(dev);
  }

  /** "hello world" appended to blank flash is what scan then finds, in slot 0, as an update to the zero checksum. */
  method WriteScan(kind: MockKind) returns (r: Option<Slot>, stats: Option<MeasuredStats>)
    ensures r == Some(Slot(0, Chksum.Hash(Chksum.Zero(), HELLO_WORLD), 11, Chksum.Zero()))
    ensures stats == if kind == MeasuredMock then Some(MeasuredStats(19, 23, 1)) else None
  {
    var dev := NewDevice(G, kind);
    r := AppendThenScan(G, dev, HELLO_WORLD);
    stats := StatsOf(dev);
  }

  /** "hello world" appended to blank flash reads back from slot 0 into a 1024-byte buffer. */
  method WriteRead(kind: MockKind) returns (r: Option<seq<byte>>, stats: Option<MeasuredStats>)
    ensures r == Some(HELLO_WORLD)
    ensures stats == if kind == MeasuredMock then Some(MeasuredStats(23, 23, 1)) else None
  {
    var dev := NewDevice(G, kind);
    r := AppendThenRead(G, dev, HELLO_WORLD, 1024);
    stats := StatsOf(dev);
  }

  /** 128 payload bytes take the header slot and two continuation slots. */
  lemma BigChunks()
    ensures Chunks(G, HEADER_SIZE, BIG) == 3
    ensures ChunkEnd(G, 0, HEADER_SIZE, BIG) == 3
  {
    assert ChunkCount(G, 63, 13) == 1;
    assert ChunkCount(G, 63, 76) == 2;
    assert BIG[52..][63..] == BIG[115..];
    assert ChunkEnd(G, 2, 1, BIG[115..]) == 3;
    assert ChunkEnd(G, 1, 1, BIG[52..]) == 3;
  }

  /** Two slots' worth appended to blank flash moves the write position to slot 3, and scan restores it there. */
  method AppendAfterScan(kind: MockKind) returns (idxAfterAppend: nat, idx: nat, prev: Chksum, stats: Option<MeasuredStats>)
    ensures idxAfterAppend == 3 && idx == 3 && prev == Chksum.Hash(Chksum.Zero(), BIG)
    ensures stats == if kind == MeasuredMock then Some(MeasuredStats(19, 140, 3)) else None
  {
    var dev := NewDevice(G, kind);
    BigChunks();
    idxAfterAppend, idx, prev := AppendResetScan(G, dev, BIG);
    stats := StatsOf(dev);
  }
}
