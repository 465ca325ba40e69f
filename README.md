# embedded-savegame, modelled in Dafny

This project models the core of the `embedded-savegame` crate: a savegame
store for small flash chips and EEPROMs. The store keeps a table of
`SLOT_COUNT` slots of `SLOT_SIZE` bytes each. Every savegame goes into the
next slot in rotation: a 12-byte header followed by the payload. A payload
longer than one slot spills into the following slots. Every such
continuation slot is erased first and written from its second byte on, so
its first byte stays erased. The header holds three fields: the savegame's
own checksum, the payload length, and the checksum of the savegame it
updates. Each checksum is a 31-bit djb2 hash chained over the predecessor.
The header is written last. At start-up, `scan` probes every slot and
follows the chain of updates to the newest savegame.

The model follows the source file by file:

- `bytes.dfy` (`Bytes`): machine integers as the crate uses them. It covers
  big-endian `u32` encoding, the bitwise AND, and the `usize` saturating
  add and `div_ceil`.
- `chksum.dfy` (`Chksums`): the `Chksum` value, its mask, its validity and
  its 4-byte codec. It also proves the crate's test vectors.
- `slot.dfy` (`Slots`): the `Slot` header: `create`, `used_bytes`,
  `next_slot`, `to_bytes` and `from_bytes`. It also holds `Geometry`, the
  pair `(slotSize, slotCount)` that replaces the const generics.
- `flash.dfy` (`Flash`): the effect of a read, write or erase call on the
  whole memory, as pure functions. There are two media: byte-wise memory,
  and NOR flash whose writes AND into the bytes and whose erases clear a
  whole sector.
- `mock.dfy` (`Mock`): the three test devices as classes over arrays:
  `MockFlash`, `SectorMockFlash` and the counting `MeasuredMockFlash`. Each
  one is proved against `Flash`.
- `layout.dfy` (`Layout`): slot addresses. It also gives the calls
  `write`, `read` and `scan` make, and what they return, as functions of
  the memory.
- `write.dfy` (`WriteFacts`), `scan.dfy` (`ScanFacts`), `chain.dfy`
  (`Chain`) and `counts.dfy` (`Counts`): the properties of those
  functions. They cover read-back after write, the order of write's
  calls, power-fail safety, and which savegame scan returns. They also
  give the exact counters the counting device ends with.
- `powerloss.dfy` (`PowerLoss`): power-fail safety as scan sees it. A
  write stopped after any of its flash calls before the header leaves the
  savegame scan found before as what the next scan finds.
- `storage.dfy` (`Storages`): the `Storage` engine as a class. Its fields
  are `idx` and `prev`, plus a ghost log of every flash call. Each method
  is proved against the functions of `Layout`.
- `scenarios.dfy` (`Scenarios`): some of the crate's storage tests, each
  stated for all three devices: scan of empty flash, `write_scan`,
  `write_read` and `append_after_scan`. Three tests are not restated:
  the raw header read of `test_storage_write` (src/storage.rs:365-383),
  `wrap_around` (src/storage.rs:467-511) and `big_write`
  (src/storage.rs:513-571).

The flash device is a `Device` value: one of the three mocks. `Storage`
dispatches every flash call on it. The device may be larger than the slot
table; the engine works on its first `SLOT_SIZE * SLOT_COUNT` bytes, and
on NOR flash a slot is one sector. The model does not fix a hash library;
djb2 is defined here as `h * 33 ^ b` from seed 5381, the variant that
reproduces all three test vectors. The chain of checksums decides which
savegame is newest, the header is written last, and a payload may span
several slots.

## Model

| member | source | states |
|---|---|---|
| Bytes.U32ToBe | src/chksum.rs:25-27 | The big-endian encoding has 4 bytes and decodes back to the value. Its first byte is below 0x80 exactly when the value is below 2^31. |
| Bytes.U32BeOfValue | src/chksum.rs:29-31 | Every 4-byte string is the encoding of the value it decodes to. |
| Bytes.AndAbsorbs | src/mock.rs:109 | ANDing a byte into flash only clears bits: ANDing the result with the old value changes nothing. |
| Bytes.TopBit | src/chksum.rs:5 | A byte ANDed with 0x80 is zero exactly when the byte is below 0x80. |
| Chksums.TopBitSetIsMask | src/storage.rs:121 | The probe's test `byte & BYTE_MASK != 0` holds exactly when the byte's top bit is set. |
| Chksums.Mask | src/chksum.rs:17 | The masked hash never exceeds CHKSUM_MASK = 2^31 - 1. |
| Chksums.Chksum.Zero | src/chksum.rs:10-12 | The zero checksum is valid and encodes as four zero bytes. |
| Chksums.Chksum.Hash | src/chksum.rs:14-18 | Every checksum `hash` produces is valid. |
| Chksums.Chksum.ToBytes | src/chksum.rs:25-27 | The encoding has 4 bytes and decodes back to the checksum. Its first byte has the top bit clear exactly when the checksum is valid. |
| Chksums.FromBytesToBytes | src/chksum.rs:29-31 | Decoding any 4 bytes and encoding again gives the same bytes. |
| Chksums.Djb2Concat | src/chksum.rs:15-16 | Hashing a concatenation is hashing the second part from the state the first part left. |
| Chksums.HashOfZero | src/chksum.rs:15 | Hashing the zero checksum's encoding gives 0x7C5D0F85. |
| Chksums.HashOfHelloWorld | src/chksum.rs:39-44 | "hello world" chained to the zero checksum hashes to 646036933. |
| Chksums.HeaderMaskExamples | src/chksum.rs:47-53 | 0xFFFFFFFF is not a valid checksum; 0x7FFFFFFF is. |
| Slots.Slot.Create | src/lib.rs:29-38 | The header records its slot and predecessor, and the valid chained hash of the payload. Its length is the payload length truncated to u32. It is valid exactly when its predecessor is. |
| Slots.Slot.UsedBytes | src/lib.rs:48-67 | The loop counts the same bytes as `UsedBytesOf`: header, payload and one byte per continuation slot. |
| Slots.Slot.NextSlot | src/lib.rs:69-72 | The next slot is always inside the table. |
| Slots.UsedSlots | src/lib.rs:69-72 | `used_bytes` rounded up to whole slots is the number of slots the write loop fills. |
| Slots.Slot.Encode | src/lib.rs:74-85 | The header encodes to 12 bytes that decode back to it. Its first byte has the top bit clear exactly when its checksum is valid. |
| Slots.Slot.ToBytes | src/lib.rs:74-85 | Filling the buffer field by field gives the header's encoding. |
| Slots.EncodeFromBytes | src/lib.rs:87-97 | Decoding any 12 bytes and encoding again gives the same bytes. |
| Slots.ChunkBlock | src/lib.rs:55-64 | A payload's bytes, continuation bytes included, end inside the last of the slots it fills. |
| Slots.SlotSizeExamples | src/lib.rs:122-159 | With 64-byte slots, payloads of 5, 52, 64 and 128 bytes use 17, 64, 77 and 142 bytes. Their next slots are 1, 1, 2 and 3. |
| Slots.HelloChksum | src/lib.rs:109 | "hello" as the first savegame has checksum 0x74BA7867. |
| Slots.WorldChksum | src/lib.rs:115 | "world" as the update to "hello" has checksum 0x15A53916. |
| Slots.HelloHeader | src/lib.rs:109-113 | The header of "hello" in slot 0 encodes as [116,186,120,103, 0,0,0,5, 0,0,0,0]. |
| Slots.WorldHeader | src/lib.rs:115-119 | The header of "world" as its update encodes as [21,165,57,22, 0,0,0,5, 116,186,120,103]. |
| Flash.Apply | src/storage.rs:28-40 | A flash call never changes the size of the memory. |
| Flash.ApplyAllConcat | src/storage.rs:28-40 | Running two call sequences in turn is running their concatenation. |
| Flash.ApplyAllAvoids | src/storage.rs:28-40 | A sequence of calls none of which reaches a byte leaves that byte unchanged. |
| Flash.ErasedStaysErased | src/storage.rs:34-40 | An erased byte stays erased while no write reaches it. |
| Flash.WriteReadBack | src/mock.rs:44-49 | Reading back a write gives the written bytes: always on byte-wise memory, and on NOR flash when the target was erased. |
| Flash.NorWriteOnlyClears | src/mock.rs:103-113 | On NOR flash a write only clears bits. |
| Mock.MockFlash.constructor | src/mock.rs:23-25 | A new device holds `size` bytes, all 0xFF. |
| Mock.MockFlash.Read | src/mock.rs:37-42 | The buffer receives the bytes at `addr`. |
| Mock.MockFlash.Write | src/mock.rs:44-49 | The written bytes replace the range; every other byte keeps its value. |
| Mock.MockFlash.Erase | src/mock.rs:51-54 | Exactly the byte at `addr` becomes 0xFF. |
| Mock.SectorMockFlash.constructor | src/mock.rs:70-74 | A new chip holds `sectorCount` sectors of `sectorSize` bytes, all 0xFF. |
| Mock.SectorMockFlash.DivRem | src/mock.rs:76-81 | The sector and offset of an address recombine to it, and the offset lies inside the sector. |
| Mock.SectorMockFlash.InSectorBounds | src/mock.rs:97-101 | An access inside one sector lies inside the memory. |
| Mock.SectorMockFlash.Read | src/mock.rs:97-101 | The buffer receives the bytes at `addr`, from one sector. |
| Mock.SectorMockFlash.Write | src/mock.rs:103-113 | Each target byte becomes the AND of its old value and the new one. Nothing outside the range or the sector changes. |
| Mock.SectorMockFlash.Erase | src/mock.rs:115-119 | The whole sector holding `addr` becomes 0xFF; every other sector is unchanged. |
| Mock.MeasuredMockFlash.constructor | src/mock.rs:146-150 | A new counting device is blank with all counters at zero. |
| Mock.MeasuredMockFlash.Read | src/mock.rs:155-158 | It reads like the plain device and adds the length to the read counter, saturating. |
| Mock.MeasuredMockFlash.Write | src/mock.rs:160-163 | It writes like the plain device and adds the length to the write counter, saturating. |
| Mock.MeasuredMockFlash.Erase | src/mock.rs:165-168 | It erases like the plain device and adds one to the erase counter, saturating. |
| Layout.Addr | src/storage.rs:108-110 | A slot's address leaves room for a whole slot inside the table. |
| Layout.AddrSlot | src/storage.rs:108-110 | A slot's address is a multiple of the slot size, in the slot its index names modulo the table. |
| Layout.NextIdx | src/storage.rs:214 | `idx.saturating_add(1) % SLOT_COUNT` is the next slot, wrapping from the last to 0. |
| Layout.SlotOfByte | src/storage.rs:108-110 | Every byte of the table lies in some slot, at its offset there. |
| Layout.ChunkEnd | src/storage.rs:266-283 | The write loop stops at a slot inside the table. |
| Layout.Gather | src/storage.rs:206-217 | read's loop gathers exactly `len` bytes. |
| Layout.StaticBytes | src/storage.rs:240-243 | read_static returns exactly `SIZE` bytes. |
| Layout.Probes | src/storage.rs:143-155 | scan has one report per slot. |
| Layout.EraseAllOps | src/storage.rs:50-55 | The default erase_all issues `count` erases. |
| Layout.SlotEraseAllOps | src/storage.rs:180-184 | The corrected erase_all issues one erase per slot. |
| WriteFacts.Chunks | src/storage.rs:266-283 | A payload fills at least one slot, and exactly one when it fits in the room left. |
| WriteFacts.ChunkOpsLocal | src/storage.rs:266-283 | Every call of the write loop stays inside one slot. No write reaches a slot's first byte, and every erase is at a slot's start. |
| WriteFacts.ChunkWritesMissHeads | src/storage.rs:273-281 | No write of the loop reaches the first byte of any slot. |
| WriteFacts.ChunkAvoids | src/storage.rs:266-283 | The write loop reaches no byte outside the savegame's slots. |
| WriteFacts.EraseClearsSlot | src/storage.rs:278-279 | Erasing at a slot's start erases its first byte, and on NOR flash the whole slot. |
| WriteFacts.EraseKeepsOtherSlots | src/storage.rs:169-172 | Erasing at a slot's start leaves every other slot alone. |
| WriteFacts.ChunkRoundTrip | src/storage.rs:266-283 | Read's loop gathers what write's loop stored, unless the payload wraps onto itself. |
| WriteFacts.GatherSame | src/storage.rs:206-217 | read's loop looks only at the savegame's slots. |
| WriteFacts.GatherSplit | src/storage.rs:206-217 | A long payload is the rest of the first slot followed by what is gathered from the next slot. |
| WriteFacts.WriteLayout | src/storage.rs:253-291 | write first erases the target slot. Next it writes the first chunk 12 bytes in, then only slot-local calls. The header comes last. |
| WriteFacts.PowerFail | src/storage.rs:285-288 | If write stops at any point before the header, the target slot's first byte is erased and the probe reports the slot free. |
| WriteFacts.WriteAvoids | src/storage.rs:253-291 | write reaches no byte outside the new savegame's slots. |
| WriteFacts.WriteKeepsOtherSlots | src/storage.rs:253-291 | At every point of write, every slot outside the new savegame keeps every byte. |
| WriteFacts.WriteHeader | src/storage.rs:285-288 | After write, the target slot starts with the new header's encoding. |
| WriteFacts.HeaderMissesPayload | src/storage.rs:288 | The header write misses the payload. |
| WriteFacts.WriteThenRead | src/storage.rs:192-220 | After write(i, prev, data), read(i, buf) gives `data` when the buffer is long enough and None otherwise, on either medium. |
| WriteFacts.WriteThenReadStatic | src/storage.rs:227-246 | After write of a payload that fits behind the header, read_static gives it back. |
| WriteFacts.ChunkEndValue | src/storage.rs:266-283 | The write loop ends as many slots on as the payload fills, wrapping around the table. |
| WriteFacts.WriteEndIsNextSlot | src/storage.rs:290 | The index write returns is the written header's `next_slot`. |
| WriteFacts.NextSlotValue | src/lib.rs:69-72 | `next_slot` is the savegame's slot plus the number of slots it fills, modulo the table. |
| ScanFacts.SlotAtSome | src/storage.rs:113-133 | The probe reports only a valid header, decoded from the slot it probed. |
| ScanFacts.SlotAtIsHeaderValidity | src/storage.rs:117-131 | The one-byte early skip gives the same answer as decoding the whole header and checking its validity. |
| ScanFacts.SlotAtSameHeader | src/storage.rs:113-133 | The probe depends only on the slot's 12 header bytes. |
| ScanFacts.ProbesIndexed | src/storage.rs:130 | Every report names the slot it was read from and carries a valid header. |
| ScanFacts.ScanOverNone | src/storage.rs:143-155 | scan's loop holds nothing exactly when no report so far found a header. |
| ScanFacts.ScanNoneIff | src/storage.rs:140-163 | scan returns None exactly when no slot holds a valid header. |
| ScanFacts.ScanOverFound | src/storage.rs:143-155 | What the loop holds was reported at its own slot, and no later report so far updates it. |
| ScanFacts.ScanWinner | src/storage.rs:140-163 | scan's result is a valid header at its own slot, and no later slot updates it. |
| ScanFacts.ScanOverMonotone | src/storage.rs:143-155 | Once the loop holds a header it keeps holding one, never at a lower slot. |
| ScanFacts.ScanOverTakenAt | src/storage.rs:148-151 | The held header was taken when its own slot was probed. |
| ScanFacts.ScanHoldsWinnerAfterItsSlot | src/storage.rs:143-155 | From the winner's slot on, the loop already holds the winner. |
| ScanFacts.ScanOverSame | src/storage.rs:143-155 | scan's result depends only on the reports. |
| ScanFacts.ScanKeeps | src/storage.rs:148-151 | The loop keeps its header across reports that hold no update to it. |
| ScanFacts.BlankScan | src/storage.rs:331-362 | On erased flash scan finds nothing and reads one byte per slot: (8, 0, 0) on 8 slots. |
| ScanFacts.EraseInvalidates | src/storage.rs:169-172 | After erase(i) the probe reports slot i free, on either medium. |
| ScanFacts.EraseAllAsWrittenKeepsSlots | src/storage.rs:50-55 | When SLOT_COUNT <= SLOT_SIZE, the default erase_all with SLOT_COUNT leaves every slot but slot 0 as the probe saw it. |
| ScanFacts.EraseAllAsWrittenLeavesSavegame | src/storage.rs:180-184 | When SLOT_COUNT <= SLOT_SIZE, a savegame past slot 0 survives erase_all as written: scan still finds one. |
| ScanFacts.SlotEraseAllErasesHeads | src/storage.rs:180-184 | Erasing at every slot's address erases every slot's first byte. |
| ScanFacts.SlotEraseAllClears | src/storage.rs:180-184 | After erasing every slot, scan finds nothing. |
| Chain.ChunkErasesHead | src/storage.rs:273-279 | Every continuation slot's first byte is erased by the loop and stays erased. |
| Chain.HeaderMissesOtherHeads | src/storage.rs:288 | The header write reaches no other slot's first byte. |
| Chain.ContinuationHeadErased | src/storage.rs:273-279 | After write, every continuation slot starts with an erased byte. |
| Chain.WrittenSlotProbe | src/storage.rs:285-288 | After write, the probe of the target slot reports the new header exactly when `prev` is valid. |
| Chain.OtherSlotProbe | src/storage.rs:253-291 | A slot outside the new savegame probes as it did before the write. |
| Chain.ContinuationSlotProbe | src/storage.rs:121-123 | A continuation slot of the new savegame probes as free. |
| Chain.BlankWriteScan | src/storage.rs:385-401 | After a write on blank flash, scan finds the new header. Its `next_slot` is where write stopped, and its checksum is the chained hash. |
| Chain.AppendExtendsChain | src/storage.rs:297-302 | Appending after the savegame scan found, without wrap-around, makes the new savegame what scan finds next, provided no later slot already claims to update it. |
| Chain.NewSavegameKept | src/storage.rs:148-151 | Past a write that does not wrap, scan keeps the new savegame. |
| Chain.ProbesBefore | src/storage.rs:143-155 | A write at n that does not wrap leaves what scan holds after slots 0 .. n-1 as it was. |
| Chain.ProbeAfter | src/storage.rs:143-155 | Past slot n, a write at n that does not wrap leaves only reports from beyond its footprint: a slot past n that reports a header lies beyond the new savegame and probes as before. |
| PowerLoss.LocalWriteKeepsSlot | src/storage.rs:269 | A chunk write inside one slot leaves every byte of every other slot as it was. |
| PowerLoss.EraseKeepsSlot | src/storage.rs:279 | The erase at a continuation slot's address leaves every byte of every other slot as it was. |
| PowerLoss.ChunkPrefixErasedOrKept | src/storage.rs:266-283 | Stopped after any number of its calls, write's loop leaves every slot but its first either starting with an erased byte or holding exactly what it held. |
| PowerLoss.WritePrefixErasedOrKept | src/storage.rs:259-283 | Stopped after any call before the header, write leaves every slot but its target either starting with an erased byte or as it was. |
| PowerLoss.ErasedOrKeptProbe | src/storage.rs:113-133 | A slot that starts with an erased byte or holds what it held probes as free or as before. |
| PowerLoss.PrefixKeepsEarlierSlot | src/storage.rs:253-291 | At every point of a write that does not wrap, the slots before its target probe as before. |
| PowerLoss.InterruptedWriteScanUpTo | src/storage.rs:143-155 | At every point of such a write, scan over the slots before the target holds the savegame scan found before. |
| PowerLoss.InterruptedWriteLaterSlot | src/storage.rs:71-75 | Stopped before the header, write leaves no slot past its target that updates the savegame scan found before. |
| PowerLoss.ScanKeepsPast | src/storage.rs:143-155 | Scan finds a header it holds before a free slot when no later slot reports an update to it. |
| PowerLoss.InterruptedWriteKeepsWinner | src/storage.rs:71-75 | Power-fail safety: a write past the savegame scan found, without wrap-around, stopped after any of its calls before the header, leaves that savegame as what scan finds. |
| PowerLoss.InterruptedAppendKeepsWinner | src/storage.rs:297-302 | An append after the savegame scan found, without wrap-around, cut short before its header, leaves that savegame as what scan finds. |
| Counts.CountAllConcat | src/mock.rs:155-168 | Counting two call sequences in turn is counting their concatenation. |
| Counts.ChunkCounts | src/storage.rs:266-283 | The write loop writes each payload byte once and erases once per continuation slot. |
| Counts.WriteCounts | src/storage.rs:253-291 | write counts the payload plus 12 header bytes written, and one erase per slot filled. |
| Counts.GatherCounts | src/storage.rs:206-217 | read's loop reads each payload byte once. |
| Counts.ReadCounts | src/storage.rs:192-220 | read counts 12 header bytes, plus the payload when the buffer holds it. |
| Counts.OpenHeads | src/storage.rs:121 | At most one open first byte per probed slot. |
| Counts.ScanCounts | src/storage.rs:113-155 | scan reads one byte per slot, plus 11 for every slot whose first byte has the top bit clear. |
| Counts.ScanSlotCounts | src/storage.rs:113-133 | One probe reads 1 byte, or 12 when the first byte has the top bit clear. |
| Counts.OneOpenHead | src/storage.rs:121 | With exactly one open first byte, the count is 1 from that slot on. |
| Counts.BlankWriteScanCounts | src/storage.rs:416-427 | append then scan on blank flash counts (SLOT_COUNT + 11, len + 12, slots filled). |
| Counts.WriteReadCounts | src/storage.rs:454-465 | append then read counts (len + 12, len + 12, slots filled). |
| Storages.TableApply | src/storage.rs:67-68 | A call inside the slot table does to the table what it does to the device's whole memory, so bytes past the table play no part. |
| Storages.SlotAccess | src/storage.rs:108-110 | Every access the engine makes lies inside one slot, so the device accepts it. |
| Storages.Storage.constructor | src/storage.rs:99-105 | On any device at least as large as the slot table, a new engine starts at slot 0 with the zero checksum, an empty call log, and the flash untouched. On NOR flash a slot must be one sector, as src/storage.rs:67-68 demands. |
| Storages.Storage.FlashRead | src/storage.rs:28 | The read returns the bytes at `addr`, changes nothing, and is logged. |
| Storages.Storage.FlashWrite | src/storage.rs:34 | The write changes the memory as the device's medium dictates, and is logged. |
| Storages.Storage.FlashErase | src/storage.rs:40 | The erase changes the memory as the device's medium dictates, and is logged. |
| Storages.Storage.ScanSlot | src/storage.rs:113-133 | The probe returns `SlotAt` of the memory and makes the probe's reads. |
| Storages.Storage.Scan | src/storage.rs:140-163 | scan returns `ScanResult` and leaves the memory alone. On success idx becomes the winner's next slot and prev its checksum; otherwise neither changes. |
| Storages.Storage.Erase | src/storage.rs:169-172 | erase(i) is one erase at slot i's address. |
| Storages.Storage.FlashEraseAll | src/storage.rs:50-55 | The default erase_all erases at addresses 0 .. count - 1. |
| Storages.Storage.EraseAll | src/storage.rs:180-184 | As written: idx and prev are reset, then the default erase_all runs with SLOT_COUNT. |
| Storages.Storage.EraseAllSlots | src/storage.rs:180-184 | Corrected: idx and prev are reset, then every slot's address is erased. |
| Storages.Storage.Read | src/storage.rs:192-220 | read returns `ReadResult`, leaves the memory alone and makes `ReadOps`. |
| Storages.Storage.ReadChunks | src/storage.rs:206-217 | read's loop gathers the payload in write's chunking, one read per chunk. |
| Storages.Storage.ReadStatic | src/storage.rs:227-246 | read_static returns the `SIZE` bytes behind slot i's header, in one read. |
| Storages.Storage.Write | src/storage.rs:253-291 | write makes exactly `WriteOps`. It returns where the loop stopped and the chained checksum, and leaves idx and prev alone. |
| Storages.Storage.WriteChunks | src/storage.rs:263-283 | write's loop makes exactly `ChunkOps` and stops at `ChunkEnd`. |
| Storages.Storage.Append | src/storage.rs:297-302 | append writes at idx chained to prev. idx moves to the new header's next slot and prev to its checksum. |
| Storages.ScanWinnerValid | src/storage.rs:148-155 | scan's winner is a valid header. |
| Scenarios.NewDevice | src/storage.rs:315-329 | Each test device starts blank, with zero counters when it counts. |
| Scenarios.ScanBlank | src/storage.rs:331-336 | A new engine on blank flash scans and finds nothing. |
| Scenarios.AppendThenScan | src/storage.rs:385-401 | A payload appended to blank flash is what the next scan finds, with the counters the counting device ends with. |
| Scenarios.AppendThenRead | src/storage.rs:429-439 | A payload appended to blank flash reads back from slot 0, with the counters. |
| Scenarios.Rewind | src/storage.rs:579 | Forcing idx to 0 keeps every other part of the engine. |
| Scenarios.AppendResetScan | src/storage.rs:573-584 | After append, idx is where the write stopped. With idx forced back to 0, scan restores idx and prev. |
| Scenarios.EmptyScan | src/storage.rs:338-362 | On each device, scanning blank flash gives None; the counting device reads 8 bytes. |
| Scenarios.WriteScan | src/storage.rs:403-427 | On each device, "hello world" is found in slot 0 with length 11; the counts are (19, 23, 1). |
| Scenarios.WriteRead | src/storage.rs:441-465 | On each device, "hello world" reads back; the counts are (23, 23, 1). |
| Scenarios.BigChunks | src/storage.rs:576-578 | 128 bytes fill three slots, so append stops at slot 3. |
| Scenarios.AppendAfterScan | src/storage.rs:586-610 | On each device, idx is 3 after the append and again after the scan, prev is the payload's checksum, and the counts are (19, 140, 3). |

## Left out

- The adapters for the W25Q flash chips and the AT24Cxx EEPROMs: they forward calls to driver crates that are not part of this model.
- Flash errors: every device here is infallible, as the crate's mocks are, so the `?` error paths are not modelled.
- Chksums.Chksum.Hash: the `djb2` crate is not part of this model. It is defined here as the xor variant, which reproduces every test vector.
- Layout.Addr: the truncating `as u32` cast (src/storage.rs:109) and the `u32` `saturating_add`s on addresses (src/storage.rs:126, 200, 215, 241, 263, 281) are not modelled. `Geometry.Valid` requires the table to fit in `u32`, where the cast never truncates and the adds never saturate.
- Slots.Geometry.Valid: a 12-byte slot, which holds only the header, is excluded. The source accepts it: `SLOT_SIZE - HEADER_SIZE` is then 0 (src/lib.rs:51, src/storage.rs:207, 264), so the first chunk that write stores and read gathers is empty, and every further slot carries one byte after its erased first byte. The source rejects only slots shorter than 12 bytes, where the subtraction underflows and read_static's compile-time check (src/storage.rs:234-238) fails. The model leaves the 12-byte slot out because the chunk loops' invariants need the offset into a slot to satisfy `0 < off < SLOT_SIZE`; with a 12-byte slot the empty first chunk sits at offset 12, which is already the start of the next slot.
- `usize` is taken as 64 bits wide; the saturating adds of the counting device are written out for that width.
- Storages.Storage.Read: the caller's buffer is modelled by its length, and the payload is returned as a sequence rather than a sub-slice of that buffer.
- Storages.Storage.ReadStatic: the `assert!` that `SIZE` fits behind the header becomes a precondition.
- Mock.MockFlash.Read: slice indexing outside the memory panics in the source. The model requires the access to fit, and the engine's accesses are proved to.
- Mock.MockFlash.Write: a write past the end of the memory panics in the source (slice indexing). The model requires the write to fit, and the engine's writes are proved to.
- Mock.MockFlash.Erase: an erase past the end of the memory panics in the source. The model requires the address to lie inside the memory.
- Mock.SectorMockFlash.Write: a write across a sector boundary panics in the source (src/mock.rs:103-113). The model requires each write to stay inside one sector.
- Mock.SectorMockFlash.Erase: an erase in a sector past the last one panics in the source. The model requires the sector to exist.
- PowerLoss.InterruptedWriteKeepsWinner and PowerLoss.InterruptedAppendKeepsWinner: they cover writes that do not wrap around the end of the table and that start past the savegame scan found; a write that wraps onto that savegame's own slots is not covered.
- Mock.SectorMockFlash.Read: an access across a sector boundary panics in the source. The model requires each access to stay inside one sector.
- WriteFacts.WriteThenRead: it excludes payloads that fill more slots than the table has. Such a payload overwrites its own first chunk.
- Chain.AppendExtendsChain: it covers appends that do not wrap around the end of the table. The wrap-around test (storage.rs:467-511) and the second half of the big-write test (storage.rs:513-545) are not restated. The first half of the big-write test is an instance of Scenarios.AppendThenScan and Scenarios.AppendThenRead.
- The `Debug` formatting and `Default` implementations are left out: they state nothing about the store.

## Findings

| source | as written | input that shows it | evidently intended | confidence | as-written member | corrected member |
|---|---|---|---|---|---|---|
| src/storage.rs:50-55 | `Storage::erase_all` calls the default `Flash::erase_all(SLOT_COUNT)`. That default erases at addresses 0, 1, …, SLOT_COUNT-1, which all lie in slot 0. | Geometry(64, 8) with a valid savegame in slot 1: after `erase_all`, scan still finds it. | Erase at the address of every slot, so that scan finds nothing afterwards. | not executed | ScanFacts.EraseAllAsWrittenLeavesSavegame | ScanFacts.SlotEraseAllClears |
