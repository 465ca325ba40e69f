/**
 * The slot header: a fixed 12-byte record [chksum BE | len BE | prev BE]
 * at the start of the first slot of every savegame, and the arithmetic of
 * how many bytes and slots a savegame occupies. A payload that does not fit
 * behind the header spills into the following slots; each of those gives up
 * its first byte, which is left erased so that a scan skips it.
 */
module Slots {
  import opened Bytes
  import opened Chksums

  const LENGTH_SIZE: nat := 4
  /** Two checksums and one length field. */
  const HEADER_SIZE: nat := SIZE * 2 + LENGTH_SIZE

  /** The const generics SLOT_SIZE and SLOT_COUNT of a storage. */
  datatype Geometry = Geometry(slotSize: nat, slotCount: nat) {
    /**
     * Room for a header and at least one payload byte; the whole area
     * addressable by u32. A slot of exactly HEADER_SIZE bytes, whose first
     * chunk is empty, is not covered by this model.
     */
    predicate Valid()
    {
      HEADER_SIZE < slotSize && 0 < slotCount && slotSize * slotCount < U32_LIMIT
    }

    /** Total size of the storage area in bytes. */
    function Space(): nat
    {
      slotSize * slotCount
    }
  }

  /**
   * Number of slots a payload of `len` bytes occupies when `space` bytes are
   * free in its first slot; every further slot holds slotSize - 1 bytes.
   */
  function ChunkCount(g: Geometry, space: nat, len: nat): (c: nat)
    requires g.Valid() && 0 < space
    ensures 1 <= c <= len + 1
    decreases len
  {
    if len <= space then 1 else 1 + ChunkCount(g, g.slotSize - 1, len - space)
  }

  /** Bytes a savegame of `len` payload bytes occupies: header, payload and one byte per continuation slot. */
  function UsedBytesOf(g: Geometry, len: nat): nat
    requires g.Valid()
  {
    HEADER_SIZE + len + (ChunkCount(g, g.slotSize - HEADER_SIZE, len) - 1)
  }

  datatype Slot = Slot(idx: nat, chksum: Chksum, len: u32, prev: Chksum) {

    /** The header of `data` written at slot `idx` as an update to `prev`. */
    static function Create(idx: nat, prev: Chksum, data: seq<byte>): (s: Slot)
      ensures s.idx == idx && s.prev == prev
      ensures s.chksum == Chksum.Hash(prev, data) && s.chksum.IsValid()
      ensures s.IsValid() <==> prev.IsValid()
      ensures s.len == |data| % U32_LIMIT
      ensures |data| < U32_LIMIT ==> s.len == |data|
    {
      // `data.len() as u32` keeps the low 32 bits of the length
      Slot(idx, Chksum.Hash(prev, data), |data| % U32_LIMIT, prev)
    }

    predicate IsValid()
    {
      chksum.IsValid() && prev.IsValid()
    }

    /** This savegame was written as the successor of `other`. */
    predicate IsUpdateTo(other: Slot)
    {
      prev == other.chksum
    }

    /** Bytes the savegame occupies, counted the way the write loop spends them. */
    method UsedBytes(g: Geometry) returns (size: nat)
      requires g.Valid()
      ensures size == UsedBytesOf(g, len)
    {
      size := HEADER_SIZE;
      var remainingData: nat := len;
      var remainingSpace: nat := g.slotSize - HEADER_SIZE;
      while true
        invariant 0 < remainingSpace < g.slotSize
        invariant remainingData <= len
        invariant size + remainingData + (ChunkCount(g, remainingSpace, remainingData) - 1) == UsedBytesOf(g, len)
        decreases remainingData
      {
        var thisRound := Min(remainingSpace, remainingData);
        size := SatAdd(size, thisRound);
        remainingData := remainingData - thisRound;
        if remainingData == 0 {
          break;
        }
        size := SatAdd(size, 1);
        remainingSpace := g.slotSize - 1;
      }
    }

    /** Index of the first slot after this savegame, wrapping around the slot table. */
    function NextSlot(g: Geometry): (r: nat)
      requires g.Valid()
      ensures r < g.slotCount
    {
      SatAdd(idx, DivCeil(UsedBytesOf(g, len), g.slotSize)) % g.slotCount
    }

    /** The 12 header bytes; the first one tells an in-use slot from a free one. */
    function Encode(): (r: seq<byte>)
      ensures |r| == HEADER_SIZE
      ensures FromBytes(idx, r) == this
      ensures !TopBitSet(r[0]) <==> chksum.IsValid()
    {
      chksum.ToBytes() + U32ToBe(len) + prev.ToBytes()
    }

    /** to_bytes: fills a header buffer field by field. */
    method ToBytes() returns (bytes: seq<byte>)
      ensures bytes == Encode()
    {
      var buf := new byte[HEADER_SIZE];
      var c, l, p := chksum.ToBytes(), U32ToBe(len), prev.ToBytes();
      forall k | 0 <= k < SIZE {
        buf[k] := c[k];
      }
      forall k | SIZE <= k < SIZE + LENGTH_SIZE {
        buf[k] := l[k - SIZE];
      }
      forall k | SIZE + LENGTH_SIZE <= k < HEADER_SIZE {
        buf[k] := p[k - SIZE - LENGTH_SIZE];
      }
      bytes := buf[..];
    }

    static function FromBytes(idx: nat, b: seq<byte>): Slot
      requires |b| == HEADER_SIZE
    {
      Slot(idx, Chksum.FromBytes(b[..SIZE]), U32FromBe(b[SIZE..SIZE + LENGTH_SIZE]),
           Chksum.FromBytes(b[SIZE + LENGTH_SIZE..]))
    }
  }

  /** The header is two checksums and a u32 length. */
  lemma HeaderSizeIsTwelve()
    ensures HEADER_SIZE == 2 * SIZE + 4 == 12
  {
  }

  /** Decoding any 12 bytes and encoding again gives the same bytes. */
  lemma EncodeFromBytes(idx: nat, b: seq<byte>)
    requires |b| == HEADER_SIZE
    ensures Slot.FromBytes(idx, b).Encode() == b
  {
    var s := Slot.FromBytes(idx, b);
    FromBytesToBytes(b[..SIZE]);
    U32BeOfValue(b[SIZE..SIZE + LENGTH_SIZE]);
    FromBytesToBytes(b[SIZE + LENGTH_SIZE..]);
    assert b == b[..SIZE] + b[SIZE..SIZE + LENGTH_SIZE] + b[SIZE + LENGTH_SIZE..];
  }

  /**
   * A payload starting `size - space` bytes into a slot ends inside the
   * last of the slots ChunkCount counts: the bytes it uses, continuation
   * bytes included, are more than c - 1 slots and at most c slots.
   */
  lemma {:induction false} ChunkBlock(g: Geometry, space: nat, len: nat)
    requires g.Valid() && 0 < space < g.slotSize
    ensures var c := ChunkCount(g, space, len);
      (c - 1) * g.slotSize < (g.slotSize - space) + len + (c - 1) <= c * g.slotSize
    decreases len
  {
    var c := ChunkCount(g, space, len);
    if len > space {
      var c' := ChunkCount(g, g.slotSize - 1, len - space);
      ChunkBlock(g, g.slotSize - 1, len - space);
      assert c == c' + 1;
      assert (c - 1) * g.slotSize == (c' - 1) * g.slotSize + g.slotSize;
      assert c * g.slotSize == c' * g.slotSize + g.slotSize;
    }
  }

  /** used_bytes rounded up to whole slots is the number of slots the write loop fills. */
  lemma UsedSlots(g: Geometry, len: nat)
    requires g.Valid()
    ensures DivCeil(UsedBytesOf(g, len), g.slotSize) == ChunkCount(g, g.slotSize - HEADER_SIZE, len)
  {
    ChunkBlock(g, g.slotSize - HEADER_SIZE, len);
    DivCeilOfBlock(UsedBytesOf(g, len), g.slotSize, ChunkCount(g, g.slotSize - HEADER_SIZE, len));
  }

  /** A payload that fits behind the header uses 12 + len bytes; otherwise each continuation slot costs one more. */
  lemma UsedBytesCases(g: Geometry, len: nat)
    requires g.Valid()
    ensures len <= g.slotSize - HEADER_SIZE ==> UsedBytesOf(g, len) == HEADER_SIZE + len
    ensures len > g.slotSize - HEADER_SIZE ==>
      UsedBytesOf(g, len) == HEADER_SIZE + len + ChunkCount(g, g.slotSize - 1, len - (g.slotSize - HEADER_SIZE))
  {
  }

  /** 64-byte slots, 8 of them: payloads of 5, 52, 64 and 128 bytes. */
  lemma SlotSizeExamples(c: Chksum)
    ensures var g := Geometry(64, 8);
      && UsedBytesOf(g, 5) == 17 && Slot(0, c, 5, Chksum.Zero()).NextSlot(g) == 1
      && UsedBytesOf(g, 52) == 64 && Slot(0, c, 52, Chksum.Zero()).NextSlot(g) == 1
      && UsedBytesOf(g, 64) == 77 && Slot(0, c, 64, Chksum.Zero()).NextSlot(g) == 2
      && UsedBytesOf(g, 128) == 142 && Slot(0, c, 128, Chksum.Zero()).NextSlot(g) == 3
  {
    var g := Geometry(64, 8);
    assert UsedBytesOf(g, 64) == 77 by {
      assert ChunkCount(g, 52, 64) == 1 + ChunkCount(g, 63, 12);
    }
    assert UsedBytesOf(g, 128) == 142 by {
      assert ChunkCount(g, 52, 128) == 1 + ChunkCount(g, 63, 76);
      assert ChunkCount(g, 63, 76) == 1 + ChunkCount(g, 63, 13);
    }
  }


  /** The checksum of "hello" as the first savegame. */
  lemma HelloChksum()
    ensures Chksum.Hash(Chksum.Zero(), HELLO) == Chksum(0x74BA_7867)
  {
    HashOfZero();
    HelloRun();
    HashFrom(Chksum.Zero(), HELLO, 0x7C5D_0F85, 0xF4BA_7867);
    assert Mask(0xF4BA_7867) == 0x74BA_7867;
  }

  /** The checksum of "world" as the update to "hello". */
  lemma WorldChksum()
    ensures Chksum.Hash(Chksum(0x74BA_7867), WORLD) == Chksum(0x15A5_3916)
  {
    HelloBytes();
    HashOfHello();
    WorldAfterHello();
    HashFrom(Chksum(0x74BA_7867), WORLD, 0x7C72_7354, 0x15A5_3916);
    assert Mask(0x15A5_3916) == 0x15A5_3916;
  }

  /** The hash of the "hello" checksum's encoding, where the checksum of its update starts. */
  lemma HashOfHello()
    ensures Djb2([116, 186, 120, 103]) == 0x7C72_7354
  {
    assert [116, 186, 120, 103] == [116, 186] + [120, 103];
    Djb2Concat(DJB2_SEED, [116, 186], [120, 103]);
    assert Djb2With(DJB2_SEED, [116, 186]) == 0x0059_6F4B by {}
    assert Djb2With(0x0059_6F4B, [120, 103]) == 0x7C72_7354 by {}
  }

  lemma WorldAfterHello()
    ensures Djb2With(0x7C72_7354, WORLD) == 0x15A5_3916
  {
    assert WORLD == [119, 111] + [114, 108, 100];
    Djb2Concat(0x7C72_7354, [119, 111], [114, 108, 100]);
    assert Djb2With(0x7C72_7354, [119, 111]) == 0x62DC_926C by {}
    assert Djb2With(0x62DC_926C, [114, 108, 100]) == 0x15A5_3916 by {}
  }

  /** The encoding of the "hello" checksum. */
  lemma HelloBytes()
    ensures Chksum(0x74BA_7867).ToBytes() == [116, 186, 120, 103]
  {
    assert Digits(0x74BA_7867) == (116, 186, 120, 103);
  }

  /** The length field of a 5-byte payload. */
  lemma LengthFive()
    ensures U32ToBe(5) == [0, 0, 0, 5]
  {
    assert Digits(5) == (0, 0, 0, 5);
  }

  /** A header from the encodings of its three fields. */
  lemma EncodeFrom(s: Slot, c: seq<byte>, l: seq<byte>, p: seq<byte>)
    requires s.chksum.ToBytes() == c && U32ToBe(s.len) == l && s.prev.ToBytes() == p
    ensures s.Encode() == c + l + p
  {
  }

  /** The header of "hello" written as the first savegame, field by field. */
  lemma HelloHeader()
    ensures Slot.Create(0, Chksum.Zero(), HELLO).Encode() == [116, 186, 120, 103] + [0, 0, 0, 5] + [0, 0, 0, 0]
  {
    var s := Slot.Create(0, Chksum.Zero(), HELLO);
    HelloChksum();
    HelloBytes();
    LengthFive();
    EncodeFrom(s, [116, 186, 120, 103], [0, 0, 0, 5], [0, 0, 0, 0]);
  }

  /** The encoding of the "world" checksum. */
  lemma WorldBytes()
    ensures Chksum(0x15A5_3916).ToBytes() == [21, 165, 57, 22]
  {
    assert Digits(0x15A5_3916) == (21, 165, 57, 22);
  }

  /** The header of "world" written in slot 1 as the update to "hello", field by field. */
  lemma WorldHeader()
    ensures var hello := Slot.Create(0, Chksum.Zero(), HELLO);
      Slot.Create(1, hello.chksum, WORLD).Encode() == [21, 165, 57, 22] + [0, 0, 0, 5] + [116, 186, 120, 103]
  {
    HelloChksum();
    WorldChksum();
    var s := Slot.Create(1, Chksum(0x74BA_7867), WORLD);
    WorldBytes();
    LengthFive();
    HelloBytes();
    EncodeFrom(s, [21, 165, 57, 22], [0, 0, 0, 5], [116, 186, 120, 103]);
  }
}
