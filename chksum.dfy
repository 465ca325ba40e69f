/**
 * The 31-bit checksum that both identifies a savegame and chains it to its
 * predecessor. The top bit of a stored checksum is always clear, so a first
 * header byte with its top bit set (an erased 0xFF byte, say) marks a slot
 * that holds no savegame.
 */
module Chksums {
  import opened Bytes

  /** u32::MAX >> 1: the bits a valid checksum may use. */
  const CHKSUM_MASK: u32 := 0x7FFF_FFFF
  /** !(u8::MAX >> 1): the top bit of the first header byte. */
  const BYTE_MASK: byte := 0x80
  /** Width of an encoded checksum in bytes. */
  const SIZE: nat := 4

  /** `b & BYTE_MASK != 0`: the top bit of `b` is set, so `b` cannot start a valid checksum. */
  predicate TopBitSet(b: byte)
  {
    b >= BYTE_MASK
  }

  /** TopBitSet is the mask test. */
  lemma TopBitSetIsMask(b: byte)
    ensures TopBitSet(b) <==> ByteAnd(b, BYTE_MASK) != 0
  {
    TopBit(b);
  }

  /** Seed of the djb2 hash. */
  const DJB2_SEED: bv32 := 5381

  /**
   * djb2 (xor variant) continued from `initial`: each byte multiplies the
   * running value by 33 and xors the byte in, wrapping at 32 bits.
   */
  function Djb2With(initial: bv32, data: seq<byte>): bv32
    decreases |data|
  {
    if |data| == 0 then initial else Djb2With((initial * 33) ^ Widen(data[0]), data[1..])
  }

  function Djb2(data: seq<byte>): bv32
  {
    Djb2With(DJB2_SEED, data)
  }

  /**
   * `b as u32`: the byte widened to 32 bits, one bit at a time from the top.
   * Written out rather than as the conversion `b as bv32`: with the
   * conversion, the proofs that run the hash over the test vectors and the
   * hash's continuation law exceed the verifier's resource limit, while
   * this form keeps every step a plain comparison and OR of constants.
   */
  function Widen(b: byte): bv32
  {
    var x7 := b as int;
    var x6 := if x7 >= 0x80 then x7 - 0x80 else x7;
    var x5 := if x6 >= 0x40 then x6 - 0x40 else x6;
    var x4 := if x5 >= 0x20 then x5 - 0x20 else x5;
    var x3 := if x4 >= 0x10 then x4 - 0x10 else x4;
    var x2 := if x3 >= 0x08 then x3 - 0x08 else x3;
    var x1 := if x2 >= 0x04 then x2 - 0x04 else x2;
    var x0 := if x1 >= 0x02 then x1 - 0x02 else x1;
    (if x7 >= 0x80 then 0x80 else 0) | (if x6 >= 0x40 then 0x40 else 0)
      | (if x5 >= 0x20 then 0x20 else 0) | (if x4 >= 0x10 then 0x10 else 0)
      | (if x3 >= 0x08 then 0x08 else 0) | (if x2 >= 0x04 then 0x04 else 0)
      | (if x1 >= 0x02 then 0x02 else 0) | (if x0 >= 0x01 then 0x01 else 0)
  }

  /** Keeps the low 31 bits of `h`: `h & CHKSUM_MASK`, written as a remainder since the mask is 2^31 - 1. */
  function Mask(h: bv32): (v: u32)
    ensures v <= CHKSUM_MASK
  {
    (h as int) % (CHKSUM_MASK + 1)
  }

  datatype Chksum = Chksum(value: u32) {

    static function Zero(): (c: Chksum)
      ensures c.IsValid()
      ensures c.ToBytes() == [0, 0, 0, 0]
    {
      Chksum(0)
    }

    /**
     * The checksum of a savegame: the hash of the predecessor's encoded
     * checksum, continued over the payload, with the top bit masked off.
     */
    static function Hash(prev: Chksum, data: seq<byte>): (c: Chksum)
      ensures c.IsValid()
    {
      var h := Djb2(prev.ToBytes());
      var h := Djb2With(h, data);
      Chksum(Mask(h))
    }

    /** No bit outside CHKSUM_MASK is set. */
    predicate IsValid()
    {
      value <= CHKSUM_MASK
    }

    /** Big-endian encoding; its first byte tells valid from invalid. */
    function ToBytes(): (r: seq<byte>)
      ensures |r| == SIZE
      ensures FromBytes(r) == this
      ensures !TopBitSet(r[0]) <==> IsValid()
    {
      U32ToBe(value)
    }

    static function FromBytes(b: seq<byte>): Chksum
      requires |b| == SIZE
    {
      Chksum(U32FromBe(b))
    }
  }

  /** Every 4-byte string decodes to the checksum that encodes back to it. */
  lemma FromBytesToBytes(b: seq<byte>)
    requires |b| == SIZE
    ensures Chksum.FromBytes(b).ToBytes() == b
  {
    U32BeOfValue(b);
  }

  const HELLO: seq<byte> := [104, 101, 108, 108, 111]
  const WORLD: seq<byte> := [119, 111, 114, 108, 100]
  /** "hello world" as bytes. */
  const HELLO_WORLD: seq<byte> := HELLO + [32] + WORLD

  /** Hashing a concatenation is hashing the second part from where the first left off. */
  lemma {:induction false} Djb2Concat(h: bv32, a: seq<byte>, b: seq<byte>)
    ensures Djb2With(h, a + b) == Djb2With(Djb2With(h, a), b)
    decreases |a|
  {
    if |a| == 0 {
      assert a + b == b;
    } else {
      assert (a + b)[1..] == a[1..] + b;
      Djb2Concat((h * 33) ^ Widen(a[0]), a[1..], b);
    }
  }

  /** A checksum from the two stages of its hash: over the predecessor, then over the payload. */
  lemma HashFrom(prev: Chksum, data: seq<byte>, h0: bv32, h1: bv32)
    requires Djb2(prev.ToBytes()) == h0 && Djb2With(h0, data) == h1
    ensures Chksum.Hash(prev, data) == Chksum(Mask(h1))
  {
  }

  /** The checksum of "hello world" chained to the zero checksum. */
  lemma HashOfHelloWorld()
    ensures Chksum.Hash(Chksum.Zero(), HELLO_WORLD) == Chksum(646036933)
  {
    var h := Djb2(Chksum.Zero().ToBytes());
    assert h == 0x7C5D_0F85 by {
      HashOfZero();
    }
    assert Djb2With(h, HELLO_WORLD) == 0xA681_BDC5 by {
      Djb2Concat(h, HELLO + [32], WORLD);
      Djb2Concat(h, HELLO, [32]);
      HelloRun();
      SpaceRun();
      WorldRun();
    }
    assert Mask(0xA681_BDC5) == 646036933;
  }

  lemma HelloRun()
    ensures Djb2With(0x7C5D_0F85, HELLO) == 0xF4BA_7867
  {
    assert HELLO == [104, 101] + [108, 108, 111];
    Djb2Concat(0x7C5D_0F85, [104, 101], [108, 108, 111]);
    assert Djb2With(0x7C5D_0F85, [104, 101]) == 0x07DF_0988 by {}
    assert Djb2With(0x07DF_0988, [108, 108, 111]) == 0xF4BA_7867 by {}
  }

  lemma SpaceRun()
    ensures Djb2With(0xF4BA_7867, [32]) == 0x8C09_8567
  {
  }

  lemma WorldRun()
    ensures Djb2With(0x8C09_8567, WORLD) == 0xA681_BDC5
  {
    assert WORLD == [119, 111] + [114, 108, 100];
    Djb2Concat(0x8C09_8567, [119, 111], [114, 108, 100]);
    assert Djb2With(0x8C09_8567, [119, 111]) == 0xB480_785F by {}
    assert Djb2With(0xB480_785F, [114, 108, 100]) == 0xA681_BDC5 by {}
  }

  /** The hash of the zero checksum's encoding, where every first savegame's checksum starts. */
  lemma HashOfZero()
    ensures Djb2(Chksum.Zero().ToBytes()) == 0x7C5D_0F85
  {
    assert Chksum.Zero().ToBytes() == [0, 0, 0, 0];
  }

  /** An all-ones checksum is invalid; the largest 31-bit one is valid. */
  lemma HeaderMaskExamples()
    ensures !Chksum(0xFFFF_FFFF).IsValid()
    ensures Chksum(0x7FFF_FFFF).IsValid()
  {
  }
}
