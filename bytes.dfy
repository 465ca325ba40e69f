/**
 * Byte-level primitives shared by the checksum and slot header codecs:
 * the byte type, big-endian u32 conversion, the usize saturating add the
 * engine uses on slot indices, and a few facts about division.
 */
module Bytes {

  /** An unsigned byte. */
  newtype byte = x: int | 0 <= x < 0x100

  datatype Option<T> = None | Some(value: T)

  /** Number of distinct u32 values. */
  const U32_LIMIT: nat := 0x1_0000_0000

  /** usize::MAX on the 64-bit host the crate's tests run on. */
  const USIZE_MAX: nat := 0xFFFF_FFFF_FFFF_FFFF

  function Min(a: nat, b: nat): nat
  {
    if a <= b then a else b
  }

  /** usize::saturating_add. */
  function SatAdd(a: nat, b: nat): nat
  {
    if a + b <= USIZE_MAX then a + b else USIZE_MAX
  }

  /** usize::div_ceil. */
  function DivCeil(a: nat, b: nat): nat
    requires 0 < b
  {
    (a + b - 1) / b
  }

  /** A u32 value. */
  type u32 = x: nat | x < U32_LIMIT

  /** Base-256 digits of a u32, most significant first. */
  function Digits(v: nat): (int, int, int, int)
  {
    var q1 := v / 0x100;
    var q2 := q1 / 0x100;
    (q2 / 0x100, q2 % 0x100, q1 % 0x100, v % 0x100)
  }

  /** u32::to_be_bytes: most significant byte first. */
  function U32ToBe(x: u32): (r: seq<byte>)
    ensures |r| == 4
    ensures U32FromBe(r) == x
    ensures r[0] < 0x80 <==> x < 0x8000_0000
  {
    var t := Digits(x);
    DigitsOfValue(x);
    [t.0 as byte, t.1 as byte, t.2 as byte, t.3 as byte]
  }

  /** The digits of a u32 are bytes that compose back to it; the first is below 0x80 exactly for values below 2^31. */
  lemma DigitsOfValue(x: u32)
    ensures var t := Digits(x);
      && 0 <= t.0 < 0x100 && 0 <= t.1 < 0x100 && 0 <= t.2 < 0x100 && 0 <= t.3 < 0x100
      && ((t.0 * 0x100 + t.1) * 0x100 + t.2) * 0x100 + t.3 == x
      && (t.0 < 0x80 <==> x < 0x8000_0000)
  {
    var q1 := x / 0x100;
    var q2 := q1 / 0x100;
    assert x == q1 * 0x100 + x % 0x100;
    assert q1 == q2 * 0x100 + q1 % 0x100;
    assert q2 == (q2 / 0x100) * 0x100 + q2 % 0x100;
  }

  /** u32::from_be_bytes. */
  function U32FromBe(b: seq<byte>): (x: u32)
    requires |b| == 4
  {
    ((b[0] as int * 0x100 + b[1] as int) * 0x100 + b[2] as int) * 0x100 + b[3] as int
  }

  /** The other direction of the round trip: every 4-byte string is the encoding of its value. */
  lemma U32BeOfValue(b: seq<byte>)
    requires |b| == 4
    ensures U32ToBe(U32FromBe(b)) == b
  {
    var b0, b1, b2, b3 := b[0] as int, b[1] as int, b[2] as int, b[3] as int;
    var q2 := b0 * 0x100 + b1;
    var q1 := q2 * 0x100 + b2;
    SplitDigit(q1, b3); SplitDigit(q2, b2); SplitDigit(b0, b1);
    assert Digits(U32FromBe(b)) == (b0, b1, b2, b3);
  }

  lemma SplitDigit(q: int, r: int)
    requires 0 <= q && 0 <= r < 0x100
    ensures (q * 0x100 + r) / 0x100 == q && (q * 0x100 + r) % 0x100 == r
  {
  }

  // ------------------------------------------------------------- bitwise

  /** Bitwise AND of two naturals, bit by bit from the lowest. */
  function And(a: nat, b: nat): (r: nat)
    ensures r <= a && r <= b
    decreases a
  {
    if a == 0 || b == 0 then 0
    else 2 * And(a / 2, b / 2) + (if a % 2 == 1 && b % 2 == 1 then 1 else 0)
  }

  /** `&` on two bytes. */
  function ByteAnd(a: byte, b: byte): byte
  {
    And(a as nat, b as nat) as byte
  }

  /** A number whose binary digits are all ones: 0, 1, 3, 7, .., 0xFF, .. */
  predicate AllOnes(a: nat)
    decreases a
  {
    a == 0 || (a % 2 == 1 && AllOnes(a / 2))
  }

  /** 0xFF is all ones. */
  lemma AllOnesByte()
    ensures AllOnes(0xFF)
  {
    assert AllOnes(0x1);
    assert AllOnes(0x3);
    assert AllOnes(0x7);
    assert AllOnes(0xF);
    assert AllOnes(0x1F);
    assert AllOnes(0x3F);
    assert AllOnes(0x7F);
  }

  /** ANDing with all ones keeps every bit of a number no larger. */
  lemma {:induction false} AndAllOnes(a: nat, b: nat)
    requires AllOnes(a) && b <= a
    ensures And(a, b) == b
    decreases a
  {
    if a != 0 && b != 0 {
      AndAllOnes(a / 2, b / 2);
    }
  }

  /** A number ANDed with itself is itself. */
  lemma {:induction false} AndSelf(a: nat)
    ensures And(a, a) == a
    decreases a
  {
    if a != 0 {
      AndSelf(a / 2);
    }
  }

  /** ANDing the result of an AND with one of its operands changes nothing: an AND only clears bits. */
  lemma {:induction false} AndAbsorbs(a: nat, b: nat)
    ensures And(And(a, b), a) == And(a, b)
    decreases a
  {
    var r := And(a, b);
    if a != 0 && b != 0 {
      AndAbsorbs(a / 2, b / 2);
      var bit := if a % 2 == 1 && b % 2 == 1 then 1 else 0;
      assert r == 2 * And(a / 2, b / 2) + bit;
      assert r / 2 == And(a / 2, b / 2) && r % 2 == bit;
    }
  }

  function Pow2(k: nat): (p: nat)
    ensures 0 < p
  {
    if k == 0 then 1 else 2 * Pow2(k - 1)
  }

  /** Below 2^(k+1), bit k is set exactly from 2^k on. */
  lemma {:induction false} AndHighBit(x: nat, k: nat)
    requires x < 2 * Pow2(k)
    ensures And(x, Pow2(k)) == 0 <==> x < Pow2(k)
  {
    if k > 0 && x > 0 {
      AndHighBit(x / 2, k - 1);
    }
  }

  /** The top bit of a byte is set exactly when the byte is at least 0x80. */
  lemma TopBit(b: byte)
    ensures And(b as nat, 0x80) == 0 <==> b < 0x80
  {
    assert Pow2(7) == 0x80;
    AndHighBit(b as nat, 7);
  }

  lemma MulLe(a: nat, b: nat, c: nat)
    requires a <= b
    ensures a * c <= b * c
  {
    assert b * c == a * c + (b - a) * c;
  }

  /** Euclidean division of `j * d + r` by `d` recovers `j` and `r`. */
  lemma DivMod(j: nat, d: nat, r: nat)
    requires r < d
    ensures (j * d + r) / d == j && (j * d + r) % d == r
  {
    var a := j * d + r;
    var q := a / d;
    if q > j {
      MulLe(j + 1, q, d);
      assert false;
    } else if q < j {
      MulLe(q + 1, j, d);
      assert false;
    }
  }

  /** Adding less than what is left of `a`'s block of `d` stays in that block. */
  lemma ModAdd(a: nat, t: nat, d: nat)
    requires 0 < d && a % d + t < d
    ensures (a + t) / d == a / d && (a + t) % d == a % d + t
  {
    var q, r := a / d, a % d;
    assert a == q * d + r;
    DivMod(q, d, r + t);
  }

  /** Division rounding up: `a` lies in the `c`-th block of `d`. */
  lemma DivCeilOfBlock(a: nat, d: nat, c: nat)
    requires 0 < d && 0 < c
    requires (c - 1) * d < a <= c * d
    ensures DivCeil(a, d) == c
  {
    assert c * d == (c - 1) * d + d;
    DivMod(c, d, a + d - 1 - c * d);
  }

  /** `k` lies in the `q`-th block of `d` bytes exactly when dividing it by `d` gives `q`. */
  lemma DivRange(k: nat, d: nat, q: nat)
    requires 0 < d
    ensures k / d == q <==> q * d <= k < q * d + d
  {
    if q * d <= k < q * d + d {
      DivMod(q, d, k - q * d);
    } else if k / d == q {
      DivMod(q, d, k % d);
      assert false;
    }
  }

  /** Division by a positive number is monotone. */
  lemma DivMono(a: nat, b: nat, d: nat)
    requires 0 < d && a <= b
    ensures a / d <= b / d
  {
    if a / d > b / d {
      MulLe(b / d + 1, a / d, d);
      assert false;
    }
  }
}
