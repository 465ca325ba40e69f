/**
 * What the `Flash` trait's operations do to the contents of a flash chip,
 * as functions on the whole memory. Two kinds of medium back the trait:
 * byte-wise memory (EEPROM), where a write overwrites bytes and an erase
 * resets the one byte it is given, and sectored NOR flash, where a write can
 * only clear bits and an erase resets the whole sector holding the address.
 */
module Flash {
  import opened Bytes

  /** The value of an erased byte. */
  const ERASED: byte := 0xFF

  datatype Medium = ByteWise | Sectored(sectorSize: nat)

  /** One call on the `Flash` trait. A read changes nothing but is kept so that call sequences can be stated. */
  datatype Op = Read(addr: nat, len: nat) | Write(addr: nat, bytes: seq<byte>) | Erase(addr: nat)

  /** Erasing at `addr` resets byte `k`. */
  predicate Erases(md: Medium, addr: nat, k: nat)
  {
    match md
    case ByteWise => k == addr
    case Sectored(s) => 0 < s && k / s == addr / s
  }

  /** Writing `len` bytes at `addr` reaches byte `k`. */
  predicate Covers(addr: nat, len: nat, k: nat)
  {
    addr <= k < addr + len
  }

  /** Byte `k` after `op`. */
  function ByteAfter(md: Medium, mem: seq<byte>, op: Op, k: nat): byte
    requires k < |mem|
  {
    match op
    case Read(_, _) => mem[k]
    case Write(a, b) =>
      if !Covers(a, |b|, k) then mem[k]
      else if md.ByteWise? then b[k - a]
      else ByteAnd(mem[k], b[k - a])
    case Erase(a) => if Erases(md, a, k) then ERASED else mem[k]
  }

  /** The memory after one operation. */
  function Apply(md: Medium, mem: seq<byte>, op: Op): (r: seq<byte>)
    ensures |r| == |mem|
  {
    seq(|mem|, k requires 0 <= k < |mem| => ByteAfter(md, mem, op, k))
  }

  /** The memory after a sequence of operations, first to last. */
  function ApplyAll(md: Medium, mem: seq<byte>, ops: seq<Op>): (r: seq<byte>)
    ensures |r| == |mem|
    decreases |ops|
  {
    if |ops| == 0 then mem else ApplyAll(md, Apply(md, mem, ops[0]), ops[1..])
  }

  /** `op` leaves byte `k` alone whatever the memory holds. */
  predicate OpAvoids(md: Medium, op: Op, k: nat)
  {
    match op
    case Read(_, _) => true
    case Write(a, b) => !Covers(a, |b|, k)
    case Erase(a) => !Erases(md, a, k)
  }

  predicate Avoids(md: Medium, ops: seq<Op>, k: nat)
  {
    forall op :: op in ops ==> OpAvoids(md, op, k)
  }

  /** No write in `ops` reaches byte `k` (erases may). */
  predicate NoWriteCovers(ops: seq<Op>, k: nat)
  {
    forall op :: op in ops && op.Write? ==> !Covers(op.addr, |op.bytes|, k)
  }

  /** Running two sequences one after the other is running their concatenation. */
  lemma {:induction false} ApplyAllConcat(md: Medium, mem: seq<byte>, a: seq<Op>, b: seq<Op>)
    ensures ApplyAll(md, mem, a + b) == ApplyAll(md, ApplyAll(md, mem, a), b)
    decreases |a|
  {
    if |a| == 0 {
      assert a + b == b;
    } else {
      assert (a + b)[0] == a[0];
      assert (a + b)[1..] == a[1..] + b;
      ApplyAllConcat(md, Apply(md, mem, a[0]), a[1..], b);
    }
  }

  /** Running one operation and then the rest. */
  lemma ApplyAllCons(md: Medium, mem: seq<byte>, op: Op, ops: seq<Op>)
    ensures ApplyAll(md, mem, [op] + ops) == ApplyAll(md, Apply(md, mem, op), ops)
  {
    assert ([op] + ops)[1..] == ops;
  }

  /** Running the operations and then one more. */
  lemma ApplyAllSnoc(md: Medium, mem: seq<byte>, ops: seq<Op>, op: Op)
    ensures ApplyAll(md, mem, ops + [op]) == Apply(md, ApplyAll(md, mem, ops), op)
  {
    ApplyAllConcat(md, mem, ops, [op]);
    ApplyAllCons(md, ApplyAll(md, mem, ops), op, []);
  }

  /** Each byte's new value depends on that byte alone, so an operation on the whole memory agrees with it on a prefix. */
  lemma ApplyPrefix(md: Medium, mem: seq<byte>, op: Op, n: nat)
    requires n <= |mem|
    ensures Apply(md, mem, op)[..n] == Apply(md, mem[..n], op)
  {
    forall k | 0 <= k < n
      ensures Apply(md, mem, op)[k] == Apply(md, mem[..n], op)[k]
    {
      assert ByteAfter(md, mem, op, k) == ByteAfter(md, mem[..n], op, k);
    }
  }

  /** A read leaves the memory as it was. */
  lemma ApplyRead(md: Medium, mem: seq<byte>, addr: nat, len: nat)
    ensures Apply(md, mem, Read(addr, len)) == mem
  {
  }

  /** What no operation of a sequence reaches, no operation of a part of it reaches. */
  lemma AvoidsPrefix(md: Medium, ops: seq<Op>, p: nat, k: nat)
    requires p <= |ops| && Avoids(md, ops, k)
    ensures Avoids(md, ops[..p], k)
  {
    assert forall op :: op in ops[..p] ==> op in ops;
  }

  /** A sequence of operations none of which reaches byte `k` leaves it unchanged. */
  lemma {:induction false} ApplyAllAvoids(md: Medium, mem: seq<byte>, ops: seq<Op>, k: nat)
    requires k < |mem|
    requires Avoids(md, ops, k)
    ensures ApplyAll(md, mem, ops)[k] == mem[k]
    decreases |ops|
  {
    if |ops| != 0 {
      assert ops[0] in ops;
      assert forall op :: op in ops[1..] ==> op in ops;
      ApplyAllAvoids(md, Apply(md, mem, ops[0]), ops[1..], k);
    }
  }

  /** Erasing never un-erases a byte, so an erased byte stays erased until a write reaches it. */
  lemma {:induction false} ErasedStaysErased(md: Medium, mem: seq<byte>, ops: seq<Op>, k: nat)
    requires k < |mem| && mem[k] == ERASED
    requires NoWriteCovers(ops, k)
    ensures ApplyAll(md, mem, ops)[k] == ERASED
    decreases |ops|
  {
    if |ops| != 0 {
      assert ops[0] in ops;
      assert forall op :: op in ops[1..] ==> op in ops;
      ErasedStaysErased(md, Apply(md, mem, ops[0]), ops[1..], k);
    }
  }

  /**
   * Reading back what was just written gives the written bytes: always on
   * byte-wise memory, and on NOR flash when the target bytes were erased.
   */
  lemma WriteReadBack(md: Medium, mem: seq<byte>, a: nat, b: seq<byte>)
    requires a + |b| <= |mem|
    requires md.Sectored? ==> forall k :: a <= k < a + |b| ==> mem[k] == ERASED
    ensures Apply(md, mem, Write(a, b))[a..a + |b|] == b
  {
    var r := Apply(md, mem, Write(a, b));
    forall k | 0 <= k < |b|
      ensures r[a + k] == b[k]
    {
      assert ByteAfter(md, mem, Write(a, b), a + k) == r[a + k];
      if md.Sectored? {
        assert AllOnes(ERASED as nat) by { AllOnesByte(); }
        AndAllOnes(ERASED as nat, b[k] as nat);
      }
    }
  }

  /** On NOR flash a write only clears bits: every bit set afterwards was set before. */
  lemma NorWriteOnlyClears(s: nat, mem: seq<byte>, a: nat, b: seq<byte>)
    ensures var r := Apply(Sectored(s), mem, Write(a, b));
      forall k :: 0 <= k < |mem| ==> ByteAnd(r[k], mem[k]) == r[k]
  {
    var r := Apply(Sectored(s), mem, Write(a, b));
    forall k | 0 <= k < |mem|
      ensures ByteAnd(r[k], mem[k]) == r[k]
    {
      assert r[k] == ByteAfter(Sectored(s), mem, Write(a, b), k);
      if Covers(a, |b|, k) {
        AndAbsorbs(mem[k] as nat, b[k - a] as nat);
      } else {
        AndSelf(mem[k] as nat);
      }
    }
  }
}
