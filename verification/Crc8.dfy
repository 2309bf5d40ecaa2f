/** Bytes and the CRC-8 shared by the CDC protocol and the inter-half link
    (polynomial 0x31, initial value 0, most significant bit first). */
module Crc8 {
  import opened Wrappers

  function Pow2(k: nat): nat { if k == 0 then 1 else 2 * Pow2(k - 1) }

  /** Exclusive or of the low `k` bits of `a` and `b`. */
  function XorBits(a: nat, b: nat, k: nat): (r: nat)
    ensures r < Pow2(k)
    decreases k
  {
    if k == 0 then 0 else 2 * XorBits(a / 2, b / 2, k - 1) + (a + b) % 2
  }

  function Xor(a: byte, b: byte): byte {
    assert Pow2(8) == 256;
    XorBits(a, b, 8)
  }

  /** One left shift of the eight-bit register, folding in the polynomial when a bit falls out. */
  function ShiftBit(crc: byte): byte {
    if crc >= 0x80 then Xor((2 * crc) % 256, 0x31) else 2 * crc
  }

  function ShiftBits(crc: byte, n: nat): byte
    decreases n
  {
    if n == 0 then crc else ShiftBits(ShiftBit(crc), n - 1)
  }

  /** The register after one more message byte. */
  function Absorb(crc: byte, b: byte): byte {
    ShiftBits(Xor(crc, b), 8)
  }

  /** The register after the message `data`, starting from `crc`. */
  function Register(crc: byte, data: seq<byte>): byte
    decreases |data|
  {
    if data == [] then crc else Register(Absorb(crc, data[0]), data[1..])
  }

  function Crc(data: seq<byte>): byte { Register(0, data) }

  /** The nested update loop. */
  method ComputeCrc(data: array<byte>, start: nat, len: nat) returns (crc: byte)
    requires start + len <= data.Length
    ensures crc == Crc(data[start..start + len])
  {
    hide ShiftBit;
    hide Xor;
    crc := 0;
    for i := 0 to len
      invariant Register(crc, data[start + i..start + len]) == Crc(data[start..start + len])
    {
      assert data[start + i..start + len][1..] == data[start + i + 1..start + len];
      ghost var before := crc;
      crc := Xor(crc, data[start + i]);
      for bit := 0 to 8
        invariant ShiftBits(crc, 8 - bit) == Absorb(before, data[start + i])
      {
        crc := ShiftBit(crc);
      }
    }
  }

  // ---- What the checksum detects ----

  lemma SameHalves(p: nat, a: nat, q: nat, b: nat, c: nat)
    requires 2 * p + (a + c) % 2 == 2 * q + (b + c) % 2
    ensures p == q && (a / 2 == b / 2 ==> a == b)
  {
    var x, y := (a + c) % 2, (b + c) % 2;
    assert 0 <= x < 2 && 0 <= y < 2 && 2 * p + x == 2 * q + y;
  }

  lemma {:induction false} XorBitsInjective(a: nat, b: nat, c: nat, k: nat)
    requires a < Pow2(k) && b < Pow2(k)
    requires XorBits(a, c, k) == XorBits(b, c, k)
    ensures a == b
    decreases k
  {
    if k > 0 {
      SameHalves(XorBits(a / 2, c / 2, k - 1), a, XorBits(b / 2, c / 2, k - 1), b, c);
      XorBitsInjective(a / 2, b / 2, c / 2, k - 1);
    }
  }

  lemma {:induction false} XorBitsSymmetric(a: nat, b: nat, k: nat)
    ensures XorBits(a, b, k) == XorBits(b, a, k)
    decreases k
  {
    if k > 0 { XorBitsSymmetric(a / 2, b / 2, k - 1); }
  }

  lemma XorInjective(a: byte, b: byte, c: byte)
    requires Xor(a, c) == Xor(b, c) || Xor(c, a) == Xor(c, b)
    ensures a == b
  {
    assert Pow2(8) == 256;
    XorBitsSymmetric(a, c, 8);
    XorBitsSymmetric(b, c, 8);
    XorBitsInjective(a, b, c, 8);
  }

  lemma {:induction false} XorBitsSelf(a: nat, k: nat)
    ensures XorBits(a, a, k) == 0
    decreases k
  {
    if k > 0 { XorBitsSelf(a / 2, k - 1); }
  }

  lemma XorParity(a: nat, b: nat, k: nat)
    requires k > 0
    ensures XorBits(a, b, k) % 2 == (a + b) % 2
  {
  }

  /** The polynomial's low bit marks the registers that shifted a one out. */
  lemma ShiftBitParity(a: byte)
    ensures ShiftBit(a) % 2 == if a >= 0x80 then 1 else 0
  {
    hide XorBits;
    XorParity((2 * a) % 256, 0x31, 8);
  }

  lemma ShiftBitInjective(a: byte, b: byte)
    requires ShiftBit(a) == ShiftBit(b)
    ensures a == b
  {
    hide Xor;
    ShiftBitParity(a);
    ShiftBitParity(b);
    if a >= 0x80 {
      XorInjective((2 * a) % 256, (2 * b) % 256, 0x31);
    }
  }

  lemma {:induction false} ShiftBitsInjective(a: byte, b: byte, n: nat)
    requires ShiftBits(a, n) == ShiftBits(b, n)
    ensures a == b
    decreases n
  {
    hide ShiftBit;
    if n > 0 {
      ShiftBitsInjective(ShiftBit(a), ShiftBit(b), n - 1);
      ShiftBitInjective(a, b);
    }
  }

  lemma {:induction false} RegisterInjective(a: byte, b: byte, data: seq<byte>)
    requires Register(a, data) == Register(b, data)
    ensures a == b
    decreases |data|
  {
    hide ShiftBits;
    hide Xor;
    if data != [] {
      RegisterInjective(Absorb(a, data[0]), Absorb(b, data[0]), data[1..]);
      ShiftBitsInjective(Xor(a, data[0]), Xor(b, data[0]), 8);
      XorInjective(a, b, data[0]);
    }
  }

  lemma {:induction false} RegisterConcat(crc: byte, a: seq<byte>, b: seq<byte>)
    ensures Register(crc, a + b) == Register(Register(crc, a), b)
    decreases |a|
  {
    hide Absorb;
    if a == [] {
      assert a + b == b;
    } else {
      assert (a + b)[1..] == a[1..] + b;
      RegisterConcat(Absorb(crc, a[0]), a[1..], b);
    }
  }

  lemma RegisterAround(before: seq<byte>, x: byte, after: seq<byte>)
    ensures Register(0, before + [x] + after) == Register(Absorb(Register(0, before), x), after)
  {
    hide Absorb;
    RegisterConcat(0, before + [x], after);
    RegisterConcat(0, before, [x]);
    assert [x][1..] == [];
  }

  /** Two messages that differ in exactly one byte have different checksums. */
  lemma OneByteChangesCrc(before: seq<byte>, x: byte, y: byte, after: seq<byte>)
    requires x != y
    ensures Crc(before + [x] + after) != Crc(before + [y] + after)
  {
    hide ShiftBits;
    hide Xor;
    hide Register;
    var r := Register(0, before);
    RegisterAround(before, x, after);
    RegisterAround(before, y, after);
    if Crc(before + [x] + after) == Crc(before + [y] + after) {
      RegisterInjective(Absorb(r, x), Absorb(r, y), after);
      ShiftBitsInjective(Xor(r, x), Xor(r, y), 8);
      XorInjective(x, y, r);
    }
  }

  /** A message followed by its own checksum has checksum zero. */
  lemma CrcOfCodeword(m: seq<byte>)
    ensures Crc(m + [Crc(m)]) == 0
  {
    RegisterAround(m, Crc(m), []);
    assert m + [Crc(m)] + [] == m + [Crc(m)];
    XorBitsSelf(Crc(m), 8);
    ShiftedZero(8);
  }

  lemma ShiftedZero(n: nat)
    ensures ShiftBits(0, n) == 0
    decreases n
  {
    if n > 0 { ShiftedZero(n - 1); }
  }
}
