/** CRC-16/CCITT-FALSE, the checksum that guards every RS41 subframe:
    polynomial 0x1021 (ITU-T V.41), initial register 0xFFFF, bytes fed most
    significant bit first, no reflection and no final xor. The register is a
    natural number below 2^16. */
module Crc16 {
  import opened Words

  const Poly: nat := 0x1021
  const Init: nat := 0xFFFF
  const Top: nat := 0x8000

  predicate IsU16(c: nat) { c < 0x1_0000 }

  /** One bit step of the shift register: shift left, dropping bit 15, and
      fold in the polynomial when the dropped bit was 1. */
  function Shift(c: nat): nat
  {
    if c >= Top then Xor((c - Top) * 2, Poly) else c * 2
  }

  /** n bit steps. */
  function Shifts(c: nat, n: nat): nat
  {
    if n == 0 then c else Shift(Shifts(c, n - 1))
  }

  /** The byte xored into the high half of the register. */
  function Load(c: nat, b: Byte): nat
  {
    Xor(c, b * 0x100)
  }

  /** Feeds one byte into the register: load it, then eight bit steps. */
  function UpdateByte(c: nat, b: Byte): nat
  {
    Shifts(Load(c, b), 8)
  }

  /** The register after feeding `data`, first byte first, starting from `c`. */
  function Crc(c: nat, data: seq<Byte>): nat
    decreases |data|
  {
    if |data| == 0 then c else Crc(UpdateByte(c, data[0]), data[1..])
  }

  lemma ShiftBound(c: nat)
    requires IsU16(c)
    ensures IsU16(Shift(c))
  {
    Pow2Of16();
    if c >= Top {
      XorBound((c - Top) * 2, Poly, 16);
    }
  }

  lemma {:induction false} ShiftsBound(c: nat, n: nat)
    requires IsU16(c)
    ensures IsU16(Shifts(c, n))
  {
    if n > 0 {
      ShiftsBound(c, n - 1);
      ShiftBound(Shifts(c, n - 1));
    }
  }

  lemma UpdateBound(c: nat, b: Byte)
    requires IsU16(c)
    ensures IsU16(UpdateByte(c, b))
  {
    Pow2Of16();
    XorBound(c, b * 0x100, 16);
    ShiftsBound(Load(c, b), 8);
  }

  /** The CRC register never leaves 16 bits. */
  lemma {:induction false} CrcBound(c: nat, data: seq<Byte>)
    requires IsU16(c)
    ensures IsU16(Crc(c, data))
    decreases |data|
  {
    if |data| > 0 {
      UpdateBound(c, data[0]);
      CrcBound(UpdateByte(c, data[0]), data[1..]);
    }
  }

  /** The polynomial sets the lowest bit, which a plain shift leaves clear,
      so the lowest bit after a step tells whether the polynomial was folded in. */
  lemma ShiftParity(c: nat)
    ensures Shift(c) % 2 == (if c >= Top then 1 else 0)
  {
    if c >= Top {
      var x := (c - Top) * 2;
      assert Xor(x, Poly) % 2 == 1 by {
        assert Poly % 2 == 1 && x % 2 == 0;
      }
    }
  }

  /** A bit step loses no information. */
  lemma ShiftInjective(a: nat, b: nat)
    requires Shift(a) == Shift(b)
    ensures a == b
  {
    ShiftParity(a);
    ShiftParity(b);
    if a >= Top && b >= Top {
      XorCancel((a - Top) * 2, (b - Top) * 2, Poly);
    }
  }

  lemma {:induction false} ShiftsInjective(a: nat, b: nat, n: nat)
    requires Shifts(a, n) == Shifts(b, n)
    ensures a == b
  {
    if n > 0 {
      ShiftInjective(Shifts(a, n - 1), Shifts(b, n - 1));
      ShiftsInjective(a, b, n - 1);
    }
  }

  /** Feeding a byte is injective in the register for a fixed byte ... */
  lemma UpdateInjectiveRegister(c: nat, d: nat, x: Byte)
    requires UpdateByte(c, x) == UpdateByte(d, x)
    ensures c == d
  {
    ShiftsInjective(Load(c, x), Load(d, x), 8);
    XorCancel(c, d, x * 0x100);
  }

  /** ... and in the byte for a fixed register. */
  lemma UpdateInjectiveByte(c: nat, x: Byte, y: Byte)
    requires UpdateByte(c, x) == UpdateByte(c, y)
    ensures x == y
  {
    ShiftsInjective(Load(c, x), Load(c, y), 8);
    LoadInjectiveByte(c, x, y);
  }

  lemma LoadInjectiveByte(c: nat, x: Byte, y: Byte)
    requires Load(c, x) == Load(c, y)
    ensures x == y
  {
    XorSymmetric(c, x * 0x100);
    XorSymmetric(c, y * 0x100);
    XorCancel(x * 0x100, y * 0x100, c);
  }

  /** Two registers that end equal after the same data were equal. */
  lemma {:induction false} CrcInjective(c: nat, d: nat, s: seq<Byte>)
    requires Crc(c, s) == Crc(d, s)
    ensures c == d
    decreases |s|
  {
    if |s| > 0 {
      CrcInjective(UpdateByte(c, s[0]), UpdateByte(d, s[0]), s[1..]);
      UpdateInjectiveRegister(c, d, s[0]);
    }
  }

  /** Feeding a concatenation is feeding one part after the other. */
  lemma {:induction false} CrcSplit(c: nat, p: seq<Byte>, s: seq<Byte>)
    ensures Crc(c, p + s) == Crc(Crc(c, p), s)
    decreases |p|
  {
    if |p| == 0 {
      assert p + s == s;
    } else {
      assert (p + s)[0] == p[0] && (p + s)[1..] == p[1..] + s;
      CrcSplit(UpdateByte(c, p[0]), p[1..], s);
    }
  }

  /** CRC-16 detects every corruption confined to a single byte: two equally
      long messages that differ in exactly one byte have different CRCs. */
  lemma SingleByteErrorDetected(m: seq<Byte>, m': seq<Byte>, k: nat)
    requires |m| == |m'| && k < |m| && m[k] != m'[k]
    requires forall i :: 0 <= i < |m| && i != k ==> m[i] == m'[i]
    ensures Crc(Init, m) != Crc(Init, m')
  {
    var p, s := m[..k], m[k + 1..];
    assert m'[..k] == p && m'[k + 1..] == s;
    assert m == p + ([m[k]] + s) && m' == p + ([m'[k]] + s);
    CrcSplit(Init, p, [m[k]] + s);
    CrcSplit(Init, p, [m'[k]] + s);
    var c := Crc(Init, p);
    assert Crc(c, [m[k]] + s) == Crc(UpdateByte(c, m[k]), s);
    assert Crc(c, [m'[k]] + s) == Crc(UpdateByte(c, m'[k]), s);
    if Crc(Init, m) == Crc(Init, m') {
      CrcInjective(UpdateByte(c, m[k]), UpdateByte(c, m'[k]), s);
      UpdateInjectiveByte(c, m[k], m'[k]);
    }
  }
}
