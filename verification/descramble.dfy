/** Descrambling of an RS41 frame: every byte is bit-reversed, then xored
    with 0xFF and with a 64-byte pseudorandom sequence that repeats along the
    frame. */
module Descramble {
  /** Length of the pseudorandom sequence. */
  const PrnPeriod: nat := 64

  /** The pseudorandom sequence the sonde xors over its frames. */
  const Prn: seq<bv8> := [
    0x96, 0x83, 0x3e, 0x51, 0xb1, 0x49, 0x08, 0x98,
    0x32, 0x05, 0x59, 0x0e, 0xf9, 0x44, 0xc6, 0x26,
    0x21, 0x60, 0xc2, 0xea, 0x79, 0x5d, 0x6d, 0xa1,
    0x54, 0x69, 0x47, 0x0c, 0xdc, 0xe8, 0x5c, 0xf1,
    0xf7, 0x76, 0x82, 0x7f, 0x07, 0x99, 0xa2, 0x2c,
    0x93, 0x7c, 0x30, 0x63, 0xf5, 0x10, 0x2e, 0x61,
    0xd0, 0xbc, 0xb4, 0xb6, 0x06, 0xaa, 0xf4, 0x23,
    0x78, 0x6e, 0x3b, 0xae, 0xbf, 0x7b, 0x4c, 0xc1
  ]

  /** The single-bit mask 1 << j. */
  function BitMask(j: nat): bv8
    requires j < 8
  {
    match j
    case 0 => 0x01 case 1 => 0x02 case 2 => 0x04 case 3 => 0x08
    case 4 => 0x10 case 5 => 0x20 case 6 => 0x40 case _ => 0x80
  }

  /** Reference bit reversal, one term per bit: bit j of `b` lands on bit 7 - j. */
  function Reverse8(b: bv8): bv8
  {
    (if b & 0x01 != 0 then 0x80 else 0) | (if b & 0x02 != 0 then 0x40 else 0) |
    (if b & 0x04 != 0 then 0x20 else 0) | (if b & 0x08 != 0 then 0x10 else 0) |
    (if b & 0x10 != 0 then 0x08 else 0) | (if b & 0x20 != 0 then 0x04 else 0) |
    (if b & 0x40 != 0 then 0x02 else 0) | (if b & 0x80 != 0 then 0x01 else 0)
  }

  /** What round j of the reversal loop ors in: bit 7 - j of `b`, moved to
      bit j. */
  function MovedBit(b: bv8, j: nat): bv8
    requires j < 8
  {
    if b & BitMask(7 - j) != 0 then BitMask(j) else 0
  }

  /** The loop's accumulator after rounds 0 .. j - 1. */
  function Gathered(b: bv8, j: nat): bv8
    requires j <= 8
  {
    if j == 0 then 0 else Gathered(b, j - 1) | MovedBit(b, j - 1)
  }

  lemma GatheredLow(b: bv8)
    ensures Gathered(b, 4) == Reverse8(b) & 0x0F
  {
    assert Gathered(b, 1) == Gathered(b, 0) | MovedBit(b, 0);
    assert MovedBit(b, 0) == (if b & 0x80 != 0 then 0x01 else 0);
    assert Gathered(b, 2) == Gathered(b, 1) | MovedBit(b, 1);
    assert MovedBit(b, 1) == (if b & 0x40 != 0 then 0x02 else 0);
    assert Gathered(b, 3) == Gathered(b, 2) | MovedBit(b, 2);
    assert MovedBit(b, 2) == (if b & 0x20 != 0 then 0x04 else 0);
    assert Gathered(b, 4) == Gathered(b, 3) | MovedBit(b, 3);
    assert MovedBit(b, 3) == (if b & 0x10 != 0 then 0x08 else 0);
  }

  /** Eight rounds of the loop reverse the byte. */
  lemma GatheredAll(b: bv8)
    ensures Gathered(b, 8) == Reverse8(b)
  {
    GatheredLow(b);
    assert Gathered(b, 5) == Gathered(b, 4) | MovedBit(b, 4);
    assert MovedBit(b, 4) == (if b & 0x08 != 0 then 0x10 else 0);
    assert Gathered(b, 6) == Gathered(b, 5) | MovedBit(b, 5);
    assert MovedBit(b, 5) == (if b & 0x04 != 0 then 0x20 else 0);
    assert Gathered(b, 7) == Gathered(b, 6) | MovedBit(b, 6);
    assert MovedBit(b, 6) == (if b & 0x02 != 0 then 0x40 else 0);
    assert Gathered(b, 8) == Gathered(b, 7) | MovedBit(b, 7);
    assert MovedBit(b, 7) == (if b & 0x01 != 0 then 0x80 else 0);
  }

  /** Reversing twice gives the byte back. */
  lemma Reverse8Involution(b: bv8)
    ensures Reverse8(Reverse8(b)) == b
  {
  }

  /** The bit-reversal loop of the descrambler. */
  method ReverseByte(b: bv8) returns (tmp: bv8)
    ensures tmp == Reverse8(b)
  {
    tmp := 0;
    for j := 0 to 8
      invariant tmp == Gathered(b, j)
    {
      tmp := tmp | MovedBit(b, j);
    }
    GatheredAll(b);
  }

  /** One byte descrambled against its sequence byte `k`. */
  function DescrambleByte(b: bv8, k: bv8): bv8
  {
    0xFF ^ Reverse8(b) ^ k
  }

  /** The sonde's side: the byte whose descrambling is `x`. */
  function ScrambleByte(x: bv8, k: bv8): bv8
  {
    Reverse8(0xFF ^ x ^ k)
  }

  lemma ByteRoundTrips(x: bv8, k: bv8)
    ensures DescrambleByte(ScrambleByte(x, k), k) == x
    ensures ScrambleByte(DescrambleByte(x, k), k) == x
  {
    Reverse8Involution(0xFF ^ x ^ k);
    Reverse8Involution(x);
  }

  /** The descrambled frame. */
  function Descrambled(frame: seq<bv8>): (out: seq<bv8>)
    ensures |out| == |frame|
  {
    seq(|frame|, i requires 0 <= i < |frame| => DescrambleByte(frame[i], Prn[i % PrnPeriod]))
  }

  /** The frame whose descrambling is `out`. */
  function Scrambled(out: seq<bv8>): (frame: seq<bv8>)
    ensures |frame| == |out|
  {
    seq(|out|, i requires 0 <= i < |out| => ScrambleByte(out[i], Prn[i % PrnPeriod]))
  }

  /** Descrambling undoes scrambling ... */
  lemma DescrambleScrambled(out: seq<bv8>)
    ensures Descrambled(Scrambled(out)) == out
  {
    forall i | 0 <= i < |out|
      ensures Descrambled(Scrambled(out))[i] == out[i]
    {
      ByteRoundTrips(out[i], Prn[i % PrnPeriod]);
    }
  }

  /** ... and scrambling undoes descrambling, so descrambling loses nothing. */
  lemma ScrambleDescrambled(frame: seq<bv8>)
    ensures Scrambled(Descrambled(frame)) == frame
  {
    forall i | 0 <= i < |frame|
      ensures Scrambled(Descrambled(frame))[i] == frame[i]
    {
      ByteRoundTrips(frame[i], Prn[i % PrnPeriod]);
    }
  }

  /** The descrambling loop over the whole frame, in place. */
  method Descramble(frame: seq<bv8>) returns (out: seq<bv8>)
    ensures |out| == |frame|
    ensures forall i :: 0 <= i < |frame| ==> out[i] == 0xFF ^ Reverse8(frame[i]) ^ Prn[i % PrnPeriod]
    ensures out == Descrambled(frame)
  {
    out := frame;
    for i := 0 to |frame|
      invariant |out| == |frame|
      invariant forall t :: 0 <= t < i ==> out[t] == DescrambleByte(frame[t], Prn[t % PrnPeriod])
      invariant forall t :: i <= t < |frame| ==> out[t] == frame[t]
    {
      var tmp := ReverseByte(out[i]);
      out := out[i := 0xFF ^ tmp ^ Prn[i % PrnPeriod]];
    }
  }
}
