/** The subframe walk over the data region of a decoded RS41 frame. Each
    subframe is a type byte, a one-byte payload length, the payload, and the
    CRC-16 of the payload stored low byte first; the header bytes are not
    covered by the CRC. */
module Subframes {
  import opened Words
  import opened Crc16
  import opened Rs41

  /** A subframe as carried in the data region. */
  datatype Subframe = Subframe(kind: Byte, payload: seq<Byte>)

  /** Header and CRC bytes around the payload. */
  const Overhead: nat := 4

  /** The payload length stored at the subframe starting at o. */
  function LenAt(data: seq<Byte>, o: nat): nat
  {
    ByteAt(data, o + 1)
  }

  /** Offset just past the subframe starting at o. */
  function End(data: seq<Byte>, o: nat): (e: nat)
    ensures e >= o + Overhead
  {
    o + LenAt(data, o) + Overhead
  }

  /** The payload bytes of the subframe starting at o. */
  function PayloadAt(data: seq<Byte>, o: nat): (p: seq<Byte>)
    ensures |p| == LenAt(data, o)
  {
    BytesAt(data, o + 2, LenAt(data, o))
  }

  /** The stored checksum: the two bytes after the payload, low byte first. */
  function StoredCrcAt(data: seq<Byte>, o: nat): (c: nat)
    ensures IsU16(c)
  {
    U16At(data, o + 2 + LenAt(data, o))
  }

  /** crcCheck: the payload's CRC equals the stored checksum. */
  predicate CrcCheck(data: seq<Byte>, o: nat)
  {
    Crc(Init, PayloadAt(data, o)) == StoredCrcAt(data, o)
  }

  function SubframeAt(data: seq<Byte>, o: nat): (s: Subframe)
    ensures |s.payload| < 0x100
  {
    Subframe(ByteAt(data, o), PayloadAt(data, o))
  }

  // ---------------------------------------------------------------------
  // The walk as the decoder's loop performs it
  // ---------------------------------------------------------------------

  /** Start offsets of the subframes the loop hands on, walking from o
      within the first n bytes: each step advances past one subframe; a
      subframe that would end beyond n stops the walk; one that fails its
      CRC is skipped. */
  function Walk(data: seq<Byte>, n: nat, o: nat): seq<nat>
    requires n <= |data|
    decreases n - o
  {
    if o >= n then []
    else if End(data, o) > n then []
    else (if CrcCheck(data, o) then [o] else []) + Walk(data, n, End(data, o))
  }

  /** Every start the walk hands on lies inside the region, its subframe
      ends inside the region and passes its CRC check, and the subframes
      follow one another without overlapping. */
  lemma {:induction false} WalkAccepts(data: seq<Byte>, n: nat, o: nat)
    requires n <= |data|
    ensures forall i :: 0 <= i < |Walk(data, n, o)| ==>
      var s := Walk(data, n, o)[i]; o <= s && End(data, s) <= n && CrcCheck(data, s)
    ensures forall i, j :: 0 <= i < j < |Walk(data, n, o)| ==>
      End(data, Walk(data, n, o)[i]) <= Walk(data, n, o)[j]
    decreases n - o
  {
    if o < n && End(data, o) <= n {
      var e := End(data, o);
      WalkAccepts(data, n, e);
      var w := Walk(data, n, e);
      if CrcCheck(data, o) {
        var r := [o] + w;
        assert Walk(data, n, o) == r;
        forall i | 0 <= i < |w|
          ensures e <= w[i]
        {
        }
        forall i, j | 0 <= i < j < |r|
          ensures End(data, r[i]) <= r[j]
        {
          assert r[j] == w[j - 1];
          if i > 0 {
            assert r[i] == w[i - 1];
          }
        }
      }
    }
  }

  /** The subframes at the given starts. */
  function SubframesAt(data: seq<Byte>, starts: seq<nat>): (r: seq<Subframe>)
    ensures |r| == |starts|
    ensures forall i :: 0 <= i < |r| ==> r[i] == SubframeAt(data, starts[i])
  {
    seq(|starts|, i requires 0 <= i < |starts| => SubframeAt(data, starts[i]))
  }

  /** The loop in run: walks the data region with a moving offset, leaving
      early on an overrun and skipping subframes that fail their CRC. */
  method WalkLoop(data: seq<Byte>, n: nat) returns (starts: seq<nat>)
    requires n <= |data|
    ensures starts == Walk(data, n, 0)
    ensures forall i :: 0 <= i < |starts| ==> End(data, starts[i]) <= n && CrcCheck(data, starts[i])
  {
    starts := [];
    var offset := 0;
    while offset < n
      invariant starts + Walk(data, n, offset) == Walk(data, n, 0)
      decreases n - offset
    {
      var start := offset;
      offset := offset + LenAt(data, start) + Overhead;
      if offset > n {
        assert Walk(data, n, start) == [];
        break;
      }
      assert Walk(data, n, start) == (if CrcCheck(data, start) then [start] else []) + Walk(data, n, offset);
      if !CrcCheck(data, start) {
        continue;
      }
      starts := starts + [start];
    }
    WalkAccepts(data, n, 0);
  }

  // ---------------------------------------------------------------------
  // The same walk over the remaining bytes
  // ---------------------------------------------------------------------

  /** The subframes accepted from the front of `d`: the reference reading
      of a data region as a sequence of self-delimiting records. */
  function Items(d: seq<Byte>): seq<Subframe>
    decreases |d|
  {
    if |d| == 0 then []
    else if End(d, 0) > |d| then []
    else (if CrcCheck(d, 0) then [SubframeAt(d, 0)] else []) + Items(d[End(d, 0)..])
  }

  /** Inside the window o..n, reading at offset i of the window is reading
      at o + i of the whole. */
  lemma BytesAtWindow(data: seq<Byte>, o: nat, n: nat, i: nat, len: nat)
    requires o <= n <= |data| && o + i + len <= n
    ensures BytesAt(data[o..n], i, len) == BytesAt(data, o + i, len)
  {
    var d := data[o..n];
    forall j | 0 <= j < len
      ensures BytesAt(d, i, len)[j] == BytesAt(data, o + i, len)[j]
    {
      assert d[i + j] == data[o + i + j];
    }
  }

  /** A subframe that fits in the window reads the same through the window. */
  lemma SubframeInWindow(data: seq<Byte>, o: nat, n: nat)
    requires o < n <= |data| && End(data, o) <= n
    ensures var d := data[o..n];
      && End(d, 0) == End(data, o) - o
      && SubframeAt(d, 0) == SubframeAt(data, o)
      && (CrcCheck(d, 0) <==> CrcCheck(data, o))
  {
    var d := data[o..n];
    assert LenAt(d, 0) == LenAt(data, o);
    BytesAtWindow(data, o, n, 2, LenAt(data, o));
    var c := 2 + LenAt(data, o);
    assert ByteAt(d, c) == ByteAt(data, o + c) && ByteAt(d, c + 1) == ByteAt(data, o + c + 1);
    assert StoredCrcAt(d, 0) == StoredCrcAt(data, o);
  }

  /** The offset walk over the first n bytes reads the same subframes as
      the reference walk over bytes o..n. */
  lemma {:induction false} WalkIsItems(data: seq<Byte>, n: nat, o: nat)
    requires o <= n <= |data|
    ensures SubframesAt(data, Walk(data, n, o)) == Items(data[o..n])
    decreases n - o
  {
    var d := data[o..n];
    if o < n {
      if End(data, o) <= n {
        var e := End(data, o);
        SubframeInWindow(data, o, n);
        assert d[e - o..] == data[e..n];
        WalkIsItems(data, n, e);
        var w := Walk(data, n, e);
        if CrcCheck(data, o) {
          assert SubframesAt(data, [o] + w) == [SubframeAt(data, o)] + SubframesAt(data, w);
        }
      } else if o + 1 < n {
        assert LenAt(d, 0) == LenAt(data, o);
      }
    }
  }

  /** The walk never looks at bytes from n on: reading past the data region
      cannot change its outcome. */
  lemma {:induction false} WalkLocal(data: seq<Byte>, other: seq<Byte>, n: nat, o: nat)
    requires n <= |data| && n <= |other| && data[..n] == other[..n]
    ensures Walk(data, n, o) == Walk(other, n, o)
    decreases n - o
  {
    if o < n {
      if o + 1 < n {
        assert data[o + 1] == data[..n][o + 1];
        assert other[o + 1] == other[..n][o + 1];
      }
      if End(data, o) <= n {
        var e := End(data, o);
        BytesAtWindow(data, 0, n, o + 2, LenAt(data, o));
        BytesAtWindow(other, 0, n, o + 2, LenAt(data, o));
        assert data[e - 2] == data[..n][e - 2] && data[e - 1] == data[..n][e - 1];
        assert other[e - 2] == other[..n][e - 2] && other[e - 1] == other[..n][e - 1];
        WalkLocal(data, other, n, e);
      }
    }
  }

  // ---------------------------------------------------------------------
  // Building a data region, and reading it back
  // ---------------------------------------------------------------------

  /** A subframe with its header and checksum, as a transmitter lays it
      out. */
  function Seal(s: Subframe): (d: seq<Byte>)
    requires |s.payload| < 0x100
    ensures |d| == |s.payload| + Overhead
  {
    var c := Crc(Init, s.payload);
    CrcBound(Init, s.payload);
    [s.kind, |s.payload|] + s.payload + [c % 0x100, c / 0x100]
  }

  predicate Sealable(ss: seq<Subframe>)
  {
    forall i :: 0 <= i < |ss| ==> |ss[i].payload| < 0x100
  }

  function SealAll(ss: seq<Subframe>): seq<Byte>
    requires Sealable(ss)
  {
    if |ss| == 0 then [] else Seal(ss[0]) + SealAll(ss[1..])
  }

  /** A sealed subframe is read back whole and passes its CRC check. */
  lemma SealRead(s: Subframe, rest: seq<Byte>)
    requires |s.payload| < 0x100
    ensures var d := Seal(s) + rest;
      && End(d, 0) == |Seal(s)|
      && SubframeAt(d, 0) == s
      && CrcCheck(d, 0)
  {
    var d := Seal(s) + rest;
    var k := |s.payload|;
    assert LenAt(d, 0) == k;
    assert PayloadAt(d, 0) == s.payload;
    var c := Crc(Init, s.payload);
    CrcBound(Init, s.payload);
    assert d[k + 2] == c % 0x100 && d[k + 3] == c / 0x100;
  }

  /** Reading back a region built from subframes gives those subframes. */
  lemma {:induction false} ItemsSealAll(ss: seq<Subframe>)
    requires Sealable(ss)
    ensures Items(SealAll(ss)) == ss
    decreases |ss|
  {
    if |ss| > 0 {
      var d := SealAll(ss);
      SealRead(ss[0], SealAll(ss[1..]));
      assert d[End(d, 0)..] == SealAll(ss[1..]);
      ItemsSealAll(ss[1..]);
    }
  }

  /** The decoder's walk over a region built from subframes hands on every
      one of them, in order. */
  lemma WalkSealAll(ss: seq<Subframe>)
    requires Sealable(ss)
    ensures var d := SealAll(ss);
      SubframesAt(d, Walk(d, |d|, 0)) == ss
  {
    var d := SealAll(ss);
    WalkIsItems(d, |d|, 0);
    assert d[0..|d|] == d;
    ItemsSealAll(ss);
  }

  /** Changing any one payload byte of a sealed subframe makes it fail its
      CRC check. */
  lemma CorruptPayloadRejected(s: Subframe, rest: seq<Byte>, k: nat, x: Byte)
    requires |s.payload| < 0x100 && k < |s.payload| && x != s.payload[k]
    ensures var d := (Seal(s) + rest)[2 + k := x];
      End(d, 0) <= |d| && !CrcCheck(d, 0)
  {
    var d0 := Seal(s) + rest;
    var d := d0[2 + k := x];
    SealRead(s, rest);
    assert LenAt(d, 0) == LenAt(d0, 0);
    var p' := s.payload[k := x];
    assert PayloadAt(d, 0) == p';
    assert StoredCrcAt(d, 0) == StoredCrcAt(d0, 0);
    SingleByteErrorDetected(s.payload, p', k);
  }

  /** Changing the type byte is not detected: the CRC covers the payload
      only. */
  lemma KindUnprotected(s: Subframe, rest: seq<Byte>, x: Byte)
    requires |s.payload| < 0x100
    ensures var d := (Seal(s) + rest)[0 := x];
      End(d, 0) <= |d| && CrcCheck(d, 0) && SubframeAt(d, 0) == Subframe(x, s.payload)
  {
    var d0 := Seal(s) + rest;
    var d := d0[0 := x];
    SealRead(s, rest);
    assert LenAt(d, 0) == LenAt(d0, 0);
    assert PayloadAt(d, 0) == PayloadAt(d0, 0);
    assert StoredCrcAt(d, 0) == StoredCrcAt(d0, 0);
  }
}
