/** Reassembly of the RS41 calibration block. Each status subframe carries
    one fixed-size fragment of the block, tagged with its index. The decoder
    copies the fragment into place, clears the fragment's bit in a bitmap of
    fragments still missing (bit f % 8 of byte f / 8), and declares the
    calibration complete once every bitmap byte is zero. The state persists
    across frames and is never reset. */
module Calibration {
  import opened Words

  /** The calibration block's dimensions: how many fragments it is cut into
      and how long each one is. */
  datatype Geometry = Geometry(fragCount: nat, fragSize: nat)
  {
    /** A C array cannot be empty, so there is at least one fragment. */
    predicate Valid()
    {
      fragCount >= 1
    }

    /** Bytes in the bitmap: one bit per fragment, rounded up. */
    function BitmapLen(): nat
    {
      (fragCount + 7) / 8
    }

    function BlobLen(): nat
    {
      Mul(fragSize, fragCount)
    }
  }

  /** One received fragment. */
  datatype Fragment = Fragment(index: nat, data: seq<Byte>)

  /** The persistent reassembly state: the block as received so far, the
      bitmap of missing fragments and the completion flag. */
  datatype Calib = Calib(blob: seq<Byte>, bitmap: seq<bv8>, calibrated: bool)

  predicate WellFormed(g: Geometry, c: Calib)
  {
    g.Valid() && |c.blob| == g.BlobLen() && |c.bitmap| == g.BitmapLen()
  }

  /** The completion flag is up whenever no fragment is missing; every
      update restores this. */
  predicate Consistent(c: Calib)
  {
    AllClear(c.bitmap) ==> c.calibrated
  }

  predicate Fits(g: Geometry, fr: Fragment)
  {
    fr.index < g.fragCount && |fr.data| == g.fragSize
  }

  // ---------------------------------------------------------------------
  // The bitmap
  // ---------------------------------------------------------------------

  /** The single-bit mask 1 << k. */
  function Bit(k: nat): bv8
    requires k < 8
  {
    (1 as bv8) << k
  }

  /** Fragment f is still marked missing. */
  predicate Pending(bm: seq<bv8>, f: nat)
  {
    f / 8 < |bm| && bm[f / 8] & Bit(f % 8) != 0
  }

  /** `bitmap[f / 8] &= ~(1 << f % 8)`. */
  function ClearFrag(bm: seq<bv8>, f: nat): (r: seq<bv8>)
    requires f / 8 < |bm|
    ensures |r| == |bm|
  {
    bm[f / 8 := bm[f / 8] & !Bit(f % 8)]
  }

  predicate AllClear(bm: seq<bv8>)
  {
    forall i :: 0 <= i < |bm| ==> bm[i] == 0
  }

  lemma BitClearOther(x: bv8, a: nat, b: nat)
    requires a < 8 && b < 8
    ensures (x & !Bit(a)) & Bit(b) != 0 <==> x & Bit(b) != 0 && a != b
  {
  }

  /** Clearing a fragment's bit clears exactly that fragment's bit. */
  lemma ClearFragExact(bm: seq<bv8>, f: nat, g: nat)
    requires f / 8 < |bm|
    ensures Pending(ClearFrag(bm, f), g) <==> Pending(bm, g) && g != f
  {
    if g / 8 < |bm| {
      BitClearOther(bm[g / 8], f % 8, g % 8);
      if g / 8 == f / 8 && g % 8 == f % 8 {
        assert g == 8 * (g / 8) + g % 8 && f == 8 * (f / 8) + f % 8;
      }
    }
  }

  /** A byte whose bits all agree with another byte's is that byte. */
  lemma ByteFromBits(x: bv8, y: bv8)
    requires forall k :: 0 <= k < 8 ==> (x & Bit(k) != 0 <==> y & Bit(k) != 0)
    ensures x == y
  {
    assert x & Bit(0) != 0 <==> y & Bit(0) != 0;
    assert x & Bit(1) != 0 <==> y & Bit(1) != 0;
    assert x & Bit(2) != 0 <==> y & Bit(2) != 0;
    assert x & Bit(3) != 0 <==> y & Bit(3) != 0;
    assert x & Bit(4) != 0 <==> y & Bit(4) != 0;
    assert x & Bit(5) != 0 <==> y & Bit(5) != 0;
    assert x & Bit(6) != 0 <==> y & Bit(6) != 0;
    assert x & Bit(7) != 0 <==> y & Bit(7) != 0;
  }

  /** Fragment 8i + k is bit k of byte i. */
  lemma FragOfBit(i: nat, k: nat)
    requires k < 8
    ensures (8 * i + k) / 8 == i && (8 * i + k) % 8 == k
  {
    DivModUnique(8 * i + k, 8, i, k);
  }

  /** Two bitmaps of one length that mark the same fragments missing are
      equal. */
  lemma BitmapFromPending(a: seq<bv8>, b: seq<bv8>)
    requires |a| == |b|
    requires forall f :: Pending(a, f) <==> Pending(b, f)
    ensures a == b
  {
    forall i | 0 <= i < |a|
      ensures a[i] == b[i]
    {
      forall k | 0 <= k < 8
        ensures a[i] & Bit(k) != 0 <==> b[i] & Bit(k) != 0
      {
        FragOfBit(i, k);
        assert Pending(a, 8 * i + k) <==> Pending(b, 8 * i + k);
      }
      ByteFromBits(a[i], b[i]);
    }
  }

  /** A byte that is not zero has a set bit. */
  lemma SomeBitSet(x: bv8) returns (k: nat)
    requires x != 0
    ensures k < 8 && x & Bit(k) != 0
  {
    if x & Bit(0) != 0 { k := 0; }
    else if x & Bit(1) != 0 { k := 1; }
    else if x & Bit(2) != 0 { k := 2; }
    else if x & Bit(3) != 0 { k := 3; }
    else if x & Bit(4) != 0 { k := 4; }
    else if x & Bit(5) != 0 { k := 5; }
    else if x & Bit(6) != 0 { k := 6; }
    else { k := 7; }
  }

  /** The bitmap is all zero exactly when no fragment is marked missing. */
  lemma AllClearIffNonePending(bm: seq<bv8>)
    ensures AllClear(bm) <==> forall f :: !Pending(bm, f)
  {
    if !AllClear(bm) {
      var i :| 0 <= i < |bm| && bm[i] != 0;
      var k := SomeBitSet(bm[i]);
      FragOfBit(i, k);
      assert Pending(bm, 8 * i + k);
    }
  }

  // ---------------------------------------------------------------------
  // The bitmap's initial value
  // ---------------------------------------------------------------------

  /** The bitmap as init leaves it: every byte 0xFF, then the last byte
      and-ed with the int value `~(1 << (7 - F % 8)) - 1`, of which the byte
      keeps the low eight bits (the unary complement binds before the
      subtraction). */
  function InitBitmapAsWritten(g: Geometry): (bm: seq<bv8>)
    requires g.Valid()
    ensures |bm| == g.BitmapLen()
  {
    var n := g.BitmapLen();
    seq(n - 1, _ => 0xFF) + [0xFF & (!Bit(7 - g.fragCount % 8) - 1)]
  }

  /** The bitmap the init evidently means: a bit for each of the F
      fragments, and the padding bits of the last byte clear. */
  function InitBitmap(g: Geometry): (bm: seq<bv8>)
    requires g.Valid()
    ensures |bm| == g.BitmapLen()
  {
    var n := g.BitmapLen();
    var r := g.fragCount % 8;
    seq(n - 1, _ => 0xFF) + [if r == 0 then 0xFF else Bit(r) - 1]
  }

  lemma LowBits(r: nat, k: nat)
    requires 1 <= r < 8 && k < 8
    ensures (Bit(r) - 1) & Bit(k) != 0 <==> k < r
  {
  }

  /** The bitmap has F / 8 bytes when F is a multiple of 8 and one more
      otherwise. */
  lemma BitmapLenSplit(g: Geometry)
    ensures g.fragCount == 8 * (g.fragCount / 8) + g.fragCount % 8
    ensures g.BitmapLen() == g.fragCount / 8 + (if g.fragCount % 8 == 0 then 0 else 1)
  {
    var q, r := g.fragCount / 8, g.fragCount % 8;
    if r == 0 {
      DivModUnique(g.fragCount + 7, 8, q, 7);
    } else {
      DivModUnique(g.fragCount + 7, 8, q + 1, r - 1);
    }
  }

  /** The intended bitmap marks exactly fragments 0 .. F-1 missing. */
  lemma InitBitmapPending(g: Geometry, f: nat)
    requires g.Valid()
    ensures Pending(InitBitmap(g), f) <==> f < g.fragCount
  {
    var bm := InitBitmap(g);
    var n := g.BitmapLen();
    var r := g.fragCount % 8;
    BitmapLenSplit(g);
    assert f == 8 * (f / 8) + f % 8;
    if f / 8 < n - 1 {
      assert bm[f / 8] == 0xFF;
    } else if f / 8 == n - 1 && r != 0 {
      LowBits(r, f % 8);
    }
  }

  lemma TopBitKept(r: nat)
    requires 1 <= r < 8
    ensures (0xFF & (!Bit(7 - r) - 1)) & Bit(7) != 0
  {
  }

  /** When F is not a multiple of 8, the as-written bitmap marks padding
      bit 7 of its last byte, which belongs to no fragment, as missing. */
  lemma AsWrittenPadding(g: Geometry)
    requires g.Valid() && g.fragCount % 8 != 0
    ensures Pending(InitBitmapAsWritten(g), 8 * (g.BitmapLen() - 1) + 7)
    ensures 8 * (g.BitmapLen() - 1) + 7 >= g.fragCount
  {
    var n := g.BitmapLen();
    FragOfBit(n - 1, 7);
    BitmapLenSplit(g);
    TopBitKept(g.fragCount % 8);
  }

  /** Which bits of the last byte the as-written init leaves set: for
      7 - r > 0 the subtraction clears bit 0 on top of bit 7 - r; for r == 7
      it borrows through bit 0 and clears bit 1 instead. */
  lemma AsWrittenLastByte(r: nat, k: nat)
    requires r < 8 && k < 8
    ensures (0xFF & (!Bit(7 - r) - 1)) & Bit(k) != 0 <==>
            if r == 7 then k != 1 else k != 0 && k != 7 - r
  {
  }

  /** Exactly which fragments the as-written bitmap marks missing: every bit
      of every byte except, in the last byte, bits 0 and 7 - F % 8 (only
      bit 1 when F % 8 == 7). So two fragments below F start out marked
      received when F % 8 == 0 or 4 <= F % 8 <= 6 (48 and 51 for F = 52),
      and one otherwise; padding bit 7 of the last byte starts out marked
      missing whenever F % 8 != 0. */
  lemma AsWrittenInitPending(g: Geometry, f: nat)
    requires g.Valid()
    ensures var last, r := 8 * (g.BitmapLen() - 1), g.fragCount % 8;
      Pending(InitBitmapAsWritten(g), f) <==>
        f < 8 * g.BitmapLen() && if r == 7 then f != last + 1 else f != last && f != last + 7 - r
  {
    var n := g.BitmapLen();
    var bm := InitBitmapAsWritten(g);
    BitmapLenSplit(g);
    assert f == 8 * (f / 8) + f % 8;
    if f / 8 < n - 1 {
      assert bm[f / 8] == 0xFF;
    } else if f / 8 == n - 1 {
      AsWrittenLastByte(g.fragCount % 8, f % 8);
    }
  }

  /** With the bitmap init actually builds and F a multiple of 8, fragments
      F - 8 and F - 1 start out marked received: calibration completes
      exactly when every other fragment has arrived. */
  lemma AsWrittenCompletesWithoutTwo(g: Geometry, blob: seq<Byte>, frs: seq<Fragment>)
    requires g.Valid() && |blob| == g.BlobLen() && AllFit(g, frs)
    requires g.fragCount % 8 == 0
    ensures Receive(g, StartAsWritten(g, blob), frs).calibrated <==>
            forall f: nat :: f < g.fragCount && f != g.fragCount - 8 && f != g.fragCount - 1 ==> Delivered(frs, f)
  {
    var c := StartAsWritten(g, blob);
    var e := Receive(g, c, frs).bitmap;
    BitmapLenSplit(g);
    ReceiveCalibrated(g, c, frs);
    AllClearIffNonePending(e);
    forall f: nat
      ensures Pending(e, f) <==> f < g.fragCount && f != g.fragCount - 8 && f != g.fragCount - 1 && !Delivered(frs, f)
    {
      ReceivePending(g, c, frs, f);
      AsWrittenInitPending(g, f);
    }
  }

  lemma LastByteNonZero(r: nat)
    requires r < 8
    ensures 0xFF & (!Bit(7 - r) - 1) != 0
  {
  }

  // ---------------------------------------------------------------------
  // Receiving fragments
  // ---------------------------------------------------------------------

  /** Where fragment f lives in the block. */
  function SlotOffset(g: Geometry, f: nat): nat
  {
    Mul(g.fragSize, f)
  }

  lemma SlotInBlob(g: Geometry, f: nat)
    requires f < g.fragCount
    ensures SlotOffset(g, f) + g.fragSize <= g.BlobLen()
  {
    MulMonotone(g.fragSize, f + 1, g.fragCount);
  }

  /** The bytes of fragment f in a block. */
  function Slot(g: Geometry, blob: seq<Byte>, f: nat): seq<Byte>
    requires f < g.fragCount && |blob| == g.BlobLen()
  {
    SlotInBlob(g, f);
    blob[SlotOffset(g, f) .. SlotOffset(g, f) + g.fragSize]
  }

  /** `blob` with the bytes from `off` on overwritten by `d`. */
  function Splice(blob: seq<Byte>, off: nat, d: seq<Byte>): (r: seq<Byte>)
    requires off + |d| <= |blob|
    ensures |r| == |blob|
    ensures forall j :: 0 <= j < |blob| ==> r[j] == if off <= j < off + |d| then d[j - off] else blob[j]
  {
    blob[..off] + d + blob[off + |d|..]
  }

  /** updateCalibData: copy the fragment into place, clear its bit, and
      declare completion once the bitmap is all zero. */
  function Update(g: Geometry, c: Calib, fr: Fragment): (c': Calib)
    requires WellFormed(g, c) && Fits(g, fr)
    ensures WellFormed(g, c') && Consistent(c')
    ensures c'.calibrated <==> c.calibrated || AllClear(c'.bitmap)
  {
    var off := SlotOffset(g, fr.index);
    SlotInBlob(g, fr.index);
    FragOfBit(fr.index / 8, fr.index % 8);
    var bm := ClearFrag(c.bitmap, fr.index);
    Calib(Splice(c.blob, off, fr.data), bm, c.calibrated || AllClear(bm))
  }

  /** After an update the fragment's slot holds its data, every other slot
      is unchanged, and the bitmap differs only in the fragment's bit. */
  lemma UpdateSlots(g: Geometry, c: Calib, fr: Fragment, h: nat)
    requires WellFormed(g, c) && Fits(g, fr) && h < g.fragCount
    ensures Slot(g, Update(g, c, fr).blob, h) == if h == fr.index then fr.data else Slot(g, c.blob, h)
  {
    var f := fr.index;
    var s := g.fragSize;
    var off := SlotOffset(g, f);
    var a := SlotOffset(g, h);
    SlotInBlob(g, f);
    SlotInBlob(g, h);
    if h < f {
      MulMonotone(s, h + 1, f);
    } else if h > f {
      MulMonotone(s, f + 1, h);
    }
    var blob' := Update(g, c, fr).blob;
    assert blob' == Splice(c.blob, off, fr.data);
    assert blob'[a .. a + s] == if h == f then fr.data else c.blob[a .. a + s];
  }

  lemma UpdatePending(g: Geometry, c: Calib, fr: Fragment, h: nat)
    requires WellFormed(g, c) && Fits(g, fr)
    ensures Pending(Update(g, c, fr).bitmap, h) <==> Pending(c.bitmap, h) && h != fr.index
  {
    FragOfBit(fr.index / 8, fr.index % 8);
    ClearFragExact(c.bitmap, fr.index, h);
  }

  /** Receiving the same fragment twice is the same as receiving it once. */
  lemma UpdateIdempotent(g: Geometry, c: Calib, fr: Fragment)
    requires WellFormed(g, c) && Fits(g, fr)
    ensures Update(g, Update(g, c, fr), fr) == Update(g, c, fr)
  {
    var c1 := Update(g, c, fr);
    var c2 := Update(g, c1, fr);
    forall h
      ensures Pending(c2.bitmap, h) <==> Pending(c1.bitmap, h)
    {
      UpdatePending(g, c1, fr, h);
      UpdatePending(g, c, fr, h);
    }
    BitmapFromPending(c2.bitmap, c1.bitmap);
    SlotInBlob(g, fr.index);
    assert c2.blob == c1.blob;
  }

  // ---------------------------------------------------------------------
  // A stream of fragments
  // ---------------------------------------------------------------------

  predicate AllFit(g: Geometry, frs: seq<Fragment>)
  {
    forall i :: 0 <= i < |frs| ==> Fits(g, frs[i])
  }

  /** Fragment f arrives somewhere in frs. */
  predicate Delivered(frs: seq<Fragment>, f: nat)
  {
    exists i :: 0 <= i < |frs| && frs[i].index == f
  }

  /** The fragments received in order, one update each. */
  function Receive(g: Geometry, c: Calib, frs: seq<Fragment>): (c': Calib)
    requires WellFormed(g, c) && AllFit(g, frs)
    ensures WellFormed(g, c')
    decreases |frs|
  {
    if |frs| == 0 then c
    else Receive(g, Update(g, c, frs[0]), frs[1..])
  }

  /** A fragment is still missing after a stream exactly when it was
      missing before and the stream does not carry it. */
  lemma {:induction false} ReceivePending(g: Geometry, c: Calib, frs: seq<Fragment>, h: nat)
    requires WellFormed(g, c) && AllFit(g, frs)
    ensures Pending(Receive(g, c, frs).bitmap, h) <==> Pending(c.bitmap, h) && !Delivered(frs, h)
    decreases |frs|
  {
    if |frs| > 0 {
      var c1 := Update(g, c, frs[0]);
      ReceivePending(g, c1, frs[1..], h);
      UpdatePending(g, c, frs[0], h);
      if Delivered(frs, h) && frs[0].index != h {
        var i :| 0 <= i < |frs| && frs[i].index == h;
        assert frs[1..][i - 1].index == h;
      }
      if Delivered(frs[1..], h) {
        var i :| 0 <= i < |frs[1..]| && frs[1..][i].index == h;
        assert frs[i + 1].index == h;
      }
    }
  }

  /** Once complete, calibration stays complete; and it is complete after
      a stream exactly when it was before or the bitmap ends all zero. */
  lemma {:induction false} ReceiveCalibrated(g: Geometry, c: Calib, frs: seq<Fragment>)
    requires WellFormed(g, c) && Consistent(c) && AllFit(g, frs)
    ensures Receive(g, c, frs).calibrated <==> c.calibrated || AllClear(Receive(g, c, frs).bitmap)
    decreases |frs|
  {
    if |frs| > 0 {
      var c1 := Update(g, c, frs[0]);
      assert Receive(g, c, frs) == Receive(g, c1, frs[1..]);
      ReceiveCalibrated(g, c1, frs[1..]);
      if AllClear(c1.bitmap) {
        AllClearIffNonePending(c1.bitmap);
        var e := Receive(g, c, frs).bitmap;
        forall h
          ensures !Pending(e, h)
        {
          ReceivePending(g, c1, frs[1..], h);
        }
        AllClearIffNonePending(e);
      }
    }
  }

  /** The outcome on the bitmap and the completion flag depends only on
      which fragments arrive, not on their order or repetition. */
  lemma ReceiveOrderIndependent(g: Geometry, c: Calib, a: seq<Fragment>, b: seq<Fragment>)
    requires WellFormed(g, c) && Consistent(c) && AllFit(g, a) && AllFit(g, b)
    requires forall f :: Delivered(a, f) <==> Delivered(b, f)
    ensures Receive(g, c, a).bitmap == Receive(g, c, b).bitmap
    ensures Receive(g, c, a).calibrated == Receive(g, c, b).calibrated
  {
    var ea := Receive(g, c, a).bitmap;
    var eb := Receive(g, c, b).bitmap;
    forall h
      ensures Pending(ea, h) <==> Pending(eb, h)
    {
      ReceivePending(g, c, a, h);
      ReceivePending(g, c, b, h);
    }
    BitmapFromPending(ea, eb);
    ReceiveCalibrated(g, c, a);
    ReceiveCalibrated(g, c, b);
  }

  // ---------------------------------------------------------------------
  // From a fresh decoder
  // ---------------------------------------------------------------------

  /** A fresh decoder with the intended bitmap; the block's initial bytes
      are whatever the object held. */
  function Start(g: Geometry, blob: seq<Byte>): (c: Calib)
    requires g.Valid() && |blob| == g.BlobLen()
    ensures WellFormed(g, c) && Consistent(c) && !c.calibrated
  {
    InitBitmapPending(g, 0);
    AllClearIffNonePending(InitBitmap(g));
    Calib(blob, InitBitmap(g), false)
  }

  /** A fresh decoder with the bitmap init actually builds. */
  function StartAsWritten(g: Geometry, blob: seq<Byte>): (c: Calib)
    requires g.Valid() && |blob| == g.BlobLen()
    ensures WellFormed(g, c) && Consistent(c) && !c.calibrated
  {
    var bm := InitBitmapAsWritten(g);
    LastByteNonZero(g.fragCount % 8);
    assert bm[|bm| - 1] != 0;
    Calib(blob, bm, false)
  }

  /** With the intended bitmap, calibration completes exactly when every
      fragment 0 .. F-1 has arrived, in any order, with any repeats. */
  lemma CompleteIffAllDelivered(g: Geometry, blob: seq<Byte>, frs: seq<Fragment>)
    requires g.Valid() && |blob| == g.BlobLen() && AllFit(g, frs)
    ensures Receive(g, Start(g, blob), frs).calibrated <==>
            forall f: nat :: f < g.fragCount ==> Delivered(frs, f)
  {
    var c := Start(g, blob);
    var e := Receive(g, c, frs).bitmap;
    ReceiveCalibrated(g, c, frs);
    AllClearIffNonePending(e);
    forall f: nat
      ensures Pending(e, f) <==> f < g.fragCount && !Delivered(frs, f)
    {
      ReceivePending(g, c, frs, f);
      InitBitmapPending(g, f);
    }
  }

  /** With the bitmap init actually builds and F not a multiple of 8,
      calibration never completes, whatever fragments arrive. */
  lemma AsWrittenNeverCompletes(g: Geometry, blob: seq<Byte>, frs: seq<Fragment>)
    requires g.Valid() && |blob| == g.BlobLen() && AllFit(g, frs)
    requires g.fragCount % 8 != 0
    ensures !Receive(g, StartAsWritten(g, blob), frs).calibrated
  {
    var c := StartAsWritten(g, blob);
    var e := Receive(g, c, frs).bitmap;
    var p := 8 * (g.BitmapLen() - 1) + 7;
    AsWrittenPadding(g);
    ReceivePending(g, c, frs, p);
    ReceiveCalibrated(g, c, frs);
    AllClearIffNonePending(e);
  }

  /** The completion flag's starting value is not set by init. With the
      bitmap init builds and F not a multiple of 8, receiving in-range
      fragments never changes that flag, whatever it started as. */
  lemma AsWrittenKeepsFlag(g: Geometry, blob: seq<Byte>, flag: bool, frs: seq<Fragment>)
    requires g.Valid() && |blob| == g.BlobLen() && AllFit(g, frs)
    requires g.fragCount % 8 != 0
    ensures WellFormed(g, Calib(blob, InitBitmapAsWritten(g), flag))
    ensures Receive(g, Calib(blob, InitBitmapAsWritten(g), flag), frs).calibrated == flag
  {
    var c := Calib(blob, InitBitmapAsWritten(g), flag);
    var e := Receive(g, c, frs).bitmap;
    var p := 8 * (g.BitmapLen() - 1) + 7;
    AsWrittenPadding(g);
    AllClearIffNonePending(c.bitmap);
    ReceivePending(g, c, frs, p);
    ReceiveCalibrated(g, c, frs);
    AllClearIffNonePending(e);
  }

  /** Every fragment in order, 0 .. F-1. */
  function InOrder(g: Geometry, k: nat, fill: Byte): (frs: seq<Fragment>)
    ensures |frs| == k
    ensures forall i :: 0 <= i < k ==> frs[i] == Fragment(i, seq(g.fragSize, _ => fill))
  {
    seq(k, (i: int) requires 0 <= i < k => Fragment(i, seq(g.fragSize, _ => fill)))
  }

  /** With 51 fragments, delivering all of them in order completes the
      intended bitmap but not the one init builds. */
  lemma FiftyOneFragments(blob: seq<Byte>)
    requires |blob| == Geometry(51, 16).BlobLen()
    ensures var g := Geometry(51, 16);
      && Receive(g, Start(g, blob), InOrder(g, 51, 0)).calibrated
      && !Receive(g, StartAsWritten(g, blob), InOrder(g, 51, 0)).calibrated
  {
    var g := Geometry(51, 16);
    var frs := InOrder(g, 51, 0);
    forall f: nat | f < 51
      ensures Delivered(frs, f)
    {
      assert frs[f].index == f;
    }
    CompleteIffAllDelivered(g, blob, frs);
    AsWrittenNeverCompletes(g, blob, frs);
  }
}
