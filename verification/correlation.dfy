/** Sync-word search of the bit framer: Hamming distance between 64-bit
    words and the sliding-window correlation over a buffered frame. */
module Correlation {
  import opened Words

  /** Hamming distance of two words: the number of bit positions where they
      differ. */
  function Distance(x: nat, y: nat): nat
  {
    Popcount(Xor(x, y))
  }

  lemma HammingDistance(x: nat, y: nat)
    requires IsU64(x) && IsU64(y)
    ensures Distance(x, y) <= 64
    ensures Distance(x, y) == 0 <==> x == y
    ensures Distance(x, y) == Distance(y, x)
  {
    Pow64IsPow2();
    XorBound(x, y, 64);
    PopcountBound(Xor(x, y), 64);
    XorZeroIffEqual(x, y);
    PopcountZeroIffZero(Xor(x, y));
    XorSymmetric(x, y);
  }

  /** inverseCorrelateU64: the popcount of `x ^ y` by bit twiddling, each
      round clearing the lowest set bit with `v &= v - 1`. */
  method InverseCorrelateU64(x: nat, y: nat) returns (corr: nat)
    requires IsU64(x) && IsU64(y)
    ensures corr == Distance(x, y)
  {
    corr := 0;
    var v := Xor(x, y);
    while v != 0
      invariant corr + Popcount(v) == Popcount(Xor(x, y))
      decreases v
    {
      ClearLowestBit(v);
      v := And(v, v - 1);
      corr := corr + 1;
    }
  }

  /** The bits of a byte, most significant first. */
  function ByteToBits(b: bv8): (bits: seq<bool>)
    ensures |bits| == 8
  {
    [b & 0x80 != 0, b & 0x40 != 0, b & 0x20 != 0, b & 0x10 != 0,
     b & 0x08 != 0, b & 0x04 != 0, b & 0x02 != 0, b & 0x01 != 0]
  }

  /** Bit j of a byte counted from the most significant end, as a number:
      the `(b >> (7 - j)) & 1` of the framer's shift loop. */
  function ByteBit(b: bv8, j: nat): nat
    requires j < 8
  {
    if ByteToBits(b)[j] then 1 else 0
  }

  /** The first 8*i + j bits of a byte buffer (most significant bit of each
      byte first) read as a binary number. */
  function Bits(frame: seq<bv8>, i: nat, j: nat): nat
    requires j <= 8 && (i < |frame| || (i == |frame| && j == 0))
    decreases i, j
  {
    if j == 0 then (if i == 0 then 0 else Bits(frame, i - 1, 8))
    else 2 * Bits(frame, i, j - 1) + ByteBit(frame[i], j - 1)
  }

  /** The bits of a byte sequence, byte after byte. */
  function BytesBits(bs: seq<bv8>): (r: seq<bool>)
    ensures |r| == 8 * |bs|
  {
    if |bs| == 0 then [] else ByteToBits(bs[0]) + BytesBits(bs[1..])
  }

  /** A bit sequence read as a binary number, first bit most significant. */
  function BitsValue(b: seq<bool>): nat
    decreases |b|
  {
    if |b| == 0 then 0 else 2 * BitsValue(b[..|b| - 1]) + (if b[|b| - 1] then 1 else 0)
  }

  /** Bit k of byte q sits at position 8q + k of the bit sequence. */
  lemma {:induction false} BytesBitsAt(bs: seq<bv8>, q: nat, k: nat)
    requires q < |bs| && k < 8
    ensures BytesBits(bs)[8 * q + k] == ByteToBits(bs[q])[k]
    decreases q
  {
    if q > 0 {
      BytesBitsAt(bs[1..], q - 1, k);
      assert BytesBits(bs)[8 * q + k] == BytesBits(bs[1..])[8 * (q - 1) + k];
    }
  }

  /** Appending one bit doubles the value and adds the bit. */
  lemma ValueSnoc(b: seq<bool>, n: nat)
    requires 0 < n <= |b|
    ensures BitsValue(b[..n]) == 2 * BitsValue(b[..n - 1]) + (if b[n - 1] then 1 else 0)
  {
    assert b[..n][..n - 1] == b[..n - 1];
  }

  /** One more bit of byte i: both sides double and add the same bit. */
  lemma BitsIsValueStep(frame: seq<bv8>, i: nat, j: nat)
    requires 0 < j <= 8 && i < |frame|
    requires Bits(frame, i, j - 1) == BitsValue(BytesBits(frame)[..8 * i + j - 1])
    ensures Bits(frame, i, j) == BitsValue(BytesBits(frame)[..8 * i + j])
  {
    var n, p := 8 * i + j, BytesBits(frame);
    ValueSnoc(p, n);
    BytesBitsAt(frame, i, j - 1);
    assert (if p[n - 1] then 1 else 0) == ByteBit(frame[i], j - 1);
  }

  /** The shifted-in value is the number the first 8i + j frame bits spell. */
  lemma {:induction false} BitsIsValue(frame: seq<bv8>, i: nat, j: nat)
    requires j <= 8 && (i < |frame| || (i == |frame| && j == 0))
    ensures Bits(frame, i, j) == BitsValue(BytesBits(frame)[..8 * i + j])
    decreases i, j
  {
    if j == 0 {
      if i > 0 {
        BitsIsValue(frame, i - 1, 8);
        assert Bits(frame, i, 0) == Bits(frame, i - 1, 8);
        assert 8 * (i - 1) + 8 == 8 * i;
      } else {
        assert BytesBits(frame)[..0] == [];
      }
    } else {
      BitsIsValue(frame, i, j - 1);
      BitsIsValueStep(frame, i, j);
    }
  }

  /** (2a + x) mod 2P keeps the low bit x and a mod P above it. */
  lemma DoubleMod(a: nat, x: nat, p: nat)
    requires x <= 1 && p >= 1
    ensures (2 * a + x) % (2 * p) == 2 * (a % p) + x
  {
    assert a == p * (a / p) + a % p;
    assert 2 * a + x == (2 * p) * (a / p) + (2 * (a % p) + x);
    DivModUnique(2 * a + x, 2 * p, a / p, 2 * (a % p) + x);
  }

  /** Keeping the value mod 2^m keeps exactly the last m bits. */
  lemma {:induction false} ValueLowBits(b: seq<bool>, m: nat)
    requires m <= |b|
    ensures BitsValue(b) % Pow2(m) == BitsValue(b[|b| - m..])
    decreases m
  {
    var t := b[|b| - m..];
    if m == 0 {
      assert t == [];
    } else {
      var c := b[..|b| - 1];
      ValueLowBits(c, m - 1);
      assert t[..|t| - 1] == c[|c| - (m - 1)..];
      DoubleMod(BitsValue(c), if b[|b| - 1] then 1 else 0, Pow2(m - 1));
    }
  }

  lemma {:induction false} ValueBound(b: seq<bool>)
    ensures BitsValue(b) < Pow2(|b|)
    decreases |b|
  {
    if |b| > 0 {
      ValueBound(b[..|b| - 1]);
    }
  }

  lemma ByteValue(b: bv8)
    ensures b as nat == 128 * ByteBit(b, 0) + 64 * ByteBit(b, 1) + 32 * ByteBit(b, 2)
                      + 16 * ByteBit(b, 3) + 8 * ByteBit(b, 4) + 4 * ByteBit(b, 5)
                      + 2 * ByteBit(b, 6) + ByteBit(b, 7)
  {
  }

  /** Reading a whole byte shifts it into the value, as `window << 8 | byte`. */
  lemma BitsByte(frame: seq<bv8>, i: nat)
    requires i < |frame|
    ensures Bits(frame, i, 8) == 256 * Bits(frame, i, 0) + frame[i] as nat
  {
    ByteValue(frame[i]);
    assert Bits(frame, i, 2) == 2 * Bits(frame, i, 1) + ByteBit(frame[i], 1);
    assert Bits(frame, i, 3) == 2 * Bits(frame, i, 2) + ByteBit(frame[i], 2);
    assert Bits(frame, i, 4) == 2 * Bits(frame, i, 3) + ByteBit(frame[i], 3);
    assert Bits(frame, i, 5) == 2 * Bits(frame, i, 4) + ByteBit(frame[i], 4);
    assert Bits(frame, i, 6) == 2 * Bits(frame, i, 5) + ByteBit(frame[i], 5);
    assert Bits(frame, i, 7) == 2 * Bits(frame, i, 6) + ByteBit(frame[i], 6);
  }

  lemma ModAddMultiple(x: nat, m: nat, t: nat)
    requires m >= 1
    ensures (m * t + x) % m == x % m
  {
    assert x == m * (x / m) + x % m;
    assert m * t + x == m * (t + x / m) + x % m;
    DivModUnique(m * t + x, m, t + x / m, x % m);
  }

  /** Truncating before or after a shift-and-or gives the same word. */
  lemma ModShiftIn(a: nat, c: nat, b: nat, m: nat)
    requires m >= 1
    ensures ((a % m) * c + b) % m == (a * c + b) % m
  {
    assert a == m * (a / m) + a % m;
    assert a * c + b == m * ((a / m) * c) + ((a % m) * c + b);
    ModAddMultiple((a % m) * c + b, m, (a / m) * c);
  }

  lemma PowMono(a: nat, b: nat)
    requires a <= b
    ensures Pow2(a) <= Pow2(b)
  {
    if a < b {
      PowMono(a, b - 1);
    }
  }

  /** The sync mask as written: for a sync word shorter than 8 bytes,
      `1ULL << (8*syncLen)` is a single bit, not a mask of the low bits. */
  function SyncMaskAsWritten(syncLen: nat): (m: nat)
    ensures IsU64(m)
  {
    if syncLen < 8 then (Pow64IsPow2(); PowMono(8 * syncLen, 63); Pow2(8 * syncLen)) else Pow64 - 1
  }

  /** The evidently intended sync mask: the low 8*syncLen bits. */
  function SyncMask(syncLen: nat): (m: nat)
    ensures IsU64(m)
  {
    if syncLen < 8 then (Pow64IsPow2(); PowMono(8 * syncLen, 64); Pow2(8 * syncLen) - 1) else Pow64 - 1
  }

  /** Number of bits the intended sync mask keeps. */
  function SyncBits(syncLen: nat): nat
  {
    if syncLen < 8 then 8 * syncLen else 64
  }

  lemma {:induction false} PopcountPow2(w: nat)
    ensures Popcount(Pow2(w)) == 1
  {
    if w > 0 {
      var p := Pow2(w - 1);
      PopcountPow2(w - 1);
      assert Pow2(w) == 2 * p;
      assert (2 * p) % 2 == 0 && (2 * p) / 2 == p;
    }
  }

  lemma XorZeroLeft(b: nat)
    ensures Xor(0, b) == b
  {
    if b > 0 {
      XorZeroLeft(b / 2);
    }
  }

  /** With the mask as written, every window is at distance at most one from
      the sync word, so for syncLen < 8 the search compares a single bit. */
  lemma {:induction false} AsWrittenMaskComparesOneBit(x: nat, y: nat, syncLen: nat)
    requires syncLen < 8
    ensures Distance(And(x, SyncMaskAsWritten(syncLen)), And(y, SyncMaskAsWritten(syncLen))) <= 1
  {
    var w := 8 * syncLen;
    AndSingleBit(x, w);
    AndSingleBit(y, w);
    var a := And(x, Pow2(w));
    var b := And(y, Pow2(w));
    if a == b {
      XorZeroIffEqual(a, b);
    } else if a == 0 {
      XorZeroLeft(b);
      PopcountPow2(w);
    } else {
      XorSymmetric(a, b);
      XorZeroLeft(a);
      PopcountPow2(w);
    }
  }

  /** With the mask as written, the sync word 0 and the window 1 differ in
      their lowest sync bit, yet the search scores them a perfect match. */
  lemma AsWrittenMaskMissesMismatch(syncLen: nat)
    requires 1 <= syncLen < 8
    ensures 0 % Pow2(8 * syncLen) != 1 % Pow2(8 * syncLen)
    ensures Distance(And(0, SyncMaskAsWritten(syncLen)), And(1, SyncMaskAsWritten(syncLen))) == 0
  {
    var w := 8 * syncLen;
    PowMono(1, w);
    AndSingleBit(1, w);
    assert And(1, Pow2(w)) == 0;
    assert And(0, Pow2(w)) == 0;
    XorZeroIffEqual(0, 0);
  }

  /** With the intended mask, a distance of zero means exactly that the low
      sync bits of the two words agree. */
  lemma {:induction false} SyncMaskMatchesSyncBits(x: nat, y: nat, syncLen: nat)
    ensures SyncMask(syncLen) == Pow2(SyncBits(syncLen)) - 1
    ensures Distance(And(x, SyncMask(syncLen)), And(y, SyncMask(syncLen))) == 0
            <==> x % Pow2(SyncBits(syncLen)) == y % Pow2(SyncBits(syncLen))
  {
    var w := SyncBits(syncLen);
    Pow64IsPow2();
    AndLowMask(x, w);
    AndLowMask(y, w);
    XorZeroIffEqual(x % Pow2(w), y % Pow2(w));
    PopcountZeroIffZero(Xor(x % Pow2(w), y % Pow2(w)));
  }

  /** Running state of the search: best distance, its offset, polarity. */
  datatype Best = Best(corr: int, offset: nat, inverted: bool)

  /** One offset of the loop with distance d: the normal check, then the
      inverted check against `full - d`, each replacing the best only on a
      strict improvement. */
  function Step(b: Best, k: nat, d: int, full: int): Best
  {
    var b1 := if d < b.corr then Best(d, k, false) else b;
    if full - d < b1.corr then Best(full - d, k, true) else b1
  }

  /** The loop over offsets 0 .. k - 1 from the best-so-far b, given the
      distance at each offset. */
  function Scan(ds: seq<int>, full: int, k: nat, b: Best): Best
    requires k <= |ds|
  {
    if k == 0 then b
    else Step(Scan(ds, full, k - 1, b), k - 1, ds[k - 1], full)
  }

  /** The better of the normal and the inverted distance. */
  function Score(d: int, full: int): int
  {
    if d <= full - d then d else full - d
  }

  /** The polarity recorded when an offset with distance d wins; at offset 0
      a tie keeps the caller's flag. */
  function Polarity(d: int, full: int, k: nat, inverted0: bool): bool
  {
    if full - d < d then true
    else if k == 0 then inverted0
    else false
  }

  /** The scan over the first k offsets has kept the earliest offset of
      minimal score. */
  ghost predicate Leading(ds: seq<int>, full: int, k: nat, b: Best, inverted0: bool)
    requires k <= |ds|
  {
    && b.offset < k
    && b.corr == Score(ds[b.offset], full)
    && (forall j: nat | j < k :: Score(ds[j], full) >= b.corr)
    && (forall j: nat | j < b.offset :: Score(ds[j], full) > b.corr)
    && b.inverted == Polarity(ds[b.offset], full, b.offset, inverted0)
  }

  lemma StepKeepsLeading(ds: seq<int>, full: int, k: nat, b: Best, inverted0: bool)
    requires 1 <= k < |ds| && Leading(ds, full, k, b, inverted0)
    ensures Leading(ds, full, k + 1, Step(b, k, ds[k], full), inverted0)
  {
    var b' := Step(b, k, ds[k], full);
    if Score(ds[k], full) < b.corr {
      assert b'.offset == k && b'.corr == Score(ds[k], full);
      assert forall j: nat | j < k + 1 :: Score(ds[j], full) >= b'.corr by {
        forall j: nat | j < k + 1
          ensures Score(ds[j], full) >= b'.corr
        {
          if j < k {
            assert Score(ds[j], full) >= b.corr;
          }
        }
      }
    } else {
      assert b' == b;
    }
  }

  /** Scanning from the offset-0 distance keeps the earliest offset of
      minimal score among those scanned. */
  lemma {:induction false} ScanKeepsLeading(ds: seq<int>, full: int, k: nat, inverted0: bool)
    requires 1 <= k <= |ds|
    ensures Leading(ds, full, k, Scan(ds, full, k, Best(ds[0], 0, inverted0)), inverted0)
  {
    var b0 := Best(ds[0], 0, inverted0);
    if k == 1 {
      assert Scan(ds, full, 0, b0) == b0;
    } else {
      ScanKeepsLeading(ds, full, k - 1, inverted0);
      StepKeepsLeading(ds, full, k - 1, Scan(ds, full, k - 1, b0), inverted0);
    }
  }

  /** The inputs of one correlation search: the buffered frame, its length in
      bytes, the sync word, its length in BYTES, and the mask in use. */
  datatype Search = Search(frame: seq<bv8>, len: nat, syncWord: nat, syncLen: nat, mask: nat)
  {
    predicate Valid()
    {
      syncLen <= len <= |frame| && IsU64(syncWord) && IsU64(mask)
    }

    /** Number of bit offsets the search loop visits. */
    function Checked(): nat
    {
      if len > syncLen then 8 * (len - syncLen) else 0
    }

    /** Number of inverted bits against which the inverted check runs. */
    function Full(): int
    {
      8 * syncLen
    }

    /** The 64-bit window when offset k is examined: the last 64 bits of the
        first 8*syncLen + k bits of the frame. */
    function Window(k: nat): (w: nat)
      requires Valid() && k <= Checked()
      ensures IsU64(w)
    {
      Bits(frame, syncLen + k / 8, k % 8) % Pow64
    }

    /** Normal-polarity distance at offset k. */
    function Dist(k: nat): nat
      requires Valid() && k <= Checked()
    {
      Distance(And(syncWord, mask), And(Window(k), mask))
    }

    /** The distances at the visited offsets from k on. */
    function DistsFrom(k: nat): (ds: seq<int>)
      requires Valid() && k <= Checked()
      ensures |ds| == Checked() - k
      decreases Checked() - k
    {
      if k == Checked() then [] else [Dist(k)] + DistsFrom(k + 1)
    }

    /** The distance at every visited offset. */
    function Dists(): (ds: seq<int>)
      requires Valid()
      ensures |ds| == Checked()
    {
      DistsFrom(0)
    }
  }

  lemma {:induction false} DistsFromAt(s: Search, m: nat, k: nat)
    requires s.Valid() && m <= k < s.Checked()
    ensures s.DistsFrom(m)[k - m] == s.Dist(k)
    decreases k - m
  {
    if m < k {
      DistsFromAt(s, m + 1, k);
    }
  }

  /** Entry k of Dists() is the distance at offset k. */
  lemma DistsAt(s: Search, k: nat)
    requires s.Valid() && k < s.Checked()
    ensures s.Dists()[k] == s.Dist(k)
  {
    DistsFromAt(s, 0, k);
  }

  /** correlateU64: a perfect match at offset 0 returns at once; otherwise
      every offset below Checked() is scanned, starting from the offset-0
      distance as the best so far. */
  function Correlate(s: Search, inverted: bool): Best
    requires s.Valid()
  {
    var d0 := s.Dist(0);
    if d0 == 0 then Best(0, 0, inverted)
    else Scan(s.Dists(), s.Full(), s.Checked(), Best(d0, 0, inverted))
  }

  /** What the scan returns when offset 0 has not matched perfectly: the
      earliest offset whose better-polarity distance is minimal, with the
      polarity that achieved it. */
  lemma {:induction false} ScanFindsEarliestBest(ds: seq<int>, full: int, inverted: bool)
    requires |ds| > 0
    ensures var r := Scan(ds, full, |ds|, Best(ds[0], 0, inverted));
      && r.offset < |ds|
      && r.corr == Score(ds[r.offset], full)
      && (forall j: nat | j < |ds| :: r.corr <= Score(ds[j], full))
      && (forall j: nat | j < r.offset :: Score(ds[j], full) > r.corr)
      && r.inverted == Polarity(ds[r.offset], full, r.offset, inverted)
  {
    ScanKeepsLeading(ds, full, |ds|, inverted);
  }

  /** What the search returns: offset 0 with the caller's flag untouched on
      a perfect match at offset 0 or when no offset is visited; otherwise
      the earliest visited offset whose better-polarity distance (against
      the distances Dists()) is minimal, with the polarity that achieved it. */
  lemma CorrelateFindsEarliestBest(s: Search, inverted: bool)
    requires s.Valid()
    ensures s.Dist(0) == 0 ==> Correlate(s, inverted) == Best(0, 0, inverted)
    ensures s.Checked() == 0 ==> Correlate(s, inverted).offset == 0
                                 && Correlate(s, inverted).inverted == inverted
    ensures s.Dist(0) != 0 && s.Checked() > 0 ==>
      var r := Correlate(s, inverted);
      var ds := s.Dists();
      && r.offset < s.Checked()
      && r.corr == Score(ds[r.offset], s.Full())
      && (forall j: nat | j < s.Checked() :: r.corr <= Score(ds[j], s.Full()))
      && (forall j: nat | j < r.offset :: Score(ds[j], s.Full()) > r.corr)
      && r.inverted == Polarity(ds[r.offset], s.Full(), r.offset, inverted)
  {
    if s.Dist(0) != 0 && s.Checked() > 0 {
      ScanFindsEarliestBest(s.Dists(), s.Full(), inverted);
    }
  }

  /** The window after shifting in bit j of byte i. */
  lemma ShiftBit(frame: seq<bv8>, i: nat, j: nat, window: nat)
    requires i < |frame| && j < 8 && window == Bits(frame, i, j) % Pow64
    ensures (window * 2 + ByteBit(frame[i], j)) % Pow64 == Bits(frame, i, j + 1) % Pow64
  {
    ModShiftIn(Bits(frame, i, j), 2, ByteBit(frame[i], j), Pow64);
  }

  /** The window held before bit j of byte syncLen + i is the one the
      search examines at offset 8*i + j. */
  lemma WindowAt(s: Search, i: nat, j: nat)
    requires s.Valid() && j <= 8 && s.syncLen + i < s.len
    ensures 8 * i + j <= s.Checked()
    ensures j < 8 ==> s.Window(8 * i + j) == Bits(s.frame, s.syncLen + i, j) % Pow64
  {
    if j < 8 {
      DivModUnique(8 * i + j, 8, i, j);
    }
  }

  /** The window ranked at offset k is the number spelled by the (at most)
      64 frame bits that end at bit 8*syncLen + k; for an 8-byte sync word
      these are frame bits k .. k + 63, the bits a sync word starting at
      bit k would occupy. */
  lemma WindowBits(s: Search, k: nat)
    requires s.Valid() && k <= s.Checked()
    ensures var e := 8 * s.syncLen + k;
      e <= |BytesBits(s.frame)| &&
      s.Window(k) == BitsValue(BytesBits(s.frame)[LastStart(e)..e])
  {
    var l, f := s.syncLen, s.frame;
    assert 8 * l + k <= 8 * |f| by {
      if s.len > l {
        assert k <= 8 * (s.len - l);
      }
    }
    PrefixWindowBits(f, l, k);
  }

  /** For an 8-byte sync word, the window at offset k is frame bits
      k .. k + 63. */
  lemma SyncWindowBits(s: Search, k: nat)
    requires s.Valid() && s.syncLen == 8 && k <= s.Checked()
    ensures k + 64 <= |BytesBits(s.frame)|
    ensures s.Window(k) == BitsValue(BytesBits(s.frame)[k..k + 64])
  {
    var p := BytesBits(s.frame);
    var e := 8 * s.syncLen + k;
    assert e == k + 64 && LastStart(e) == k;
    WindowBits(s, k);
    assert s.Window(k) == BitsValue(p[k..e]);
  }

  lemma PrefixWindowBits(frame: seq<bv8>, l: nat, k: nat)
    requires 8 * l + k <= 8 * |frame|
    ensures var e := 8 * l + k;
      Bits(frame, l + k / 8, k % 8) % Pow64 == BitsValue(BytesBits(frame)[LastStart(e)..e])
  {
    PrefixBitsValue(frame, l, k);
    LastBitsValue(BytesBits(frame), 8 * l + k);
  }

  /** The value shifted in up to bit k after byte l is the number the first
      8l + k frame bits spell. */
  lemma PrefixBitsValue(frame: seq<bv8>, l: nat, k: nat)
    requires 8 * l + k <= 8 * |frame|
    ensures Bits(frame, l + k / 8, k % 8) == BitsValue(BytesBits(frame)[..8 * l + k])
  {
    var q, j := k / 8, k % 8;
    DivModUnique(k, 8, q, j);
    assert 8 * (l + q) + j == 8 * l + k;
    BitsIsValue(frame, l + q, j);
  }

  /** Where the last (at most) 64 of the first e bits start. */
  function LastStart(e: nat): (lo: nat)
    ensures lo <= e
  {
    if e >= 64 then e - 64 else 0
  }

  /** The value of a prefix, truncated to 64 bits, is the value of the
      prefix's last (at most) 64 bits. */
  lemma LastBitsValue(p: seq<bool>, e: nat)
    requires e <= |p|
    ensures BitsValue(p[..e]) % Pow64 == BitsValue(p[LastStart(e)..e])
  {
    Pow64IsPow2();
    var v := BitsValue(p[..e]);
    if e >= 64 {
      ValueLowBits(p[..e], 64);
      assert p[..e][e - 64..] == p[e - 64..e];
    } else {
      ValueBound(p[..e]);
      PowMono(e, 64);
      DivModUnique(v, Pow64, 0, v);
      assert p[..e] == p[0..e];
    }
  }

  /** The distance at bit j of byte syncLen + i, computed from the window the
      loop holds there. */
  function LoopDist(s: Search, i: nat, j: nat): nat
    requires s.Valid() && s.syncLen + i < s.len && j < 8
  {
    Distance(And(s.syncWord, s.mask), And(Bits(s.frame, s.syncLen + i, j) % Pow64, s.mask))
  }

  /** ds holds, at entry 8*i + j, the distance the loop computes at bit j of
      byte syncLen + i. */
  ghost predicate LoopDists(s: Search, ds: seq<int>)
    requires s.Valid()
  {
    && |ds| == s.Checked()
    && forall i: nat, j: nat | s.syncLen + i < s.len && j < 8 :: ds[8 * i + j] == LoopDist(s, i, j)
  }

  /** The distances the search ranks are the ones the loop computes. */
  lemma DistsAreLoopDists(s: Search)
    requires s.Valid()
    ensures LoopDists(s, s.Dists())
  {
    forall i: nat, j: nat | s.syncLen + i < s.len && j < 8
      ensures s.Dists()[8 * i + j] == LoopDist(s, i, j)
    {
      WindowAt(s, i, j);
      DistsAt(s, 8 * i + j);
    }
  }

  /** The two checks at offset 8*i + j of the search loop, with the best so
      far in separate variables as in the source. */
  method CheckOffset(s: Search, word: nat, window: nat, i: nat, j: nat, bestCorr: int, bestOffset: nat, inv: bool)
    returns (bestCorr': int, bestOffset': nat, inv': bool)
    requires s.Valid() && j < 8 && s.syncLen + i < s.len
    requires word == And(s.syncWord, s.mask) && window == Bits(s.frame, s.syncLen + i, j) % Pow64
    ensures Best(bestCorr', bestOffset', inv')
            == Step(Best(bestCorr, bestOffset, inv), 8 * i + j, LoopDist(s, i, j), s.Full())
  {
    var k := 8 * i + j;
    Pow64IsPow2();
    AndBound(window, s.mask, 64);
    AndBound(s.syncWord, s.mask, 64);
    var corr: int := InverseCorrelateU64(word, And(window, s.mask));
    bestCorr', bestOffset', inv' := bestCorr, bestOffset, inv;
    if corr < bestCorr' {
      bestCorr', bestOffset', inv' := corr, k, false;
    }
    corr := 8 * s.syncLen - corr;
    if corr < bestCorr' {
      bestCorr', bestOffset', inv' := corr, k, true;
    }
  }

  /** The window filled with the first n bytes of the frame, as
      `window = window << 8 | *frame++` does. */
  method FillWindow(frame: seq<bv8>, n: nat) returns (window: nat)
    requires n <= |frame|
    ensures window == Bits(frame, n, 0) % Pow64
  {
    window := 0;
    var i: nat := 0;
    while i < n
      invariant i <= n
      invariant window == Bits(frame, i, 0) % Pow64
    {
      BitsByte(frame, i);
      ModShiftIn(Bits(frame, i, 0), 256, frame[i] as nat, Pow64);
      window := (window * 256 + frame[i] as nat) % Pow64;
      i := i + 1;
    }
  }

  /** The eight offsets of byte syncLen + i: check each, then shift the
      byte's bits into the window, most significant first. */
  method ScanByte(s: Search, ghost ds: seq<int>, ghost init: Best, word: nat, window: nat, i: nat,
                  bestCorr: int, bestOffset: nat, inv: bool)
    returns (window': nat, bestCorr': int, bestOffset': nat, inv': bool)
    requires s.Valid() && LoopDists(s, ds) && s.syncLen + i < s.len
    requires word == And(s.syncWord, s.mask) && window == Bits(s.frame, s.syncLen + i, 0) % Pow64
    requires 8 * i + 8 <= |ds| && Best(bestCorr, bestOffset, inv) == Scan(ds, s.Full(), 8 * i, init)
    ensures window' == Bits(s.frame, s.syncLen + i, 8) % Pow64
    ensures Best(bestCorr', bestOffset', inv') == Scan(ds, s.Full(), 8 * i + 8, init)
  {
    var tmp := s.frame[s.syncLen + i];
    window', bestCorr', bestOffset', inv' := window, bestCorr, bestOffset, inv;
    var j: nat := 0;
    while j < 8
      invariant j <= 8
      invariant window' == Bits(s.frame, s.syncLen + i, j) % Pow64
      invariant Best(bestCorr', bestOffset', inv') == Scan(ds, s.Full(), 8 * i + j, init)
    {
      window', bestCorr', bestOffset', inv' := ScanBit(s, ds, init, word, window', i, j, tmp, bestCorr', bestOffset', inv');
      j := j + 1;
    }
  }

  /** One pass of the inner loop: check offset 8*i + j, then shift bit j of
      byte syncLen + i into the window. */
  method ScanBit(s: Search, ghost ds: seq<int>, ghost init: Best, word: nat, window: nat, i: nat, j: nat,
                 tmp: bv8, bestCorr: int, bestOffset: nat, inv: bool)
    returns (window': nat, bestCorr': int, bestOffset': nat, inv': bool)
    requires s.Valid() && LoopDists(s, ds) && s.syncLen + i < s.len && j < 8
    requires word == And(s.syncWord, s.mask) && window == Bits(s.frame, s.syncLen + i, j) % Pow64
    requires tmp == s.frame[s.syncLen + i]
    requires 8 * i + j < |ds| && Best(bestCorr, bestOffset, inv) == Scan(ds, s.Full(), 8 * i + j, init)
    ensures window' == Bits(s.frame, s.syncLen + i, j + 1) % Pow64
    ensures Best(bestCorr', bestOffset', inv') == Scan(ds, s.Full(), 8 * i + j + 1, init)
  {
    assert ds[8 * i + j] == LoopDist(s, i, j);
    bestCorr', bestOffset', inv' := CheckOffset(s, word, window, i, j, bestCorr, bestOffset, inv);
    ShiftBit(s.frame, s.syncLen + i, j, window);
    window' := (window * 2 + ByteBit(tmp, j)) % Pow64;
  }

  /** The search loop over the len - syncLen bytes after the first syncLen. */
  method ScanBytes(s: Search, ghost ds: seq<int>, word: nat, window: nat, bestCorr: int, inverted: bool)
    returns (bestOffset: nat, inv: bool)
    requires s.Valid() && LoopDists(s, ds) && word == And(s.syncWord, s.mask)
    requires s.syncLen < s.len ==> window == Bits(s.frame, s.syncLen, 0) % Pow64
    ensures var r := Scan(ds, s.Full(), |ds|, Best(bestCorr, 0, inverted));
            bestOffset == r.offset && inv == r.inverted
  {
    ghost var init := Best(bestCorr, 0, inverted);
    var corr := bestCorr;
    var w := window;
    bestOffset, inv := 0, inverted;
    var i: nat := 0;
    while i < s.len - s.syncLen
      invariant i <= s.len - s.syncLen
      invariant i < s.len - s.syncLen ==> w == Bits(s.frame, s.syncLen + i, 0) % Pow64
      invariant Best(corr, bestOffset, inv) == Scan(ds, s.Full(), 8 * i, init)
    {
      w, corr, bestOffset, inv := ScanByte(s, ds, init, word, w, i, corr, bestOffset, inv);
      i := i + 1;
    }
  }

  /** correlateU64 with a given mask: the window is filled with the first
      syncLen bytes, then shifted one bit at a time over the remaining
      len - syncLen bytes. Returns the offset and the polarity flag. */
  method CorrelateU64(frame: seq<bv8>, len: nat, syncWord: nat, syncLen: nat, mask: nat, inverted: bool)
    returns (offset: nat, inv: bool)
    requires syncLen <= len <= |frame| && IsU64(syncWord) && IsU64(mask)
    ensures var r := Correlate(Search(frame, len, syncWord, syncLen, mask), inverted);
            offset == r.offset && inv == r.inverted
  {
    var s := Search(frame, len, syncWord, syncLen, mask);
    Pow64IsPow2();
    AndBound(syncWord, mask, 64);
    var word := And(syncWord, mask);

    var window := FillWindow(frame, syncLen);
    AndBound(window, mask, 64);
    var bestCorr: int := InverseCorrelateU64(word, And(window, mask));
    assert bestCorr == s.Dist(0) by {
      assert s.Window(0) == window;
    }
    if bestCorr == 0 {
      return 0, inverted;
    }
    DistsAreLoopDists(s);
    offset, inv := ScanBytes(s, s.Dists(), word, window, bestCorr, inverted);
  }
}
