/** The Reed-Solomon stage of the RS41 decoder: the frame's data and parity
    bytes form `interleaving` codewords; each is gathered into a block,
    handed to a codeword decoder, and the decoder's block is written back.
    Only the index arithmetic is modelled: the decoder is a parameter. */
module Interleave {
  import opened Words
  import opened Rs41

  /** What the codeword decoder reports: a status that is negative when the
      codeword could not be corrected, and the block it leaves behind. */
  datatype Decoded = Decoded(status: int, block: seq<Byte>)

  /** A codeword decoder. */
  type Decoder = seq<Byte> -> Decoded

  /** The decoder corrects in place: the block keeps its length. */
  ghost predicate InPlace(dec: Decoder)
  {
    forall b :: |dec(b).block| == |b|
  }

  /** Frame position of data symbol i of codeword b. The data region is
      entered one byte early, so symbol 0 of codeword 0 is the byte just
      before the data region. */
  function DataPos(L: Layout, b: nat, i: nat): (p: nat)
    requires L.Valid() && b < L.interleaving && i < L.k
    ensures L.dataAt - 1 <= p < L.frameLen
  {
    MulMonotone(L.interleaving, i + 1, L.k);
    L.dataAt - 1 + Mul(L.interleaving, i) + b
  }

  /** Frame position of parity symbol i of codeword b: each codeword owns a
      contiguous run of t parity bytes, all before the data region. */
  function ParityPos(L: Layout, b: nat, i: nat): (p: nat)
    requires L.Valid() && b < L.interleaving && i < L.t
    ensures L.parityAt + Mul(L.t, b) <= p < L.parityAt + Mul(L.t, b) + L.t
    ensures p < L.dataAt - 1
  {
    MulMonotone(L.t, b + 1, L.interleaving);
    L.parityAt + i + Mul(L.t, b)
  }

  /** Which codeword and which of its symbols sit at offset x of the data
      region (counted from the byte before it): x = d * symbol + codeword.
      Computed by repeated subtraction so that proofs stay linear. */
  datatype Slot = Slot(codeword: nat, symbol: nat)

  function SlotOf(d: nat, x: nat): (s: Slot)
    requires d >= 1
    ensures s.codeword < d
    decreases x
  {
    if x < d then Slot(x, 0)
    else var s := SlotOf(d, x - d); Slot(s.codeword, s.symbol + 1)
  }

  lemma {:induction false} SlotOfSplits(d: nat, x: nat)
    requires d >= 1
    ensures x == Mul(d, SlotOf(d, x).symbol) + SlotOf(d, x).codeword
    decreases x
  {
    if x >= d {
      SlotOfSplits(d, x - d);
    }
  }

  lemma {:induction false} SlotOfUnique(d: nat, q: nat, r: nat)
    requires d >= 1 && r < d
    ensures SlotOf(d, Mul(d, q) + r) == Slot(r, q)
    decreases q
  {
    if q > 0 {
      SlotOfUnique(d, q - 1, r);
    }
  }

  /** The slot of frame position p, for positions from the byte before the
      data region on. */
  function SlotAt(L: Layout, p: nat): Slot
    requires L.Valid() && p + 1 >= L.dataAt
  {
    SlotOf(L.interleaving, p + 1 - L.dataAt)
  }

  /** Whether frame position p is one of data symbols 0..m-1 of codeword b. */
  predicate BlockData(L: Layout, b: nat, m: nat, p: nat)
    requires L.Valid()
  {
    && p + 1 >= L.dataAt
    && SlotAt(L, p).codeword == b
    && SlotAt(L, p).symbol < m
  }

  /** Whether frame position p is one of parity symbols 0..m-1 of codeword b. */
  predicate BlockParity(L: Layout, b: nat, m: nat, p: nat)
  {
    L.parityAt + Mul(L.t, b) <= p < L.parityAt + Mul(L.t, b) + m
  }

  /** Whether frame position p is a data symbol 0..cl-1 of one of the
      codewords 0..m-1. */
  predicate InData(L: Layout, cl: nat, m: nat, p: nat)
    requires L.Valid()
  {
    && p + 1 >= L.dataAt
    && SlotAt(L, p).codeword < m
    && SlotAt(L, p).symbol < cl
  }

  /** Whether frame position p is a parity symbol of one of the codewords
      0..m-1. */
  predicate InParity(L: Layout, m: nat, p: nat)
  {
    L.parityAt <= p < L.parityAt + Mul(L.t, m)
  }

  lemma DataPosSlot(L: Layout, b: nat, i: nat)
    requires L.Valid() && b < L.interleaving && i < L.k
    ensures SlotAt(L, DataPos(L, b, i)) == Slot(b, i)
  {
    SlotOfUnique(L.interleaving, i, b);
  }

  /** Data positions are distinct across codewords and symbols. */
  lemma DataPosInjective(L: Layout, b: nat, i: nat, c: nat, j: nat)
    requires L.Valid() && b < L.interleaving && i < L.k && c < L.interleaving && j < L.k
    ensures DataPos(L, b, i) == DataPos(L, c, j) <==> b == c && i == j
  {
    DataPosSlot(L, b, i);
    DataPosSlot(L, c, j);
  }

  /** Parity positions are distinct across codewords and symbols. */
  lemma ParityPosInjective(L: Layout, b: nat, i: nat, c: nat, j: nat)
    requires L.Valid() && b < L.interleaving && i < L.t && c < L.interleaving && j < L.t
    ensures ParityPos(L, b, i) == ParityPos(L, c, j) <==> b == c && i == j
  {
    if b < c {
      MulMonotone(L.t, b + 1, c);
    } else if c < b {
      MulMonotone(L.t, c + 1, b);
    }
  }

  /** No frame byte is both a data symbol and a parity symbol. */
  lemma DataParityDisjoint(L: Layout, b: nat, i: nat, c: nat, j: nat)
    requires L.Valid() && b < L.interleaving && i < L.k && c < L.interleaving && j < L.t
    ensures DataPos(L, b, i) != ParityPos(L, c, j)
  {
  }

  /** Every position a codeword's data slots describe is its DataPos. */
  lemma BlockDataIsDataPos(L: Layout, b: nat, m: nat, p: nat)
    requires L.Valid() && b < L.interleaving && m <= L.k && BlockData(L, b, m, p)
    ensures p == DataPos(L, b, SlotAt(L, p).symbol)
  {
    SlotOfSplits(L.interleaving, p + 1 - L.dataAt);
  }

  // ---------------------------------------------------------------------
  // Deinterleave and reinterleave
  // ---------------------------------------------------------------------

  /** The block handed to the decoder for codeword b: its cl data symbols,
      then what the buffer held up to k, then its t parity symbols. */
  function Deinterleaved(L: Layout, frame: seq<Byte>, b: nat, cl: nat, blk: seq<Byte>): (r: seq<Byte>)
    requires L.Valid() && L.IsFrame(frame) && b < L.interleaving && cl <= L.k && |blk| == L.n
    ensures |r| == L.n
  {
    seq(L.n, j requires 0 <= j < L.n =>
      if j < cl then frame[DataPos(L, b, j)]
      else if j >= L.k then frame[ParityPos(L, b, j - L.k)]
      else blk[j])
  }

  /** The frame with codeword b's data and parity slots replaced by the
      block's symbols. */
  function Reinterleaved(L: Layout, frame: seq<Byte>, b: nat, cl: nat, blk: seq<Byte>): (r: seq<Byte>)
    requires L.Valid() && L.IsFrame(frame) && b < L.interleaving && cl <= L.k && |blk| == L.n
    ensures L.IsFrame(r)
  {
    seq(L.frameLen, p requires 0 <= p < L.frameLen => ReinterleavedByte(L, frame, b, cl, blk, p))
  }

  /** Byte p of the reinterleaved frame. */
  function ReinterleavedByte(L: Layout, frame: seq<Byte>, b: nat, cl: nat, blk: seq<Byte>, p: nat): Byte
    requires L.Valid() && L.IsFrame(frame) && b < L.interleaving && cl <= L.k && |blk| == L.n
    requires p < L.frameLen
  {
    if BlockData(L, b, cl, p) then
      blk[SlotAt(L, p).symbol]
    else if BlockParity(L, b, L.t, p) then
      var i: nat := p - L.parityAt - Mul(L.t, b);
      blk[L.k + i]
    else frame[p]
  }

  /** The reinterleaved frame: codeword b's slots hold the block's symbols,
      and every other byte is unchanged. */
  lemma ReinterleavedAt(L: Layout, frame: seq<Byte>, b: nat, cl: nat, blk: seq<Byte>)
    requires L.Valid() && L.IsFrame(frame) && b < L.interleaving && cl <= L.k && |blk| == L.n
    ensures forall i :: 0 <= i < cl ==> Reinterleaved(L, frame, b, cl, blk)[DataPos(L, b, i)] == blk[i]
    ensures forall i :: 0 <= i < L.t ==> Reinterleaved(L, frame, b, cl, blk)[ParityPos(L, b, i)] == blk[L.k + i]
  {
    forall i | 0 <= i < cl
      ensures Reinterleaved(L, frame, b, cl, blk)[DataPos(L, b, i)] == blk[i]
    {
      DataPosSlot(L, b, i);
    }
  }

  /** Reinterleaving codeword c leaves the data symbols of codeword b != c alone. */
  lemma ReinterleavedKeepsData(L: Layout, frame: seq<Byte>, c: nat, cl: nat, blk: seq<Byte>, b: nat, i: nat)
    requires L.Valid() && L.IsFrame(frame) && c < L.interleaving && cl <= L.k && |blk| == L.n
    requires b < L.interleaving && i < L.k && b != c
    ensures Reinterleaved(L, frame, c, cl, blk)[DataPos(L, b, i)] == frame[DataPos(L, b, i)]
  {
    DataPosSlot(L, b, i);
    MulMonotone(L.t, c + 1, L.interleaving);
  }

  /** Reinterleaving codeword c leaves the parity symbols of codeword b != c alone. */
  lemma ReinterleavedKeepsParity(L: Layout, frame: seq<Byte>, c: nat, cl: nat, blk: seq<Byte>, b: nat, i: nat)
    requires L.Valid() && L.IsFrame(frame) && c < L.interleaving && cl <= L.k && |blk| == L.n
    requires b < L.interleaving && i < L.t && b != c
    ensures Reinterleaved(L, frame, c, cl, blk)[ParityPos(L, b, i)] == frame[ParityPos(L, b, i)]
  {
    if b < c {
      MulMonotone(L.t, b + 1, c);
    } else {
      MulMonotone(L.t, c + 1, b);
    }
  }

  /** Reinterleaving the block just deinterleaved restores the frame. */
  lemma ReinterleaveDeinterleaved(L: Layout, frame: seq<Byte>, b: nat, cl: nat, blk: seq<Byte>)
    requires L.Valid() && L.IsFrame(frame) && b < L.interleaving && cl <= L.k && |blk| == L.n
    ensures Reinterleaved(L, frame, b, cl, Deinterleaved(L, frame, b, cl, blk)) == frame
  {
    var g := Deinterleaved(L, frame, b, cl, blk);
    var r := Reinterleaved(L, frame, b, cl, g);
    forall p | 0 <= p < L.frameLen
      ensures r[p] == frame[p]
    {
      if BlockData(L, b, cl, p) {
        BlockDataIsDataPos(L, b, cl, p);
      } else if BlockParity(L, b, L.t, p) {
        assert p == ParityPos(L, b, p - L.parityAt - Mul(L.t, b));
      }
    }
  }

  // The loops of rsCorrect write one symbol at a time; the functions below
  // follow them step by step and are shown to build the blocks above.

  /** The first deinterleave loop after m steps. */
  function GatherData(L: Layout, frame: seq<Byte>, b: nat, blk: seq<Byte>, m: nat): (r: seq<Byte>)
    requires L.Valid() && L.IsFrame(frame) && b < L.interleaving && m <= L.k && |blk| == L.n
    ensures |r| == L.n
    decreases m
  {
    if m == 0 then blk
    else GatherData(L, frame, b, blk, m - 1)[m - 1 := frame[DataPos(L, b, m - 1)]]
  }

  /** The second deinterleave loop after m steps. */
  function GatherParity(L: Layout, frame: seq<Byte>, b: nat, blk: seq<Byte>, m: nat): (r: seq<Byte>)
    requires L.Valid() && L.IsFrame(frame) && b < L.interleaving && m <= L.t && |blk| == L.n
    ensures |r| == L.n
    decreases m
  {
    if m == 0 then blk
    else GatherParity(L, frame, b, blk, m - 1)[L.k + m - 1 := frame[ParityPos(L, b, m - 1)]]
  }

  /** The first reinterleave loop after m steps. */
  function ScatterData(L: Layout, frame: seq<Byte>, b: nat, blk: seq<Byte>, m: nat): (r: seq<Byte>)
    requires L.Valid() && L.IsFrame(frame) && b < L.interleaving && m <= L.k && |blk| == L.n
    ensures L.IsFrame(r)
    decreases m
  {
    if m == 0 then frame
    else ScatterData(L, frame, b, blk, m - 1)[DataPos(L, b, m - 1) := blk[m - 1]]
  }

  /** The second reinterleave loop after m steps. */
  function ScatterParity(L: Layout, frame: seq<Byte>, b: nat, blk: seq<Byte>, m: nat): (r: seq<Byte>)
    requires L.Valid() && L.IsFrame(frame) && b < L.interleaving && m <= L.t && |blk| == L.n
    ensures L.IsFrame(r)
    decreases m
  {
    if m == 0 then frame
    else ScatterParity(L, frame, b, blk, m - 1)[ParityPos(L, b, m - 1) := blk[L.k + m - 1]]
  }

  lemma {:induction false} GatherDataAt(L: Layout, frame: seq<Byte>, b: nat, blk: seq<Byte>, m: nat)
    requires L.Valid() && L.IsFrame(frame) && b < L.interleaving && m <= L.k && |blk| == L.n
    ensures forall j :: 0 <= j < L.n ==>
      GatherData(L, frame, b, blk, m)[j] == (if j < m then frame[DataPos(L, b, j)] else blk[j])
    decreases m
  {
    if m > 0 {
      GatherDataAt(L, frame, b, blk, m - 1);
    }
  }

  lemma {:induction false} GatherParityAt(L: Layout, frame: seq<Byte>, b: nat, blk: seq<Byte>, m: nat)
    requires L.Valid() && L.IsFrame(frame) && b < L.interleaving && m <= L.t && |blk| == L.n
    ensures forall j :: 0 <= j < L.n ==>
      GatherParity(L, frame, b, blk, m)[j]
        == (if L.k <= j < L.k + m then frame[ParityPos(L, b, j - L.k)] else blk[j])
    decreases m
  {
    if m > 0 {
      GatherParityAt(L, frame, b, blk, m - 1);
    }
  }

  /** The two deinterleave loops build the deinterleaved block. */
  lemma DeinterleaveLoops(L: Layout, frame: seq<Byte>, b: nat, cl: nat, blk: seq<Byte>)
    requires L.Valid() && L.IsFrame(frame) && b < L.interleaving && cl <= L.k && |blk| == L.n
    ensures GatherParity(L, frame, b, GatherData(L, frame, b, blk, cl), L.t)
      == Deinterleaved(L, frame, b, cl, blk)
  {
    GatherDataAt(L, frame, b, blk, cl);
    GatherParityAt(L, frame, b, GatherData(L, frame, b, blk, cl), L.t);
  }

  lemma {:induction false} ScatterDataAt(L: Layout, frame: seq<Byte>, b: nat, blk: seq<Byte>, m: nat)
    requires L.Valid() && L.IsFrame(frame) && b < L.interleaving && m <= L.k && |blk| == L.n
    ensures forall p :: 0 <= p < L.frameLen ==>
      ScatterData(L, frame, b, blk, m)[p]
        == (if BlockData(L, b, m, p) then blk[SlotAt(L, p).symbol] else frame[p])
    decreases m
  {
    if m > 0 {
      ScatterDataAt(L, frame, b, blk, m - 1);
      DataPosSlot(L, b, m - 1);
      forall p | 0 <= p < L.frameLen && BlockData(L, b, m, p) && !BlockData(L, b, m - 1, p)
        ensures p == DataPos(L, b, m - 1)
      {
        BlockDataIsDataPos(L, b, m, p);
      }
    }
  }

  lemma {:induction false} ScatterParityAt(L: Layout, frame: seq<Byte>, b: nat, blk: seq<Byte>, m: nat)
    requires L.Valid() && L.IsFrame(frame) && b < L.interleaving && m <= L.t && |blk| == L.n
    ensures forall p :: 0 <= p < L.frameLen ==>
      ScatterParity(L, frame, b, blk, m)[p]
        == (if BlockParity(L, b, m, p) then blk[L.k + (p - L.parityAt - Mul(L.t, b))] else frame[p])
    decreases m
  {
    if m > 0 {
      ScatterParityAt(L, frame, b, blk, m - 1);
    }
  }

  /** The two reinterleave loops build the reinterleaved frame. */
  lemma ReinterleaveLoops(L: Layout, frame: seq<Byte>, b: nat, cl: nat, blk: seq<Byte>)
    requires L.Valid() && L.IsFrame(frame) && b < L.interleaving && cl <= L.k && |blk| == L.n
    ensures ScatterParity(L, ScatterData(L, frame, b, blk, cl), b, blk, L.t)
      == Reinterleaved(L, frame, b, cl, blk)
  {
    ScatterDataAt(L, frame, b, blk, cl);
    ScatterParityAt(L, ScatterData(L, frame, b, blk, cl), b, blk, L.t);
    forall p | 0 <= p < L.frameLen && BlockParity(L, b, L.t, p)
      ensures !BlockData(L, b, cl, p)
    {
      MulMonotone(L.t, b + 1, L.interleaving);
    }
  }

  // ---------------------------------------------------------------------
  // The codeword loop
  // ---------------------------------------------------------------------

  /** The loop state: the frame, the block buffer carried from one codeword
      to the next, and the running verdict. */
  datatype Pass = Pass(frame: seq<Byte>, block: seq<Byte>, valid: bool)

  predicate PassOk(L: Layout, s: Pass)
  {
    L.IsFrame(s.frame) && |s.block| == L.n
  }

  /** One codeword: deinterleave, decode, reinterleave; a negative status
      clears the verdict. */
  function Step(L: Layout, dec: Decoder, cl: nat, s: Pass, b: nat): (r: Pass)
    requires InPlace(dec) && L.Valid() && cl <= L.k && b < L.interleaving && PassOk(L, s)
    ensures PassOk(L, r)
  {
    var d := dec(Deinterleaved(L, s.frame, b, cl, s.block));
    Pass(Reinterleaved(L, s.frame, b, cl, d.block), d.block, if d.status < 0 then false else s.valid)
  }

  /** The state after codewords 0..m-1. */
  function Blocks(L: Layout, dec: Decoder, cl: nat, s0: Pass, m: nat): (r: Pass)
    requires InPlace(dec) && L.Valid() && cl <= L.k && m <= L.interleaving && PassOk(L, s0)
    ensures PassOk(L, r)
    decreases m
  {
    if m == 0 then s0 else Step(L, dec, cl, Blocks(L, dec, cl, s0, m - 1), m - 1)
  }

  /** What the decoder returned for codeword b. */
  function Result(L: Layout, dec: Decoder, cl: nat, s0: Pass, b: nat): (d: Decoded)
    requires InPlace(dec) && L.Valid() && cl <= L.k && b < L.interleaving && PassOk(L, s0)
    ensures |d.block| == L.n
  {
    var s := Blocks(L, dec, cl, s0, b);
    dec(Deinterleaved(L, s.frame, b, cl, s.block))
  }

  function Zeros(n: nat): (z: seq<Byte>)
    ensures |z| == n && forall i :: 0 <= i < n ==> z[i] == 0
  {
    seq(n, i => 0)
  }

  datatype Corrected = Corrected(frame: seq<Byte>, valid: bool)

  /** The initial loop state: the block buffer starts zeroed. */
  function Start(L: Layout, frame: seq<Byte>): (s: Pass)
    requires L.IsFrame(frame)
    ensures PassOk(L, s)
  {
    Pass(frame, Zeros(L.n), true)
  }

  /** rsCorrect: every codeword corrected in turn; the verdict says whether
      all of them decoded. The chunk length is fixed by the flag byte as it
      was on entry. */
  function RsCorrect(L: Layout, dec: Decoder, frame: seq<Byte>): (r: Corrected)
    requires InPlace(dec) && L.Valid() && L.IsFrame(frame)
    ensures L.IsFrame(r.frame)
  {
    var s := Blocks(L, dec, L.ChunkLen(frame), Start(L, frame), L.interleaving);
    Corrected(s.frame, s.valid)
  }

  /** Bytes outside the codewords handled so far keep their original value. */
  lemma {:induction false} BlocksKeep(L: Layout, dec: Decoder, cl: nat, s0: Pass, m: nat)
    requires InPlace(dec) && L.Valid() && cl <= L.k && m <= L.interleaving && PassOk(L, s0)
    ensures forall p :: 0 <= p < L.frameLen && !InData(L, cl, m, p) && !InParity(L, m, p) ==>
      Blocks(L, dec, cl, s0, m).frame[p] == s0.frame[p]
    decreases m
  {
    if m > 0 {
      BlocksKeep(L, dec, cl, s0, m - 1);
      var s := Blocks(L, dec, cl, s0, m - 1);
      var d := dec(Deinterleaved(L, s.frame, m - 1, cl, s.block));
      ReinterleavedAt(L, s.frame, m - 1, cl, d.block);
      assert Mul(L.t, m) == Mul(L.t, m - 1) + L.t;
    }
  }

  /** Each codeword reads the bytes of the original frame: earlier codewords
      never write its slots. */
  lemma BlockReadsOriginal(L: Layout, dec: Decoder, cl: nat, s0: Pass, b: nat)
    requires InPlace(dec) && L.Valid() && cl <= L.k && b < L.interleaving && PassOk(L, s0)
    ensures var s := Blocks(L, dec, cl, s0, b);
      Deinterleaved(L, s.frame, b, cl, s.block) == Deinterleaved(L, s0.frame, b, cl, s.block)
  {
    var s := Blocks(L, dec, cl, s0, b);
    BlocksKeep(L, dec, cl, s0, b);
    forall i | 0 <= i < cl
      ensures s.frame[DataPos(L, b, i)] == s0.frame[DataPos(L, b, i)]
    {
      DataPosSlot(L, b, i);
      MulMonotone(L.t, b, L.interleaving);
    }
    forall i | 0 <= i < L.t
      ensures s.frame[ParityPos(L, b, i)] == s0.frame[ParityPos(L, b, i)]
    {
    }
  }

  /** After codewords 0..m-1, their slots hold what the decoder returned. */
  lemma {:induction false} BlocksWrite(L: Layout, dec: Decoder, cl: nat, s0: Pass, m: nat)
    requires InPlace(dec) && L.Valid() && cl <= L.k && m <= L.interleaving && PassOk(L, s0)
    ensures forall b, i :: 0 <= b < m && 0 <= i < cl ==>
      Blocks(L, dec, cl, s0, m).frame[DataPos(L, b, i)] == Result(L, dec, cl, s0, b).block[i]
    ensures forall b, i :: 0 <= b < m && 0 <= i < L.t ==>
      Blocks(L, dec, cl, s0, m).frame[ParityPos(L, b, i)] == Result(L, dec, cl, s0, b).block[L.k + i]
    decreases m
  {
    if m > 0 {
      BlocksWrite(L, dec, cl, s0, m - 1);
      var s := Blocks(L, dec, cl, s0, m - 1);
      var d := Result(L, dec, cl, s0, m - 1);
      var f := Blocks(L, dec, cl, s0, m).frame;
      assert f == Reinterleaved(L, s.frame, m - 1, cl, d.block);
      ReinterleavedAt(L, s.frame, m - 1, cl, d.block);
      forall b, i | 0 <= b < m && 0 <= i < cl
        ensures f[DataPos(L, b, i)] == Result(L, dec, cl, s0, b).block[i]
      {
        if b < m - 1 {
          ReinterleavedKeepsData(L, s.frame, m - 1, cl, d.block, b, i);
        }
      }
      forall b, i | 0 <= b < m && 0 <= i < L.t
        ensures f[ParityPos(L, b, i)] == Result(L, dec, cl, s0, b).block[L.k + i]
      {
        if b < m - 1 {
          ReinterleavedKeepsParity(L, s.frame, m - 1, cl, d.block, b, i);
        }
      }
    }
  }

  lemma StepValid(L: Layout, dec: Decoder, cl: nat, s0: Pass, b: nat)
    requires InPlace(dec) && L.Valid() && cl <= L.k && b < L.interleaving && PassOk(L, s0)
    ensures Blocks(L, dec, cl, s0, b + 1).valid == (Blocks(L, dec, cl, s0, b).valid && Result(L, dec, cl, s0, b).status >= 0)
  {
  }

  /** The verdict stays true exactly when no codeword decode was negative. */
  lemma {:induction false} BlocksValid(L: Layout, dec: Decoder, cl: nat, s0: Pass, m: nat)
    requires InPlace(dec) && L.Valid() && cl <= L.k && m <= L.interleaving && PassOk(L, s0)
    ensures Blocks(L, dec, cl, s0, m).valid <==>
      s0.valid && forall b :: 0 <= b < m ==> Result(L, dec, cl, s0, b).status >= 0
    decreases m
  {
    if m > 0 {
      BlocksValid(L, dec, cl, s0, m - 1);
      StepValid(L, dec, cl, s0, m - 1);
    }
  }

  /** A decoder that hands every block back unchanged leaves the frame as
      it was. */
  lemma {:induction false} BlocksIdentity(L: Layout, dec: Decoder, cl: nat, s0: Pass, m: nat)
    requires InPlace(dec) && L.Valid() && cl <= L.k && m <= L.interleaving && PassOk(L, s0)
    requires forall blk :: dec(blk).block == blk
    ensures Blocks(L, dec, cl, s0, m).frame == s0.frame
    decreases m
  {
    if m > 0 {
      BlocksIdentity(L, dec, cl, s0, m - 1);
      var s := Blocks(L, dec, cl, s0, m - 1);
      var g := Deinterleaved(L, s.frame, m - 1, cl, s.block);
      assert dec(g).block == g;
      ReinterleaveDeinterleaved(L, s.frame, m - 1, cl, s.block);
      assert Blocks(L, dec, cl, s0, m).frame == Reinterleaved(L, s.frame, m - 1, cl, g);
    }
  }

  /** With full-length chunks the block buffer is overwritten before it is
      read, so its starting contents do not matter. */
  lemma {:induction false} BlocksIgnoreStartBlock(L: Layout, dec: Decoder, s0: Pass, s1: Pass, m: nat)
    requires InPlace(dec) && L.Valid() && m <= L.interleaving && PassOk(L, s0) && PassOk(L, s1)
    requires s0.frame == s1.frame && s0.valid == s1.valid
    ensures Blocks(L, dec, L.k, s0, m).frame == Blocks(L, dec, L.k, s1, m).frame
    ensures Blocks(L, dec, L.k, s0, m).valid == Blocks(L, dec, L.k, s1, m).valid
    decreases m
  {
    if m > 0 {
      BlocksIgnoreStartBlock(L, dec, s0, s1, m - 1);
      var a := Blocks(L, dec, L.k, s0, m - 1);
      var c := Blocks(L, dec, L.k, s1, m - 1);
      assert Deinterleaved(L, a.frame, m - 1, L.k, a.block) == Deinterleaved(L, c.frame, m - 1, L.k, c.block);
    }
  }

  // ---------------------------------------------------------------------
  // The whole of rsCorrect
  // ---------------------------------------------------------------------

  /** rsCorrect reports success exactly when no codeword decode returned a
      negative status. */
  lemma RsCorrectValid(L: Layout, dec: Decoder, frame: seq<Byte>)
    requires InPlace(dec) && L.Valid() && L.IsFrame(frame)
    ensures RsCorrect(L, dec, frame).valid <==>
      forall b :: 0 <= b < L.interleaving ==> Result(L, dec, L.ChunkLen(frame), Start(L, frame), b).status >= 0
  {
    BlocksValid(L, dec, L.ChunkLen(frame), Start(L, frame), L.interleaving);
  }

  /** Each codeword is decoded from the received bytes at its own slots, and
      its slots end up holding what the decoder returned. */
  lemma RsCorrectSlots(L: Layout, dec: Decoder, frame: seq<Byte>, b: nat)
    requires InPlace(dec) && L.Valid() && L.IsFrame(frame) && b < L.interleaving
    ensures var cl := L.ChunkLen(frame);
      var s0 := Start(L, frame);
      var d := Result(L, dec, cl, s0, b);
      && d == dec(Deinterleaved(L, frame, b, cl, Blocks(L, dec, cl, s0, b).block))
      && (forall i :: 0 <= i < cl ==> RsCorrect(L, dec, frame).frame[DataPos(L, b, i)] == d.block[i])
      && (forall i :: 0 <= i < L.t ==> RsCorrect(L, dec, frame).frame[ParityPos(L, b, i)] == d.block[L.k + i])
  {
    var cl := L.ChunkLen(frame);
    BlockReadsOriginal(L, dec, cl, Start(L, frame), b);
    BlocksWrite(L, dec, cl, Start(L, frame), L.interleaving);
  }

  /** Bytes outside every codeword's slots pass through unchanged. */
  lemma RsCorrectKeepsRest(L: Layout, dec: Decoder, frame: seq<Byte>, p: nat)
    requires InPlace(dec) && L.Valid() && L.IsFrame(frame) && p < L.frameLen
    requires !InData(L, L.ChunkLen(frame), L.interleaving, p) && !InParity(L, L.interleaving, p)
    ensures RsCorrect(L, dec, frame).frame[p] == frame[p]
  {
    BlocksKeep(L, dec, L.ChunkLen(frame), Start(L, frame), L.interleaving);
  }

  /** With a decoder that changes nothing, deinterleaving and reinterleaving
      leave the frame unchanged. */
  lemma RsCorrectIdentity(L: Layout, dec: Decoder, frame: seq<Byte>)
    requires InPlace(dec) && L.Valid() && L.IsFrame(frame)
    requires forall blk :: dec(blk).block == blk
    ensures RsCorrect(L, dec, frame).frame == frame
  {
    BlocksIdentity(L, dec, L.ChunkLen(frame), Start(L, frame), L.interleaving);
  }

  /** In an extended frame the block buffer is never zeroed; the result does
      not depend on what it held. */
  lemma RsCorrectExtendedIgnoresBuffer(L: Layout, dec: Decoder, frame: seq<Byte>, junk: seq<Byte>)
    requires InPlace(dec) && L.Valid() && L.IsFrame(frame) && L.Extended(frame) && |junk| == L.n
    ensures Blocks(L, dec, L.k, Pass(frame, junk, true), L.interleaving).frame == RsCorrect(L, dec, frame).frame
    ensures Blocks(L, dec, L.k, Pass(frame, junk, true), L.interleaving).valid == RsCorrect(L, dec, frame).valid
  {
    BlocksIgnoreStartBlock(L, dec, Pass(frame, junk, true), Start(L, frame), L.interleaving);
  }
}
