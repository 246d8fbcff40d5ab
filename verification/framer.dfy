/** The bit framer: a two-state machine (READ, DEOFFSET) that buffers an
    arbitrarily chunked byte stream, finds the sync word's bit offset in each
    buffered frame and emits frameLen-byte frames realigned to that offset. */
module Framer {
  import opened Words
  import opened Correlation

  /** Framer parameters: the sync word, its length in bytes and the frame
      length in bytes. */
  datatype Config = Config(syncWord: nat, syncLen: nat, frameLen: nat)
  {
    predicate Valid()
    {
      1 <= syncLen <= frameLen && IsU64(syncWord)
    }
  }

  datatype Phase = Read | Deoffset

  /** The framer's persistent state: its phase, the valid bits of the raw
      buffer (so |bits| is the source's _dataOffset) and _syncOffset. */
  datatype FramerState = FramerState(phase: Phase, bits: seq<bool>, syncOffset: nat)

  /** State and frames written by one pass over an input chunk. */
  datatype Drained = Drained(state: FramerState, frames: seq<seq<bv8>>)

  /** The bytes of a sequence of frames, one after the other. */
  function Flatten(fs: seq<seq<bv8>>): seq<bv8>
  {
    if |fs| == 0 then [] else fs[0] + Flatten(fs[1..])
  }

  /** Every frame is m bytes long. */
  predicate FramesOf(fs: seq<seq<bv8>>, m: nat)
  {
    forall i | 0 <= i < |fs| :: |fs[i]| == m
  }

  /** Frames of m bytes each make m times as many bytes. */
  lemma {:induction false} FlattenLength(fs: seq<seq<bv8>>, m: nat)
    requires FramesOf(fs, m)
    ensures |Flatten(fs)| == m * |fs|
    decreases |fs|
  {
    if |fs| > 0 {
      FlattenLength(fs[1..], m);
    }
  }

  lemma FlattenWhole(fs: seq<seq<bv8>>, m: nat)
    requires m > 0 && FramesOf(fs, m)
    ensures |Flatten(fs)| % m == 0
  {
    FlattenLength(fs, m);
    ModAddMultiple(0, m, |fs|);
  }

  function CeilDiv(x: nat, y: nat): nat
    requires y > 0
  {
    (x + (y - 1)) / y
  }

  // ---------------------------------------------------------------------
  // Bytes and bits (most significant bit of each byte first)

  /** The byte whose bits, most significant first, are x. */
  function BitsToByte(x: seq<bool>): bv8
    requires |x| == 8
  {
    (if x[0] then 0x80 else 0) | (if x[1] then 0x40 else 0) | (if x[2] then 0x20 else 0)
    | (if x[3] then 0x10 else 0) | (if x[4] then 0x08 else 0) | (if x[5] then 0x04 else 0)
    | (if x[6] then 0x02 else 0) | (if x[7] then 0x01 else 0)
  }

  lemma ByteRoundTrip(b: bv8)
    ensures BitsToByte(ByteToBits(b)) == b
  {
  }

  lemma BitsRoundTrip(x: seq<bool>)
    requires |x| == 8
    ensures ByteToBits(BitsToByte(x)) == x
  {
    var y := ByteToBits(BitsToByte(x));
    assert y[0] == x[0] && y[1] == x[1] && y[2] == x[2] && y[3] == x[3];
    assert y[4] == x[4] && y[5] == x[5] && y[6] == x[6] && y[7] == x[7];
  }

  /** The bytes of a bit sequence whose length is a multiple of 8. */
  function PackBits(bits: seq<bool>): (r: seq<bv8>)
    requires |bits| % 8 == 0
    ensures |r| == |bits| / 8
    decreases |bits|
  {
    if |bits| == 0 then [] else [BitsToByte(bits[..8])] + PackBits(bits[8..])
  }

  lemma {:induction false} BytesBitsAppend(a: seq<bv8>, b: seq<bv8>)
    ensures BytesBits(a + b) == BytesBits(a) + BytesBits(b)
    decreases |a|
  {
    if |a| > 0 {
      assert (a + b)[1..] == a[1..] + b;
      BytesBitsAppend(a[1..], b);
    } else {
      assert a + b == b;
    }
  }

  lemma {:induction false} PackBytesBits(bs: seq<bv8>)
    ensures PackBits(BytesBits(bs)) == bs
    decreases |bs|
  {
    if |bs| > 0 {
      var r := BytesBits(bs);
      assert r[..8] == ByteToBits(bs[0]);
      assert r[8..] == BytesBits(bs[1..]);
      ByteRoundTrip(bs[0]);
      PackBytesBits(bs[1..]);
    }
  }

  lemma {:induction false} BytesPackBits(bits: seq<bool>)
    requires |bits| % 8 == 0
    ensures BytesBits(PackBits(bits)) == bits
    decreases |bits|
  {
    if |bits| > 0 {
      var p := PackBits(bits);
      assert p[0] == BitsToByte(bits[..8]);
      assert p[1..] == PackBits(bits[8..]);
      BitsRoundTrip(bits[..8]);
      BytesPackBits(bits[8..]);
      assert bits == bits[..8] + bits[8..];
    }
  }

  // ---------------------------------------------------------------------
  // The state machine

  /** The state after init and after setInput's reset. */
  function Initial(): FramerState
  {
    FramerState(Read, [], 0)
  }

  /** What every reachable state satisfies, in terms of the phase, the
      number of buffered bits and the sync offset. In READ at most one frame
      and a partial byte is buffered; in DEOFFSET a whole frame is buffered,
      the sync offset is one the search can return, and at most one frame
      and a partial byte lie from the sync offset on. */
  predicate Fits(cfg: Config, phase: Phase, len: nat, so: nat)
  {
    match phase
    case Read => len <= 8 * cfg.frameLen + 7
    case Deoffset =>
      && (so == 0 || so < 8 * (cfg.frameLen - cfg.syncLen))
      && 8 * cfg.frameLen <= len
      && len - so <= 8 * cfg.frameLen + 7
  }

  predicate Inv(cfg: Config, st: FramerState)
  {
    Fits(cfg, st.phase, |st.bits|, st.syncOffset)
  }

  /** A whole frame is buffered: from the start in READ, from the sync
      offset on in DEOFFSET. */
  predicate Full(cfg: Config, phase: Phase, len: nat, so: nat)
  {
    match phase
    case Read => len >= 8 * cfg.frameLen
    case Deoffset => len >= so + 8 * cfg.frameLen
  }

  predicate Complete(cfg: Config, st: FramerState)
  {
    Full(cfg, st.phase, |st.bits|, st.syncOffset)
  }

  /** The number of whole bytes still missing from a frame. */
  function Need(cfg: Config, st: FramerState): nat
    requires cfg.Valid() && Inv(cfg, st)
  {
    match st.phase
    case Read => cfg.frameLen - |st.bits| / 8
    case Deoffset => cfg.frameLen - (|st.bits| - st.syncOffset) / 8
  }

  /** The number of bytes READ or DEOFFSET copies out of `count` available:
      all of them, or exactly as many as complete the frame; the copy stays
      inside the 2*frameLen-byte raw buffer and keeps the invariant. */
  function FillCount(cfg: Config, st: FramerState, count: nat): (n: nat)
    requires cfg.Valid() && Inv(cfg, st)
    ensures n <= count
    ensures CeilDiv(|st.bits|, 8) + n <= 2 * cfg.frameLen
    ensures Fits(cfg, st.phase, |st.bits| + 8 * n, st.syncOffset)
    ensures n < count ==> Full(cfg, st.phase, |st.bits| + 8 * n, st.syncOffset)
    ensures 0 < n ==> !Full(cfg, st.phase, |st.bits| + 8 * (n - 1), st.syncOffset)
  {
    var need := Need(cfg, st);
    if need <= count then need else count
  }

  /** The source's bitpack is not part of this model; it is taken to move
      the freshly copied bytes down so that their bits follow the valid bits. */
  function Fill(st: FramerState, src: seq<bv8>): (r: FramerState)
    ensures r.phase == st.phase && r.syncOffset == st.syncOffset
    ensures |r.bits| == |st.bits| + 8 * |src|
  {
    FramerState(st.phase, st.bits + BytesBits(src), st.syncOffset)
  }

  /** The sync mask the framer searches with: the one correlateU64 builds,
      including its single-bit form for sync words shorter than 8 bytes.
      Every framer property below holds for any 64-bit mask, so replacing
      this by the intended SyncMask changes no proof. */
  function MaskFor(cfg: Config): nat
  {
    SyncMaskAsWritten(cfg.syncLen)
  }

  /** The search over the first frameLen buffered bytes. */
  function SearchOf(cfg: Config, st: FramerState): (s: Search)
    requires cfg.Valid() && |st.bits| >= 8 * cfg.frameLen
    ensures s.Valid() && s.len == cfg.frameLen
  {
    var frame := PackBits(st.bits[..8 * cfg.frameLen]);
    Search(frame, cfg.frameLen, cfg.syncWord, cfg.syncLen, MaskFor(cfg))
  }

  /** The search can only return 0 or a visited offset. */
  lemma CorrelateOffsetInRange(s: Search, inverted: bool)
    requires s.Valid()
    ensures Correlate(s, inverted).offset == 0 || Correlate(s, inverted).offset < s.Checked()
  {
    CorrelateFindsEarliestBest(s, inverted);
  }

  /** The end of READ: correlate the buffered frame and switch to DEOFFSET.
      The source passes the address of an uninitialised flag, and only the
      offset is kept; `false` stands for that flag. */
  function Correlated(cfg: Config, st: FramerState): (r: FramerState)
    requires cfg.Valid() && st.phase == Read && Inv(cfg, st) && Complete(cfg, st)
    ensures r.phase == Deoffset && r.bits == st.bits && Inv(cfg, r)
    ensures r.syncOffset == Correlate(SearchOf(cfg, st), false).offset
  {
    var s := SearchOf(cfg, st);
    CorrelateOffsetInRange(s, false);
    FramerState(Deoffset, st.bits, Correlate(s, false).offset)
  }

  /** bitcpy(buf, buf, offset, n) in place: bit t of the result is bit
      offset + t of buf for t < n, and the rest is unchanged. The source's
      bitcpy is not part of this model; this is the forward copy its
      name and use suggest. */
  function BitCopy(buf: seq<bool>, offset: nat, n: nat): (r: seq<bool>)
    requires offset + n <= |buf|
    ensures |r| == |buf|
    ensures r[..n] == buf[offset..offset + n] && r[n..] == buf[n..]
  {
    buf[offset..offset + n] + buf[n..]
  }

  /** A frame emitted by DEOFFSET and the state it leaves. */
  datatype Emission = Emission(frame: seq<bv8>, next: FramerState)

  /** The end of DEOFFSET: copy the frame at the sync offset to the front
      and write it out, then copy the byte at the sync offset to the front
      and keep syncOffset % 8 of its bits. */
  function Emit(cfg: Config, st: FramerState): (e: Emission)
    requires cfg.Valid() && st.phase == Deoffset && Inv(cfg, st) && Complete(cfg, st)
    ensures |e.frame| == cfg.frameLen
    ensures e.next.phase == Read && |e.next.bits| == st.syncOffset % 8 && Inv(cfg, e.next)
    ensures e.next.syncOffset == st.syncOffset
  {
    var so := st.syncOffset;
    var fl := cfg.frameLen;
    var b1 := BitCopy(st.bits, so, 8 * fl);
    var b2 := BitCopy(b1, so, 8);
    Emission(PackBits(b1[..8 * fl]), FramerState(Read, b2[..so % 8], so))
  }

  /** The frame written holds the frameLen * 8 buffered bits that start at
      the sync offset. */
  lemma EmitFrame(cfg: Config, st: FramerState)
    requires cfg.Valid() && st.phase == Deoffset && Inv(cfg, st) && Complete(cfg, st)
    ensures BytesBits(Emit(cfg, st).frame) == st.bits[st.syncOffset..st.syncOffset + 8 * cfg.frameLen]
  {
    var so := st.syncOffset;
    var fl := cfg.frameLen;
    var b1 := BitCopy(st.bits, so, 8 * fl);
    BytesPackBits(b1[..8 * fl]);
  }

  /** With an 8-byte sync word, the window the search ranks at offset k is
      buffered bits k .. k + 63. */
  lemma SearchWindowBits(cfg: Config, st: FramerState, k: nat)
    requires cfg.Valid() && cfg.syncLen == 8 && |st.bits| >= 8 * cfg.frameLen
    requires k <= SearchOf(cfg, st).Checked()
    ensures k + 64 <= |st.bits|
    ensures SearchOf(cfg, st).Window(k) == BitsValue(st.bits[k..k + 64])
  {
    var s := SearchOf(cfg, st);
    var b := st.bits[..8 * cfg.frameLen];
    SearchFrameBits(cfg, st);
    SyncWindowBits(s, k);
    assert b[k..k + 64] == st.bits[k..k + 64];
  }

  /** The search runs on the first frameLen buffered bytes. */
  lemma SearchFrameBits(cfg: Config, st: FramerState)
    requires cfg.Valid() && |st.bits| >= 8 * cfg.frameLen
    ensures BytesBits(SearchOf(cfg, st).frame) == st.bits[..8 * cfg.frameLen]
  {
    BytesPackBits(st.bits[..8 * cfg.frameLen]);
  }

  /** With an 8-byte sync word, the frame written for sync offset k starts
      with the 64 bits the search ranked at offset k: the offset the search
      picks is where the written frame's sync word comes from. */
  lemma EmittedFrameStartsWithWindow(cfg: Config, st: FramerState)
    requires cfg.Valid() && cfg.syncLen == 8 && st.phase == Deoffset && Inv(cfg, st) && Complete(cfg, st)
    requires |st.bits| >= 8 * cfg.frameLen && st.syncOffset <= SearchOf(cfg, st).Checked()
    ensures BitsValue(BytesBits(Emit(cfg, st).frame)[..64]) == SearchOf(cfg, st).Window(st.syncOffset)
  {
    var so := st.syncOffset;
    var w := st.bits[so..so + 8 * cfg.frameLen];
    EmitFrame(cfg, st);
    SearchWindowBits(cfg, st, so);
    assert BytesBits(Emit(cfg, st).frame) == w;
    assert w[..64] == st.bits[so..so + 64];
  }

  /** The bits the framer keeps after an emission are the syncOffset % 8
      bits that start at twice the sync offset: the second bitcpy reads the
      buffer the first one has already shifted. */
  lemma EmitRetains(cfg: Config, st: FramerState)
    requires cfg.Valid() && st.phase == Deoffset && Inv(cfg, st) && Complete(cfg, st)
    ensures 2 * st.syncOffset + st.syncOffset % 8 <= |st.bits|
    ensures Emit(cfg, st).next.bits
            == st.bits[2 * st.syncOffset..2 * st.syncOffset + st.syncOffset % 8]
  {
    var so := st.syncOffset;
    var fl := cfg.frameLen;
    assert so + 8 <= 8 * fl;
    var b1 := BitCopy(st.bits, so, 8 * fl);
    var b2 := BitCopy(b1, so, 8);
    var k := so % 8;
    calc {
      Emit(cfg, st).next.bits;
      b2[..k];
      b2[..8][..k];
      b1[so..so + 8][..k];
      { assert b1[so..so + 8] == b1[..8 * fl][so..so + 8]; }
      st.bits[so..so + 8 * fl][so..so + 8][..k];
      { SliceOfSlice(st.bits, so, so + 8 * fl, so, so + 8); }
      st.bits[2 * so..2 * so + 8][..k];
      { SliceOfSlice(st.bits, 2 * so, 2 * so + 8, 0, k); }
      st.bits[2 * so..2 * so + k];
    }
  }

  lemma SliceOfSlice<T>(s: seq<T>, a: nat, b: nat, c: nat, d: nat)
    requires a <= b <= |s| && c <= d <= b - a
    ensures s[a..b][c..d] == s[a + c..a + d]
  {
    forall t | 0 <= t < d - c
      ensures s[a..b][c..d][t] == s[a + c..a + d][t]
    {
      assert s[a..b][c..d][t] == s[a..b][c + t];
    }
  }

  /** Rank of a state for termination: a READ that still needs bytes takes
      at least one, a full READ becomes DEOFFSET, DEOFFSET becomes READ. */
  function Rank(cfg: Config, st: FramerState): nat
  {
    match st.phase
    case Read => if |st.bits| < 8 * cfg.frameLen then 0 else 2
    case Deoffset => 1
  }

  /** One copy step keeps the invariant, completes the frame unless it uses
      up the input, and takes at least one byte from a READ that still
      needs bytes. */
  lemma FillStep(cfg: Config, st: FramerState, src: seq<bv8>)
    requires cfg.Valid() && Inv(cfg, st) && |src| > 0
    ensures var n := FillCount(cfg, st, |src|);
            var st1 := Fill(st, src[..n]);
            && Inv(cfg, st1)
            && (n < |src| ==> Complete(cfg, st1))
            && (Rank(cfg, st) == 0 ==> n >= 1)
  {
  }

  /** One pass of run's loop: what it leaves, the input it has not yet
      used, the frame it wrote if any, and whether the chunk ran out. */
  datatype Pass = Pass(next: FramerState, rest: seq<bv8>, frames: seq<seq<bv8>>, done: bool)

  /** What a pass does once its bytes are copied: stop if the chunk is used
      up; otherwise correlate (READ) or write the frame (DEOFFSET). */
  function After(cfg: Config, st1: FramerState, rest: seq<bv8>): (p: Pass)
    requires cfg.Valid() && Inv(cfg, st1) && (|rest| > 0 ==> Complete(cfg, st1))
    ensures Inv(cfg, p.next) && FramesOf(p.frames, cfg.frameLen) && p.rest == rest
    ensures p.done <==> |rest| == 0
    ensures !p.done ==> Rank(cfg, p.next) < Rank(cfg, st1) || (st1.phase == Read && Rank(cfg, p.next) == 1)
  {
    if |rest| == 0 then Pass(st1, rest, [], true)
    else if st1.phase == Read then Pass(Correlated(cfg, st1), rest, [], false)
    else
      var e := Emit(cfg, st1);
      Pass(e.next, rest, [e.frame], false)
  }

  /** One pass of run's loop over a non-empty chunk: copy bytes towards a
      whole frame, then carry on as After says. */
  function Once(cfg: Config, st: FramerState, src: seq<bv8>): (p: Pass)
    requires cfg.Valid() && Inv(cfg, st) && |src| > 0
    ensures Inv(cfg, p.next) && FramesOf(p.frames, cfg.frameLen) && |p.rest| <= |src|
    ensures p.done <==> |p.rest| == 0
    ensures !p.done ==> |p.rest| < |src| || Rank(cfg, p.next) < Rank(cfg, st)
  {
    FillStep(cfg, st, src);
    var n := FillCount(cfg, st, |src|);
    After(cfg, Fill(st, src[..n]), src[n..])
  }

  /** run's loop over one input chunk. Every frame written is frameLen
      bytes long. */
  function Drain(cfg: Config, st: FramerState, src: seq<bv8>): (r: Drained)
    requires cfg.Valid() && Inv(cfg, st)
    ensures Inv(cfg, r.state)
    ensures FramesOf(r.frames, cfg.frameLen)
    decreases |src|, Rank(cfg, st)
  {
    if |src| == 0 then Drained(st, [])
    else
      var p := Once(cfg, st, src);
      if p.done then Drained(p.next, p.frames)
      else
        var r := Drain(cfg, p.next, p.rest);
        Drained(r.state, p.frames + r.frames)
  }

  /** The bytes run writes for one chunk. */
  function Output(cfg: Config, st: FramerState, src: seq<bv8>): (out: seq<bv8>)
    requires cfg.Valid() && Inv(cfg, st)
    ensures |out| % cfg.frameLen == 0
  {
    var fs := Drain(cfg, st, src).frames;
    FlattenWhole(fs, cfg.frameLen);
    Flatten(fs)
  }

  /** What one call of run gets from its input stream. */
  datatype Input = ReadError | Chunk(data: seq<bv8>)

  /** run's return value, the state it leaves and the bytes it wrote. */
  datatype RunResult = RunResult(ret: int, state: FramerState, written: seq<bv8>)

  /** One call of run: -1 on a read error (nothing changes) or when the
      output swap fails after some bytes were written; otherwise the number
      of bytes written. swapOk is the outcome of out.swap. */
  function Run(cfg: Config, st: FramerState, input: Input, swapOk: bool): (r: RunResult)
    requires cfg.Valid() && Inv(cfg, st)
    ensures Inv(cfg, r.state)
    ensures input.ReadError? ==> r.ret == -1 && r.state == st && r.written == []
    ensures input.Chunk? ==> r.state == Drain(cfg, st, input.data).state
                             && r.written == Output(cfg, st, input.data)
    ensures r.ret == -1 <==> input.ReadError? || (|r.written| > 0 && !swapOk)
    ensures r.ret != -1 ==> r.ret == |r.written| && r.ret % cfg.frameLen == 0
  {
    match input
    case ReadError => RunResult(-1, st, [])
    case Chunk(data) =>
      var d := Drain(cfg, st, data);
      var out := Output(cfg, st, data);
      if |out| > 0 && !swapOk then RunResult(-1, d.state, out)
      else RunResult(|out|, d.state, out)
  }

  /** setInput: back to READ with an empty buffer. _syncOffset is left as
      it was. */
  function SetInput(st: FramerState): (r: FramerState)
    ensures r.phase == Read && |r.bits| == 0 && r.syncOffset == st.syncOffset
  {
    FramerState(Read, [], st.syncOffset)
  }

  // ---------------------------------------------------------------------
  // Chunking does not matter

  /** Feed b to the state a first pass left, collecting both passes' frames. */
  function Then(cfg: Config, d: Drained, b: seq<bv8>): Drained
    requires cfg.Valid() && Inv(cfg, d.state)
  {
    var d2 := Drain(cfg, d.state, b);
    Drained(d2.state, d.frames + d2.frames)
  }

  lemma FillAppend(st: FramerState, a: seq<bv8>, b: seq<bv8>)
    ensures Fill(st, a + b) == Fill(Fill(st, a), b)
  {
    BytesBitsAppend(a, b);
  }

  /** A pass that uses up its chunk a leaves a state from which the rest of
      a longer chunk a + b is handled as if a + b had come at once. */
  lemma OnceDone(cfg: Config, st: FramerState, a: seq<bv8>, b: seq<bv8>)
    requires cfg.Valid() && Inv(cfg, st) && |a| > 0 && |b| > 0 && Once(cfg, st, a).done
    ensures Once(cfg, st, a + b) == Once(cfg, Once(cfg, st, a).next, b)
  {
    var na := FillCount(cfg, st, |a|);
    assert a[na..] == Once(cfg, st, a).rest;
    assert na == |a| && a[..na] == a;
    var mid := Fill(st, a);
    assert Once(cfg, st, a).next == mid;
    var n := FillCount(cfg, st, |a| + |b|);
    var n2 := FillCount(cfg, mid, |b|);
    assert n == |a| + n2;
    assert (a + b)[..n] == a + b[..n2];
    assert (a + b)[n..] == b[n2..];
    FillAppend(st, a, b[..n2]);
  }

  /** A pass that does not use up its chunk a does the same on a + b, with
      b left over as well. */
  lemma OnceNotDone(cfg: Config, st: FramerState, a: seq<bv8>, b: seq<bv8>)
    requires cfg.Valid() && Inv(cfg, st) && |a| > 0 && !Once(cfg, st, a).done
    ensures var p := Once(cfg, st, a);
            Once(cfg, st, a + b) == Pass(p.next, p.rest + b, p.frames, false)
  {
    var n := FillCount(cfg, st, |a|);
    assert a[n..] == Once(cfg, st, a).rest;
    assert FillCount(cfg, st, |a| + |b|) == n;
    assert (a + b)[..n] == a[..n];
    assert (a + b)[n..] == a[n..] + b;
  }

  /** Drain on a non-empty chunk is one pass followed by Drain on what the
      pass leaves. */
  lemma DrainStep(cfg: Config, st: FramerState, src: seq<bv8>)
    requires cfg.Valid() && Inv(cfg, st) && |src| > 0
    ensures var p := Once(cfg, st, src);
            Drain(cfg, st, src)
            == if p.done then Drained(p.next, p.frames) else Then(cfg, Drained(p.next, p.frames), p.rest)
  {
  }

  /** run's loop is resumable: splitting a chunk in two anywhere gives the
      same frames and the same final state as handling it at once. */
  lemma {:induction false} DrainSplit(cfg: Config, st: FramerState, a: seq<bv8>, b: seq<bv8>)
    requires cfg.Valid() && Inv(cfg, st)
    ensures Drain(cfg, st, a + b) == Then(cfg, Drain(cfg, st, a), b)
    decreases |a|, Rank(cfg, st)
  {
    if |a| == 0 {
      assert a + b == b;
    } else if |b| == 0 {
      assert a + b == a;
    } else if Once(cfg, st, a).done {
      DrainSplitDone(cfg, st, a, b);
    } else {
      var p := Once(cfg, st, a);
      DrainSplit(cfg, p.next, p.rest, b);
      DrainSplitNotDone(cfg, st, a, b);
    }
  }

  lemma DrainSplitDone(cfg: Config, st: FramerState, a: seq<bv8>, b: seq<bv8>)
    requires cfg.Valid() && Inv(cfg, st) && |a| > 0 && |b| > 0 && Once(cfg, st, a).done
    ensures Drain(cfg, st, a + b) == Then(cfg, Drain(cfg, st, a), b)
  {
    var p := Once(cfg, st, a);
    DrainStep(cfg, st, a);
    DrainStep(cfg, st, a + b);
    OnceDone(cfg, st, a, b);
    DrainStep(cfg, p.next, b);
  }

  lemma DrainSplitNotDone(cfg: Config, st: FramerState, a: seq<bv8>, b: seq<bv8>)
    requires cfg.Valid() && Inv(cfg, st) && |a| > 0 && !Once(cfg, st, a).done
    requires var p := Once(cfg, st, a);
             Drain(cfg, p.next, p.rest + b) == Then(cfg, Drain(cfg, p.next, p.rest), b)
    ensures Drain(cfg, st, a + b) == Then(cfg, Drain(cfg, st, a), b)
  {
    var p := Once(cfg, st, a);
    DrainStep(cfg, st, a);
    DrainStep(cfg, st, a + b);
    OnceNotDone(cfg, st, a, b);
    ThenAssoc(cfg, p.frames, Drain(cfg, p.next, p.rest), b);
  }

  lemma ThenAssoc(cfg: Config, fs: seq<seq<bv8>>, d: Drained, b: seq<bv8>)
    requires cfg.Valid() && Inv(cfg, d.state)
    ensures Then(cfg, Drained(d.state, fs + d.frames), b) == Drained(Then(cfg, d, b).state, fs + Then(cfg, d, b).frames)
  {
    var d2 := Drain(cfg, d.state, b);
    assert (fs + d.frames) + d2.frames == fs + (d.frames + d2.frames);
  }

  /** All the bytes of a sequence of chunks. */
  function Concat(chunks: seq<seq<bv8>>): seq<bv8>
  {
    if |chunks| == 0 then [] else chunks[0] + Concat(chunks[1..])
  }

  /** Successive run calls over a sequence of chunks. */
  function DrainAll(cfg: Config, st: FramerState, chunks: seq<seq<bv8>>): (r: Drained)
    requires cfg.Valid() && Inv(cfg, st)
    ensures Inv(cfg, r.state)
    decreases |chunks|
  {
    if |chunks| == 0 then Drained(st, [])
    else
      var d := Drain(cfg, st, chunks[0]);
      var r := DrainAll(cfg, d.state, chunks[1..]);
      Drained(r.state, d.frames + r.frames)
  }

  /** However the stream is cut into chunks, the framer writes the same
      frames and ends in the same state. */
  lemma {:induction false} ChunkingIrrelevant(cfg: Config, st: FramerState, chunks: seq<seq<bv8>>)
    requires cfg.Valid() && Inv(cfg, st)
    ensures DrainAll(cfg, st, chunks) == Drain(cfg, st, Concat(chunks))
    decreases |chunks|
  {
    if |chunks| > 0 {
      var d := Drain(cfg, st, chunks[0]);
      ChunkingIrrelevant(cfg, d.state, chunks[1..]);
      DrainSplit(cfg, st, chunks[0], Concat(chunks[1..]));
    }
  }

  // ---------------------------------------------------------------------
  // What READ ignores

  /** A READ pass depends on the buffered bits only: two READ states that
      differ in their sync offset write the same frames and end alike, up
      to that sync offset if they end in READ. */
  lemma {:induction false} ReadIgnoresSyncOffset(cfg: Config, bits: seq<bool>, x: nat, y: nat, src: seq<bv8>)
    requires cfg.Valid() && Inv(cfg, FramerState(Read, bits, x))
    ensures var r1 := Drain(cfg, FramerState(Read, bits, x), src);
            var r2 := Drain(cfg, FramerState(Read, bits, y), src);
            && r1.frames == r2.frames
            && r1.state.phase == r2.state.phase && r1.state.bits == r2.state.bits
            && (r1.state.phase == Deoffset ==> r1.state.syncOffset == r2.state.syncOffset)
  {
    if |src| > 0 {
      var s1 := FramerState(Read, bits, x);
      var s2 := FramerState(Read, bits, y);
      assert FillCount(cfg, s1, |src|) == FillCount(cfg, s2, |src|);
      var n := FillCount(cfg, s1, |src|);
      assert Fill(s1, src[..n]).bits == Fill(s2, src[..n]).bits;
      var p1 := Once(cfg, s1, src);
      var p2 := Once(cfg, s2, src);
      if !p1.done {
        assert p1 == p2;
      }
    }
  }

  /** After setInput the framer behaves as freshly initialised, whatever
      state it was in. */
  lemma SetInputForgets(cfg: Config, st: FramerState, src: seq<bv8>)
    requires cfg.Valid()
    ensures Inv(cfg, SetInput(st))
    ensures Drain(cfg, SetInput(st), src).frames == Drain(cfg, Initial(), src).frames
  {
    ReadIgnoresSyncOffset(cfg, [], st.syncOffset, 0, src);
  }

  // ---------------------------------------------------------------------
  // A frame that starts with its sync word passes through

  /** From the initial state, a frameLen-byte frame whose first syncLen
      bytes match the sync word, followed by one more byte, is written out
      unchanged; the extra byte stays buffered. */
  lemma AlignedFramePassesThrough(cfg: Config, f: seq<bv8>, x: bv8)
    requires cfg.Valid() && |f| == cfg.frameLen
    requires Search(f, cfg.frameLen, cfg.syncWord, cfg.syncLen, MaskFor(cfg)).Dist(0) == 0
    ensures Drain(cfg, Initial(), f + [x]).frames == [f]
    ensures Drain(cfg, Initial(), f + [x]).state == FramerState(Read, BytesBits([x]), 0)
  {
    var c := FramerState(Deoffset, BytesBits(f), 0);
    var r := FramerState(Read, [], 0);
    AlignedRead(cfg, f, x);
    AlignedEmit(cfg, f, x);
    AlignedKeep(cfg, x);
    DrainStep(cfg, Initial(), f + [x]);
    DrainStep(cfg, c, [x]);
    DrainStep(cfg, r, [x]);
  }

  /** READ takes the frame and finds the sync word at offset 0. */
  lemma AlignedRead(cfg: Config, f: seq<bv8>, x: bv8)
    requires cfg.Valid() && |f| == cfg.frameLen
    requires Search(f, cfg.frameLen, cfg.syncWord, cfg.syncLen, MaskFor(cfg)).Dist(0) == 0
    ensures Once(cfg, Initial(), f + [x]) == Pass(FramerState(Deoffset, BytesBits(f), 0), [x], [], false)
  {
    var fl := cfg.frameLen;
    var src := f + [x];
    var st := Initial();
    assert FillCount(cfg, st, |src|) == fl;
    assert src[..fl] == f && src[fl..] == [x];
    var st1 := Fill(st, f);
    assert st1.bits == BytesBits(f);
    assert st1.bits[..8 * fl] == st1.bits;
    PackBytesBits(f);
    var s := SearchOf(cfg, st1);
    assert s == Search(f, fl, cfg.syncWord, cfg.syncLen, MaskFor(cfg));
    CorrelateFindsEarliestBest(s, false);
  }

  /** DEOFFSET at offset 0 needs nothing more and writes the frame. */
  lemma AlignedEmit(cfg: Config, f: seq<bv8>, x: bv8)
    requires cfg.Valid() && |f| == cfg.frameLen
    ensures var c := FramerState(Deoffset, BytesBits(f), 0);
            Inv(cfg, c) && Once(cfg, c, [x]) == Pass(FramerState(Read, [], 0), [x], [f], false)
  {
    var c := FramerState(Deoffset, BytesBits(f), 0);
    assert FillCount(cfg, c, 1) == 0;
    assert [x][..0] == [] && [x][0..] == [x];
    assert BytesBits([]) == [];
    assert Fill(c, []) == c;
    var e := Emit(cfg, c);
    EmitFrame(cfg, c);
    assert BytesBits(e.frame) == BytesBits(f);
    PackBytesBits(e.frame);
    PackBytesBits(f);
  }

  /** The next byte is buffered in READ. */
  lemma AlignedKeep(cfg: Config, x: bv8)
    requires cfg.Valid()
    ensures Once(cfg, FramerState(Read, [], 0), [x]) == Pass(FramerState(Read, BytesBits([x]), 0), [], [], true)
  {
    var r := FramerState(Read, [], 0);
    assert FillCount(cfg, r, 1) == 1;
    assert [x][..1] == [x] && |[x][1..]| == 0;
  }
}
