/** The RS41 decoder's per-batch loop: every frame is descrambled, optionally
    Reed-Solomon corrected, and walked subframe by subframe; status subframes
    feed the calibration reassembly and fill the telemetry record, which is
    handed on once per frame. */
module Rs41Decoder {
  import opened Words
  import opened Rs41
  import opened Subframes
  import opened Calibration
  import Interleave
  import Descramble

  /** Where the status subframe keeps its fields, as offsets from its type
      byte, and where the calibration block keeps the burst-kill timer. */
  datatype StatusLayout = StatusLayout(
    infoType: Byte,      // type byte of a status subframe
    seqAt: nat,          // frame sequence number, 16 bits
    serialAt: nat,       // serial number characters
    serialLen: nat,
    fragSeqAt: nat,      // index of the calibration fragment, one byte
    fragDataAt: nat,     // the fragment's bytes
    burstkillAt: nat)    // burst-kill timer in the calibration block, 16 bits

  /** The telemetry record fields the status subframe fills. */
  datatype SondeData = SondeData(serial: seq<Byte>, calibrated: bool, burstkill: int, frameSeq: nat)

  /** A configuration of the decoder: frame format, calibration geometry,
      status layout, and the codeword decoder if one could be created. */
  datatype Fec = NoFec | Fec(dec: Interleave.Decoder)

  datatype Config = Config(frame: Layout, calib: Geometry, status: StatusLayout, fec: Fec)

  ghost predicate ConfigOk(cfg: Config)
  {
    && cfg.frame.Valid()
    && cfg.calib.Valid()
    && (cfg.fec.Fec? ==> Interleave.InPlace(cfg.fec.dec))
  }

  /** Either the decoder's state and record after a step, or the index of a
      calibration fragment past the end of the calibration block: the
      decoder does not range-check it and would write outside the block. */
  datatype Outcome = Ok(calib: Calib, rec: SondeData) | FragOutOfRange(index: nat)

  // ---------------------------------------------------------------------
  // One subframe
  // ---------------------------------------------------------------------

  /** The reported burst-kill value: -1 for the "disabled" timer 0xFFFF,
      otherwise the timer itself. */
  function Burstkill(timer: nat): int
  {
    if timer == 0xFFFF then -1 else timer
  }

  /** The timer can be read back from the reported value. */
  lemma BurstkillInverse(timer: nat)
    requires timer < 0x1_0000
    ensures Burstkill(timer) == -1 <==> timer == 0xFFFF
    ensures timer == if Burstkill(timer) == -1 then 0xFFFF else Burstkill(timer)
  {
  }

  /** The calibration fragment carried by the status subframe at o. */
  function FragmentAt(cfg: Config, data: seq<Byte>, o: nat): Fragment
  {
    Fragment(ByteAt(data, o + cfg.status.fragSeqAt), BytesAt(data, o + cfg.status.fragDataAt, cfg.calib.fragSize))
  }

  predicate IsStatus(cfg: Config, data: seq<Byte>, o: nat)
  {
    ByteAt(data, o) == cfg.status.infoType
  }

  /** The record as a status subframe at o leaves it, given the calibration
      state after its fragment was merged. */
  function StatusRecord(cfg: Config, c: Calib, data: seq<Byte>, o: nat): SondeData
  {
    var st := cfg.status;
    SondeData(
      BytesAt(data, o + st.serialAt, st.serialLen),
      c.calibrated,
      Burstkill(U16At(c.blob, st.burstkillAt)),
      U16At(data, o + st.seqAt))
  }

  /** updateSondeData for an accepted subframe at o. A status subframe
      merges its calibration fragment, then copies the serial number, the
      completion flag, the burst-kill value and the frame sequence number
      into the record; every other type changes nothing. */
  function UpdateSondeData(cfg: Config, c: Calib, rec: SondeData, data: seq<Byte>, o: nat): (r: Outcome)
    requires WellFormed(cfg.calib, c)
    ensures !IsStatus(cfg, data, o) ==> r == Ok(c, rec)
    ensures IsStatus(cfg, data, o) ==> (r.Ok? <==> Fits(cfg.calib, FragmentAt(cfg, data, o)))
    ensures r.Ok? && IsStatus(cfg, data, o) ==>
      && r.calib == Update(cfg.calib, c, FragmentAt(cfg, data, o))
      && r.rec.frameSeq == U16At(data, o + cfg.status.seqAt)
      && r.rec.calibrated == r.calib.calibrated
      && r.rec.serial == BytesAt(data, o + cfg.status.serialAt, cfg.status.serialLen)
      && (r.rec.burstkill == -1 <==> U16At(r.calib.blob, cfg.status.burstkillAt) == 0xFFFF)
      && (r.rec.burstkill != -1 ==> r.rec.burstkill == U16At(r.calib.blob, cfg.status.burstkillAt))
    ensures r.Ok? ==> WellFormed(cfg.calib, r.calib)
  {
    if !IsStatus(cfg, data, o) then Ok(c, rec)
    else
      var fr := FragmentAt(cfg, data, o);
      if fr.index >= cfg.calib.fragCount then FragOutOfRange(fr.index)
      else
        var c' := Update(cfg.calib, c, fr);
        Ok(c', StatusRecord(cfg, c', data, o))
  }

  // ---------------------------------------------------------------------
  // One frame
  // ---------------------------------------------------------------------

  /** The subframes at the given starts, applied in order. */
  function ApplyAll(cfg: Config, c: Calib, rec: SondeData, data: seq<Byte>, starts: seq<nat>): (r: Outcome)
    requires WellFormed(cfg.calib, c)
    ensures r.Ok? ==> WellFormed(cfg.calib, r.calib)
    decreases |starts|
  {
    if |starts| == 0 then Ok(c, rec)
    else
      match UpdateSondeData(cfg, c, rec, data, starts[0])
      case FragOutOfRange(i) => FragOutOfRange(i)
      case Ok(c1, r1) => ApplyAll(cfg, c1, r1, data, starts[1..])
  }

  /** The calibration fragments of the status subframes among the starts. */
  function StatusFragments(cfg: Config, data: seq<Byte>, starts: seq<nat>): seq<Fragment>
    decreases |starts|
  {
    if |starts| == 0 then []
    else
      (if IsStatus(cfg, data, starts[0]) then [FragmentAt(cfg, data, starts[0])] else [])
      + StatusFragments(cfg, data, starts[1..])
  }

  lemma AllFitSplit(g: Geometry, a: seq<Fragment>, b: seq<Fragment>)
    ensures AllFit(g, a + b) <==> AllFit(g, a) && AllFit(g, b)
  {
    if AllFit(g, a) && AllFit(g, b) {
      forall i | 0 <= i < |a + b|
        ensures Fits(g, (a + b)[i])
      {
        if i >= |a| {
          assert (a + b)[i] == b[i - |a|];
        }
      }
    }
    if AllFit(g, a + b) {
      forall i | 0 <= i < |a|
        ensures Fits(g, a[i])
      {
        assert (a + b)[i] == a[i];
      }
      forall i | 0 <= i < |b|
        ensures Fits(g, b[i])
      {
        assert (a + b)[|a| + i] == b[i];
      }
    }
  }

  /** Applying the subframes of a frame merges exactly the fragments of its
      status subframes, in order, into the calibration state; it goes wrong
      exactly when one of those fragments is out of range. */
  lemma {:induction false} ApplyAllReceives(cfg: Config, c: Calib, rec: SondeData, data: seq<Byte>, starts: seq<nat>)
    requires WellFormed(cfg.calib, c)
    ensures ApplyAll(cfg, c, rec, data, starts).Ok? <==> AllFit(cfg.calib, StatusFragments(cfg, data, starts))
    ensures ApplyAll(cfg, c, rec, data, starts).Ok? ==>
      ApplyAll(cfg, c, rec, data, starts).calib == Receive(cfg.calib, c, StatusFragments(cfg, data, starts))
    decreases |starts|
  {
    if |starts| > 0 {
      var g, o := cfg.calib, starts[0];
      var tail := StatusFragments(cfg, data, starts[1..]);
      var u := UpdateSondeData(cfg, c, rec, data, o);
      if IsStatus(cfg, data, o) {
        var fr := FragmentAt(cfg, data, o);
        assert StatusFragments(cfg, data, starts) == [fr] + tail;
        AllFitSplit(g, [fr], tail);
        assert AllFit(g, [fr]) <==> Fits(g, fr) by {
          assert [fr][0] == fr;
        }
        if u.Ok? {
          ApplyAllReceives(cfg, u.calib, u.rec, data, starts[1..]);
          assert ([fr] + tail)[0] == fr && ([fr] + tail)[1..] == tail;
        }
      } else {
        assert StatusFragments(cfg, data, starts) == tail;
        ApplyAllReceives(cfg, c, rec, data, starts[1..]);
      }
    }
  }

  /** A frame whose accepted subframes include a status subframe overwrites
      every field of the record, so the record handed in does not matter;
      a frame without one leaves the record as it was. */
  lemma {:induction false} ApplyAllRecord(cfg: Config, c: Calib, rec: SondeData, rec': SondeData, data: seq<Byte>, starts: seq<nat>)
    requires WellFormed(cfg.calib, c)
    ensures var r := ApplyAll(cfg, c, rec, data, starts);
      var r' := ApplyAll(cfg, c, rec', data, starts);
      && (r.Ok? <==> r'.Ok?)
      && (r.Ok? && |StatusFragments(cfg, data, starts)| > 0 ==> r.rec == r'.rec)
      && (r.Ok? && |StatusFragments(cfg, data, starts)| == 0 ==> r.rec == rec)
    decreases |starts|
  {
    if |starts| > 0 {
      var o := starts[0];
      var u := UpdateSondeData(cfg, c, rec, data, o);
      var u' := UpdateSondeData(cfg, c, rec', data, o);
      if u.Ok? {
        ApplyAllRecord(cfg, u.calib, u.rec, u'.rec, data, starts[1..]);
        if IsStatus(cfg, data, o) {
          var r := ApplyAll(cfg, u.calib, u.rec, data, starts[1..]);
          if r.Ok? && |StatusFragments(cfg, data, starts[1..])| == 0 {
            ApplyAllRecord(cfg, u.calib, u.rec, u.rec, data, starts[1..]);
          }
        }
      }
    }
  }

  /** The descrambled frame as bytes. */
  function ToBytes(s: seq<bv8>): (r: seq<Byte>)
    ensures |r| == |s|
    ensures forall i :: 0 <= i < |s| ==> r[i] == s[i] as int
  {
    seq(|s|, i requires 0 <= i < |s| => s[i] as int)
  }

  /** The frame after descrambling and, when a codeword decoder exists,
      Reed-Solomon correction; whether correction succeeded is not used. */
  function Corrected(cfg: Config, raw: seq<bv8>): (frame: seq<Byte>)
    requires ConfigOk(cfg) && |raw| == cfg.frame.frameLen
    ensures cfg.frame.IsFrame(frame)
  {
    var frame := ToBytes(Descramble.Descrambled(raw));
    match cfg.fec
    case NoFec => frame
    case Fec(dec) => Interleave.RsCorrect(cfg.frame, dec, frame).frame
  }

  /** The start offsets of the subframes accepted in a corrected frame:
      the data region is walked up to the mode's byte count. */
  function AcceptedStarts(cfg: Config, frame: seq<Byte>): seq<nat>
    requires cfg.frame.Valid() && cfg.frame.IsFrame(frame)
  {
    Walk(cfg.frame.Data(frame), cfg.frame.BytesLeft(frame), 0)
  }

  /** One iteration of the frame loop in run. */
  function DecodeFrame(cfg: Config, c: Calib, rec: SondeData, raw: seq<bv8>): (r: Outcome)
    requires ConfigOk(cfg) && WellFormed(cfg.calib, c) && |raw| == cfg.frame.frameLen
    ensures r.Ok? ==> WellFormed(cfg.calib, r.calib)
  {
    var frame := Corrected(cfg, raw);
    ApplyAll(cfg, c, rec, cfg.frame.Data(frame), AcceptedStarts(cfg, frame))
  }

  /** The calibration fragments a frame delivers. */
  function FrameFragments(cfg: Config, raw: seq<bv8>): seq<Fragment>
    requires ConfigOk(cfg) && |raw| == cfg.frame.frameLen
  {
    var frame := Corrected(cfg, raw);
    StatusFragments(cfg, cfg.frame.Data(frame), AcceptedStarts(cfg, frame))
  }

  /** A frame without an accepted status subframe changes neither the
      calibration state nor the record: the record handed on for it is the
      one the previous frame left. */
  lemma FrameWithoutStatusKeepsRecord(cfg: Config, c: Calib, rec: SondeData, raw: seq<bv8>)
    requires ConfigOk(cfg) && WellFormed(cfg.calib, c) && |raw| == cfg.frame.frameLen
    requires FrameFragments(cfg, raw) == []
    ensures DecodeFrame(cfg, c, rec, raw) == Ok(c, rec)
  {
    var frame := Corrected(cfg, raw);
    var data := cfg.frame.Data(frame);
    var starts := AcceptedStarts(cfg, frame);
    ApplyAllReceives(cfg, c, rec, data, starts);
    ApplyAllRecord(cfg, c, rec, rec, data, starts);
  }

  // ---------------------------------------------------------------------
  // A batch of frames
  // ---------------------------------------------------------------------

  /** The record handed to the handler after each frame, and the state the
      batch leaves behind; or an out-of-range fragment. */
  datatype Batch = Batch(snapshots: seq<SondeData>, calib: Calib) | BatchFragOutOfRange(index: nat)

  /** The frame loop over a read buffer: whole frames from the front, a
      trailing partial frame ignored; the one record of the call is carried
      from frame to frame. */
  function Frames(cfg: Config, c: Calib, rec: SondeData, buf: seq<bv8>): (r: Batch)
    requires ConfigOk(cfg) && WellFormed(cfg.calib, c)
    ensures r.Batch? ==> WellFormed(cfg.calib, r.calib)
    decreases |buf|
  {
    var fl := cfg.frame.frameLen;
    if |buf| < fl then Batch([], c)
    else
      match DecodeFrame(cfg, c, rec, buf[..fl])
      case FragOutOfRange(i) => BatchFragOutOfRange(i)
      case Ok(c1, r1) =>
        match Frames(cfg, c1, r1, buf[fl..])
        case BatchFragOutOfRange(i) => BatchFragOutOfRange(i)
        case Batch(ss, c2) => Batch([r1] + ss, c2)
  }

  /** What the read returned: an error, or a buffer of bytes. */
  datatype Input = ReadError | Read(buf: seq<bv8>)

  /** The result of run: the return value (-1 on a read error, otherwise
      the number of frames handed on), the handed-on records and the
      decoder's calibration state afterwards. */
  datatype RunResult = RunResult(ret: int, snapshots: seq<SondeData>, calib: Calib) | RunFragOutOfRange(index: nat)

  function Run(cfg: Config, c: Calib, rec: SondeData, input: Input): (r: RunResult)
    requires ConfigOk(cfg) && WellFormed(cfg.calib, c)
    ensures r.RunResult? ==> WellFormed(cfg.calib, r.calib)
    ensures input.ReadError? ==> r == RunResult(-1, [], c)
    ensures r.RunResult? && input.Read? ==>
      r.ret == |r.snapshots| == |input.buf| / cfg.frame.frameLen
  {
    match input
    case ReadError => RunResult(-1, [], c)
    case Read(buf) =>
      FramesCount(cfg, c, rec, buf);
      match Frames(cfg, c, rec, buf)
      case BatchFragOutOfRange(i) => RunFragOutOfRange(i)
      case Batch(ss, c') => RunResult(|ss|, ss, c')
  }

  lemma DivStep(x: nat, d: nat)
    requires d >= 1
    ensures x < d ==> x / d == 0
    ensures x >= d ==> x / d == 1 + (x - d) / d
  {
    if x < d {
      DivModUnique(x, d, 0, x);
    } else {
      var q, r := (x - d) / d, (x - d) % d;
      assert x == d * (q + 1) + r;
      DivModUnique(x, d, q + 1, r);
    }
  }

  /** One record is handed on per whole frame in the buffer. */
  lemma {:induction false} FramesCount(cfg: Config, c: Calib, rec: SondeData, buf: seq<bv8>)
    requires ConfigOk(cfg) && WellFormed(cfg.calib, c)
    ensures Frames(cfg, c, rec, buf).Batch? ==> |Frames(cfg, c, rec, buf).snapshots| == |buf| / cfg.frame.frameLen
    decreases |buf|
  {
    var fl := cfg.frame.frameLen;
    DivStep(|buf|, fl);
    if |buf| >= fl {
      var d := DecodeFrame(cfg, c, rec, buf[..fl]);
      if d.Ok? {
        FramesCount(cfg, d.calib, d.rec, buf[fl..]);
      }
    }
  }

  /** The calibration fragments of every whole frame in the buffer, in
      order. */
  function BufferFragments(cfg: Config, buf: seq<bv8>): seq<Fragment>
    requires ConfigOk(cfg)
    decreases |buf|
  {
    var fl := cfg.frame.frameLen;
    if |buf| < fl then [] else FrameFragments(cfg, buf[..fl]) + BufferFragments(cfg, buf[fl..])
  }

  lemma {:induction false} ReceiveSplit(g: Geometry, c: Calib, a: seq<Fragment>, b: seq<Fragment>)
    requires WellFormed(g, c) && AllFit(g, a) && AllFit(g, b)
    ensures AllFit(g, a + b)
    ensures Receive(g, c, a + b) == Receive(g, Receive(g, c, a), b)
    decreases |a|
  {
    AllFitSplit(g, a, b);
    if |a| > 0 {
      assert (a + b)[1..] == a[1..] + b;
      ReceiveSplit(g, Update(g, c, a[0]), a[1..], b);
    } else {
      assert a + b == b;
    }
  }

  /** Across a batch the calibration state receives the fragments of every
      accepted status subframe of every frame, in order; the batch goes
      wrong exactly when one of them is out of range. */
  lemma {:induction false} FramesReceive(cfg: Config, c: Calib, rec: SondeData, buf: seq<bv8>)
    requires ConfigOk(cfg) && WellFormed(cfg.calib, c)
    ensures Frames(cfg, c, rec, buf).Batch? <==> AllFit(cfg.calib, BufferFragments(cfg, buf))
    ensures Frames(cfg, c, rec, buf).Batch? ==>
      Frames(cfg, c, rec, buf).calib == Receive(cfg.calib, c, BufferFragments(cfg, buf))
    decreases |buf|
  {
    var fl := cfg.frame.frameLen;
    if |buf| >= fl {
      var raw := buf[..fl];
      var frame := Corrected(cfg, raw);
      ApplyAllReceives(cfg, c, rec, cfg.frame.Data(frame), AcceptedStarts(cfg, frame));
      var a := FrameFragments(cfg, raw);
      var b := BufferFragments(cfg, buf[fl..]);
      AllFitSplit(cfg.calib, a, b);
      var d := DecodeFrame(cfg, c, rec, raw);
      if d.Ok? {
        FramesReceive(cfg, d.calib, d.rec, buf[fl..]);
        if AllFit(cfg.calib, b) {
          ReceiveSplit(cfg.calib, c, a, b);
        }
      }
    }
  }

  /** From a decoder initialised with the intended bitmap, a batch completes
      the calibration exactly when its accepted status subframes, over all
      its frames, deliver every fragment. */
  lemma FreshRunCalibrated(cfg: Config, blob: seq<Byte>, rec: SondeData, buf: seq<bv8>)
    requires ConfigOk(cfg) && |blob| == cfg.calib.BlobLen()
    ensures var r := Run(cfg, Start(cfg.calib, blob), rec, Read(buf));
      r.RunResult? ==>
        (r.calib.calibrated <==> forall f: nat :: f < cfg.calib.fragCount ==> Delivered(BufferFragments(cfg, buf), f))
  {
    var c := Start(cfg.calib, blob);
    FramesReceive(cfg, c, rec, buf);
    if AllFit(cfg.calib, BufferFragments(cfg, buf)) {
      CompleteIffAllDelivered(cfg.calib, blob, BufferFragments(cfg, buf));
    }
  }

  /** From a decoder initialised as init actually does, with F not a
      multiple of 8, no batch completes the calibration. */
  lemma FreshRunAsWrittenNeverCalibrated(cfg: Config, blob: seq<Byte>, rec: SondeData, buf: seq<bv8>)
    requires ConfigOk(cfg) && |blob| == cfg.calib.BlobLen()
    requires cfg.calib.fragCount % 8 != 0
    ensures var r := Run(cfg, StartAsWritten(cfg.calib, blob), rec, Read(buf));
      r.RunResult? ==> r.ret >= 0 && !r.calib.calibrated
  {
    var c := StartAsWritten(cfg.calib, blob);
    FramesReceive(cfg, c, rec, buf);
    if AllFit(cfg.calib, BufferFragments(cfg, buf)) {
      AsWrittenNeverCompletes(cfg.calib, blob, BufferFragments(cfg, buf));
    }
  }

  /** The completion flag's starting value is not set by init. From the
      bitmap init builds, with F not a multiple of 8, a batch hands on the
      flag it started with, whatever that was. */
  lemma AsWrittenRunKeepsFlag(cfg: Config, blob: seq<Byte>, flag: bool, rec: SondeData, buf: seq<bv8>)
    requires ConfigOk(cfg) && |blob| == cfg.calib.BlobLen()
    requires cfg.calib.fragCount % 8 != 0
    ensures WellFormed(cfg.calib, Calib(blob, InitBitmapAsWritten(cfg.calib), flag))
    ensures var r := Run(cfg, Calib(blob, InitBitmapAsWritten(cfg.calib), flag), rec, Read(buf));
      r.RunResult? ==> r.ret >= 0 && r.calib.calibrated == flag
  {
    var frs := BufferFragments(cfg, buf);
    AsWrittenKeepsFlag(cfg.calib, blob, flag, []);
    var c := Calib(blob, InitBitmapAsWritten(cfg.calib), flag);
    FramesReceive(cfg, c, rec, buf);
    if AllFit(cfg.calib, frs) {
      AsWrittenKeepsFlag(cfg.calib, blob, flag, frs);
    }
  }
}
