/** The RS41 frame format as byte offsets into one flat frame. The numeric
    values of the format constants are not part of this model: they are the
    fields of a Layout, constrained only by what the decoder needs of them. */
module Rs41 {
  import opened Words

  datatype Layout = Layout(
    frameLen: nat,       // bytes per frame
    parityAt: nat,       // first Reed-Solomon parity byte
    flagAt: nat,         // the extended-data flag byte
    dataAt: nat,         // first data byte
    dataLen: nat,        // data bytes of a normal frame
    xdataLen: nat,       // further data bytes of an extended frame
    interleaving: nat,   // Reed-Solomon codewords per frame
    n: nat,              // codeword length
    k: nat,              // message symbols per codeword
    t: nat,              // parity symbols per codeword
    flagExtended: Byte)   // flag value that marks an extended frame
  {
    predicate Valid()
    {
      && dataAt >= 1
      && interleaving >= 1
      && k + t == n
      && (dataLen + 1) / interleaving <= k
      && parityAt + Mul(t, interleaving) <= dataAt - 1
      && dataAt - 1 + Mul(interleaving, k) <= frameLen
      && flagAt < frameLen
      && dataAt + dataLen + xdataLen <= frameLen
    }

    predicate IsFrame(frame: seq<Byte>)
    {
      |frame| == frameLen
    }

    /** Whether the frame carries extended data. */
    predicate Extended(frame: seq<Byte>)
      requires Valid() && IsFrame(frame)
    {
      frame[flagAt] == flagExtended
    }

    /** Bytes of the data region the subframe walk may use. */
    function BytesLeft(frame: seq<Byte>): (r: nat)
      requires Valid() && IsFrame(frame)
      ensures r <= frameLen - dataAt
    {
      dataLen + (if Extended(frame) then xdataLen else 0)
    }

    /** Data symbols per codeword: the normal frame's data spread over the
        interleaved codewords, or the full message length when extended. */
    function ChunkLen(frame: seq<Byte>): (r: nat)
      requires Valid() && IsFrame(frame)
      ensures r <= k
    {
      if !Extended(frame) then (dataLen + 1) / interleaving else k
    }

    /** The data region, from the first data byte to the end of the frame. */
    function Data(frame: seq<Byte>): (d: seq<Byte>)
      requires Valid() && IsFrame(frame)
      ensures |d| == frameLen - dataAt
      ensures forall i :: 0 <= i < |d| ==> d[i] == frame[dataAt + i]
    {
      frame[dataAt..]
    }
  }

  /** The byte at `i`, or 0 past the end: fixed-size struct fields read past
      a short buffer. */
  function ByteAt(s: seq<Byte>, i: nat): Byte
  {
    if i < |s| then s[i] else 0
  }

  /** A little-endian 16-bit field. */
  function U16At(s: seq<Byte>, i: nat): (v: nat)
    ensures v < 0x1_0000
  {
    ByteAt(s, i) + 0x100 * ByteAt(s, i + 1)
  }

  /** Bytes [i, i + len) of `s`, reading 0 past the end. */
  function BytesAt(s: seq<Byte>, i: nat, len: nat): (r: seq<Byte>)
    ensures |r| == len
    ensures forall j :: 0 <= j < len ==> r[j] == ByteAt(s, i + j)
  {
    seq<Byte>(len, j requires 0 <= j < len => ByteAt(s, i + j))
  }
}
