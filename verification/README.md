# RS41 radiosonde framer and frame decoder, modelled in Dafny

This project models the two byte-level stages of an RS41 radiosonde receiver.

1. **The bit framer.** It accepts a byte stream cut into arbitrary chunks. It searches each buffered frame for the 64-bit
   sync word at every bit offset, in both polarities, using Hamming distance. It then writes out `frameLen`-byte
   frames realigned to the best offset. It is a two-state machine (READ, DEOFFSET) that persists between calls.
2. **The RS41 frame decoder.** Each frame is processed in five steps:
   - The frame is descrambled: bit-reversal, then xor with 0xFF and with a 64-byte pseudorandom sequence.
   - Its interleaved Reed–Solomon codewords are gathered, corrected and written back.
   - Its data region is walked as a chain of length-prefixed subframes.
   - Each subframe is gated by a CRC-16.
   - Status subframes feed a calibration reassembly. That is a fragment bitmap that persists across frames. They
     also fill the telemetry record, which is handed on once per frame.

Modules:

| file | module | models |
|---|---|---|
| `words.dfy` | `Words` | unsigned words as naturals; bitwise xor/and/popcount defined bit by bit; `Mul` |
| `correlation.dfy` | `Correlation` | `inverseCorrelateU64` and `correlateU64` |
| `framer.dfy` | `Framer` | the READ/DEOFFSET state machine, `run` and `setInput` |
| `descramble.dfy` | `Descramble` | the pseudorandom table and `descramble` |
| `rs41.dfy` | `Rs41` | the frame format as a `Layout` record; byte readers |
| `interleave.dfy` | `Interleave` | the index arithmetic of `rsCorrect` around an abstract codeword decoder |
| `crc16.dfy` | `Crc16` | CRC-16/CCITT-FALSE and its error-detection facts |
| `subframes.dfy` | `Subframes` | the subframe walk in `run` and `crcCheck` |
| `calibration.dfy` | `Calibration` | `updateCalibData` and the bitmap initialisation in `init` |
| `decoder.dfy` | `Rs41Decoder` | `updateSondeData` and the frame loop of `run` |

The numeric values of the RS41 format constants live in `rs41.h`, which is not part of this model. These constants
are the frame length, the offsets, `DATA_LEN`, `XDATA_LEN`, `INTERLEAVING`, `N`, `K`, `T`, `FRAGCOUNT`, `FRAGSIZE`,
the subframe type codes and the status subframe layout. They are fields of the `Rs41.Layout`,
`Calibration.Geometry` and `Rs41Decoder.StatusLayout` records. Every statement is proved for all values that meet the
records' `Valid` predicates.

The telemetry record is carried from frame to frame: `run` declares one record per call (decoder.cpp:73) and hands the
same record to the handler after every frame. `Rs41Decoder.FrameWithoutStatusKeepsRecord` shows that a frame without
a status subframe hands on the previous record unchanged.

## Model

| member | source | states |
|---|---|---|
| Correlation.HammingDistance | src/decode/framer.cpp:196-208 | the distance of two 64-bit words is at most 64, is 0 exactly when they are equal, and is symmetric |
| Correlation.InverseCorrelateU64 | src/decode/framer.cpp:196-208 | the bit-twiddling loop `v &= v - 1` returns the popcount of `x ^ y` |
| Correlation.BitsByte | src/decode/framer.cpp:150-152 | reading a whole byte shifts it into the value as `window << 8 \| byte` |
| Correlation.FillWindow | src/decode/framer.cpp:149-152 | after the fill loop the window holds the first syncLen bytes of the frame, truncated to 64 bits |
| Correlation.WindowAt | src/decode/framer.cpp:162-185 | the window the loop holds before bit j of byte syncLen + i is the search's window at offset 8i + j, and 8i + j does not pass the last offset; which frame bits that window holds is stated by Correlation.WindowBits |
| Correlation.WindowBits | src/decode/framer.cpp:149-167 | the window ranked at offset k is the number spelled by the last (at most) 64 of the first 8*syncLen + k frame bits; for an 8-byte sync word, frame bits k .. k+63 |
| Correlation.AsWrittenMaskComparesOneBit | src/decode/framer.cpp:144 | with the mask as written and syncLen < 8, any two masked words are at distance at most 1 |
| Correlation.AsWrittenMaskMissesMismatch | src/decode/framer.cpp:144-145 | with the mask as written, the sync word 0 and the window 1 differ in their low sync bits but are scored distance 0 |
| Correlation.SyncMaskMatchesSyncBits | src/decode/framer.cpp:144-145 | with the intended mask, the masked distance is 0 exactly when the low 8*syncLen bits agree |
| Correlation.ScanKeepsLeading | src/decode/framer.cpp:162-188 | after k offsets, the best so far is the earliest offset of minimal score among them |
| Correlation.ScanFindsEarliestBest | src/decode/framer.cpp:162-188 | the scan returns the earliest offset whose better-polarity distance is minimal, and the polarity that achieved it; the normal check wins ties |
| Correlation.CorrelateFindsEarliestBest | src/decode/framer.cpp:139-191 | a perfect match at offset 0 returns 0 and leaves the flag untouched; otherwise the result attains the minimum of min(d, 8*syncLen - d) over the visited offsets and is the earliest offset that does |
| Correlation.DistsAreLoopDists | src/decode/framer.cpp:162-186 | the distances ranked by the search are the ones the loop computes from its shifting window |
| Correlation.CheckOffset | src/decode/framer.cpp:168-182 | the normal check and then the inverted check at one offset are one step of the reference scan |
| Correlation.ScanBit | src/decode/framer.cpp:166-185 | one inner-loop pass advances the window by one bit and the best-so-far by one offset |
| Correlation.ScanByte | src/decode/framer.cpp:162-186 | the eight inner passes over one byte advance the window by that byte and the scan by eight offsets |
| Correlation.ScanBytes | src/decode/framer.cpp:161-188 | the outer loop computes the reference scan over all visited offsets |
| Correlation.CorrelateU64 | src/decode/framer.cpp:139-191 | the method returns the same offset and flag as the reference search `Correlate`, whose result Correlation.CorrelateFindsEarliestBest characterises as the earliest best-scoring offset |
| Framer.CorrelateOffsetInRange | src/decode/framer.cpp:154-174 | the returned offset is 0 or lies below 8*(len - syncLen) |
| Framer.FillCount | src/decode/framer.cpp:64-103 | READ and DEOFFSET copy either all input or exactly enough to complete the frame, and every copy stays inside the 2*frameLen buffer |
| Framer.Fill | src/decode/framer.cpp:70-77 | copying n bytes advances the bit cursor by 8n and changes neither the phase nor the sync offset |
| Framer.FillStep | src/decode/framer.cpp:67-110 | one copy step keeps the state invariant and completes the frame unless it uses up the input |
| Framer.Correlated | src/decode/framer.cpp:87-89 | correlation runs on a complete READ buffer, stores the offset of the search with the mask as written at framer.cpp:144, and switches to DEOFFSET |
| Framer.Emit | src/decode/framer.cpp:112-122 | an emission writes exactly frameLen bytes, returns to READ and keeps syncOffset % 8 bits |
| Framer.EmitFrame | src/decode/framer.cpp:113-116 | the frame written is the 8*frameLen buffered bits starting at the sync offset |
| Framer.SearchWindowBits | src/decode/framer.cpp:87-89 | with an 8-byte sync word, the window ranked at offset k is buffered bits k .. k+63 |
| Framer.EmittedFrameStartsWithWindow | src/decode/framer.cpp:87-116 | with an 8-byte sync word, the first 64 bits of the frame written for sync offset k are the window the search ranked at offset k |
| Framer.EmitRetains | src/decode/framer.cpp:118-121 | the bits kept after an emission are the syncOffset % 8 bits starting at twice the sync offset |
| Framer.After | src/decode/framer.cpp:80-123 | a pass stops exactly when the chunk is used up; otherwise it correlates or emits and makes progress |
| Framer.Once | src/decode/framer.cpp:64-123 | one pass of the loop keeps the invariant, writes whole frames and makes progress |
| Framer.Drain | src/decode/framer.cpp:64-130 | the loop over a chunk keeps the invariant and writes only frameLen-byte frames |
| Framer.Output | src/decode/framer.cpp:112-116 | the bytes written for a chunk are a multiple of frameLen |
| Framer.Run | src/decode/framer.cpp:52-135 | a read error or a failed swap after output returns -1; otherwise run returns the number of bytes written, which is a multiple of frameLen |
| Framer.SetInput | src/decode/framer.cpp:40-50 | setInput returns to READ with an empty buffer |
| Framer.DrainSplit | src/decode/framer.cpp:64-130 | splitting a chunk anywhere gives the same frames and final state as handling it at once |
| Framer.ChunkingIrrelevant | src/decode/framer.cpp:52-135 | however the stream is cut into chunks, the framer writes the same frames and ends in the same state |
| Framer.ReadIgnoresSyncOffset | src/decode/framer.cpp:67-89 | a READ pass depends only on the buffered bits, not on the stale sync offset |
| Framer.SetInputForgets | src/decode/framer.cpp:46-47 | after setInput the framer writes what a freshly initialised framer writes |
| Framer.AlignedFramePassesThrough | src/decode/framer.cpp:52-135 | from the initial state, a frame whose sync word sits at offset 0 is written out unchanged |
| Descramble.Reverse8Involution | src/decode/rs41/decoder.cpp:126-129 | reversing the bits of a byte twice gives the byte back |
| Descramble.ReverseByte | src/decode/rs41/decoder.cpp:126-129 | the shift-and-or loop computes the bit reversal of the byte |
| Descramble.ByteRoundTrips | src/decode/rs41/decoder.cpp:130 | descrambling a byte and scrambling it are inverse to each other |
| Descramble.DescrambleScrambled | src/decode/rs41/decoder.cpp:125-131 | descrambling undoes scrambling for every frame |
| Descramble.ScrambleDescrambled | src/decode/rs41/decoder.cpp:125-131 | scrambling undoes descrambling, so descrambling loses no information |
| Descramble.Descramble | src/decode/rs41/decoder.cpp:117-132 | the loop keeps the length and sets byte i to `0xFF ^ reverse8(in[i]) ^ prn[i % 64]` |
| Rs41.Layout.BytesLeft | src/decode/rs41/decoder.cpp:92 | the walk's byte budget is `DATA_LEN` or `DATA_LEN + XDATA_LEN` by the extended flag; that it fits the data region is a bound `Layout.Valid` assumes from the frame format, not one derived here |
| Rs41.Layout.ChunkLen | src/decode/rs41/decoder.cpp:141-146 | the data symbols per codeword are `(DATA_LEN+1)/INTERLEAVING` or `K` by the extended flag; that they do not exceed K is a bound `Layout.Valid` assumes, not one derived here |
| Interleave.DataPos | src/decode/rs41/decoder.cpp:152 | data symbol i of codeword b sits at `INTERLEAVING*i + b - 1` in the data region, inside the frame |
| Interleave.ParityPos | src/decode/rs41/decoder.cpp:155 | parity symbol i of codeword b sits inside codeword b's own run of T parity bytes, before the data region |
| Interleave.DataPosSlot | src/decode/rs41/decoder.cpp:152 | the codeword and symbol can be recovered from a data position |
| Interleave.DataPosInjective | src/decode/rs41/decoder.cpp:152 | two data positions coincide exactly when codeword and symbol agree |
| Interleave.ParityPosInjective | src/decode/rs41/decoder.cpp:155 | two parity positions coincide exactly when codeword and symbol agree |
| Interleave.ReinterleaveDeinterleaved | src/decode/rs41/decoder.cpp:150-167 | writing back an unchanged block leaves the frame unchanged |
| Interleave.DeinterleaveLoops | src/decode/rs41/decoder.cpp:151-156 | the two gather loops build the deinterleaved block |
| Interleave.ReinterleaveLoops | src/decode/rs41/decoder.cpp:162-167 | the two scatter loops write the block back to its own positions |
| Interleave.BlocksValid | src/decode/rs41/decoder.cpp:148-170 | after the loop over codewords, the flag is true exactly when no decode returned a negative status |
| Interleave.RsCorrectValid | src/decode/rs41/decoder.cpp:134-171 | rsCorrect returns false exactly when some codeword's decode returned a negative status |
| Interleave.RsCorrectSlots | src/decode/rs41/decoder.cpp:148-167 | each codeword is decoded from the received bytes at its own positions, and those positions end up holding the decoder's output |
| Interleave.RsCorrectKeepsRest | src/decode/rs41/decoder.cpp:148-167 | bytes outside every codeword's data and parity positions are unchanged |
| Interleave.RsCorrectIdentity | src/decode/rs41/decoder.cpp:148-167 | with a decoder that changes nothing, the frame is unchanged |
| Interleave.RsCorrectExtendedIgnoresBuffer | src/decode/rs41/decoder.cpp:141-146 | in extended mode the unzeroed block buffer cannot influence the result |
| Crc16.CrcBound | src/decode/rs41/decoder.cpp:176 | the CRC register stays within 16 bits |
| Crc16.CrcInjective | src/decode/rs41/decoder.cpp:176 | two registers that end equal after the same data were equal |
| Crc16.CrcSplit | src/decode/rs41/decoder.cpp:176 | the CRC of a concatenation is the CRC of the second part started from the CRC of the first |
| Crc16.SingleByteErrorDetected | src/decode/rs41/decoder.cpp:173-180 | two equally long messages that differ in exactly one byte have different CRCs |
| Subframes.End | src/decode/rs41/decoder.cpp:95 | every step advances the offset by at least 4, so the walk terminates |
| Subframes.StoredCrcAt | src/decode/rs41/decoder.cpp:177 | the stored checksum is the little-endian 16-bit value after the payload |
| Subframes.WalkAccepts | src/decode/rs41/decoder.cpp:93-105 | every subframe handed on starts and ends inside the byte budget, passes its CRC check, and none overlaps the next |
| Subframes.WalkLoop | src/decode/rs41/decoder.cpp:92-106 | the while loop with its break on overrun and continue on a bad CRC hands on the subframes of the reference walk, each within bounds and CRC-valid |
| Subframes.WalkIsItems | src/decode/rs41/decoder.cpp:93-106 | the offset walk reads the same subframes as the reference reading of the region as self-delimiting records, so a rejected subframe is skipped and later ones are still read |
| Subframes.WalkLocal | src/decode/rs41/decoder.cpp:93-99 | the walk never depends on bytes beyond the byte budget |
| Subframes.SealRead | src/decode/rs41/decoder.cpp:176-179 | a subframe laid out with its header and little-endian CRC is read back whole and passes the check |
| Subframes.ItemsSealAll | src/decode/rs41/decoder.cpp:93-106 | reading back a region built from subframes gives those subframes |
| Subframes.WalkSealAll | src/decode/rs41/decoder.cpp:93-106 | the decoder's walk over a region built from subframes hands on every one of them, in order |
| Subframes.CorruptPayloadRejected | src/decode/rs41/decoder.cpp:176-179 | changing any one payload byte of a valid subframe makes the check fail |
| Subframes.KindUnprotected | src/decode/rs41/decoder.cpp:176-179 | changing the type byte is not detected, because the CRC covers the payload only |
| Calibration.ClearFragExact | src/decode/rs41/decoder.cpp:243 | clearing fragment f's bit clears exactly bit f % 8 of byte f / 8 and leaves every other fragment's bit |
| Calibration.AllClearIffNonePending | src/decode/rs41/decoder.cpp:246-249 | the bitmap bytes are all zero exactly when no fragment is marked missing |
| Calibration.InitBitmapPending | src/decode/rs41/decoder.cpp:52-53 | the intended initial bitmap marks exactly fragments 0 .. FRAGCOUNT-1 missing |
| Calibration.AsWrittenPadding | src/decode/rs41/decoder.cpp:53 | when FRAGCOUNT is not a multiple of 8, the bitmap as init builds it marks padding bit 7 of its last byte, which no fragment owns |
| Calibration.Start | src/decode/rs41/decoder.cpp:52-53 | a fresh decoder with the intended bitmap has a fragment missing; its completion flag is taken to start false, which init does not set |
| Calibration.StartAsWritten | src/decode/rs41/decoder.cpp:52-53 | a fresh decoder with the bitmap as written has a bit set; its completion flag is taken to start false, which init does not set |
| Calibration.AsWrittenKeepsFlag | src/decode/rs41/decoder.cpp:52-53 | from the bitmap as written and F not a multiple of 8, receiving in-range fragments leaves the completion flag at whatever value it started with |
| Calibration.Update | src/decode/rs41/decoder.cpp:240-249 | after an update the state is calibrated exactly when it was before or the bitmap is now all zero |
| Calibration.UpdateSlots | src/decode/rs41/decoder.cpp:241-242 | the fragment's slot of the calibration block holds its data, and every other slot is unchanged |
| Calibration.UpdatePending | src/decode/rs41/decoder.cpp:243 | after an update, exactly the fragments missing before, minus this one, are missing |
| Calibration.UpdateIdempotent | src/decode/rs41/decoder.cpp:240-249 | receiving the same fragment twice gives the same state as receiving it once |
| Calibration.ReceivePending | src/decode/rs41/decoder.cpp:243 | after a stream of fragments, a fragment is missing exactly when it was missing before and the stream does not carry it |
| Calibration.ReceiveCalibrated | src/decode/rs41/decoder.cpp:245-249 | the completion flag is never reset, and after a stream it is up exactly when it was up before or the bitmap ends all zero |
| Calibration.ReceiveOrderIndependent | src/decode/rs41/decoder.cpp:240-249 | two streams carrying the same fragment indices, in any order and with any repeats, give the same bitmap and completion flag |
| Calibration.CompleteIffAllDelivered | src/decode/rs41/decoder.cpp:240-249 | with the intended bitmap, calibration completes exactly when every fragment 0 .. FRAGCOUNT-1 has arrived |
| Calibration.AsWrittenNeverCompletes | src/decode/rs41/decoder.cpp:52-53 | with the bitmap as written and FRAGCOUNT not a multiple of 8, no stream of in-range fragments completes calibration |
| Calibration.AsWrittenInitPending | src/decode/rs41/decoder.cpp:52-53 | the bitmap as init builds it marks every bit missing except bits 0 and 7 - F%8 of the last byte (only bit 1 when F%8 == 7): for F = 51 the last byte is 0xEE and fragment 48 starts out marked received; for F = 52 fragments 48 and 51 do; padding bit 7 of the last byte starts out marked missing whenever F%8 != 0 |
| Calibration.AsWrittenCompletesWithoutTwo | src/decode/rs41/decoder.cpp:52-53 | when F is a multiple of 8, the bitmap as written completes exactly when every fragment except F-8 and F-1 has arrived |
| Calibration.FiftyOneFragments | src/decode/rs41/decoder.cpp:53 | with 51 fragments, delivering all of them in order completes the intended bitmap but not the one as written |
| Rs41Decoder.UpdateSondeData | src/decode/rs41/decoder.cpp:192-229 | non-status subframes change nothing; a status subframe merges its fragment, then copies the serial number, the sequence number and the completion flag, and sets burstkill to -1 when the merged timer is 0xFFFF and to the timer otherwise; it goes wrong exactly when the fragment index is out of range |
| Rs41Decoder.ApplyAllReceives | src/decode/rs41/decoder.cpp:93-106 | applying a frame's accepted subframes merges exactly its status fragments, in order, into the calibration state |
| Rs41Decoder.ApplyAllRecord | src/decode/rs41/decoder.cpp:193-202 | a frame with a status subframe overwrites every modelled field of the record; one without leaves the record as it was |
| Rs41Decoder.Corrected | src/decode/rs41/decoder.cpp:89-90 | descrambling and the optional correction keep the frame length; the correction's result flag is dropped |
| Rs41Decoder.FrameWithoutStatusKeepsRecord | src/decode/rs41/decoder.cpp:73-109 | a frame without a status subframe leaves both the calibration state and the record handed on unchanged |
| Rs41Decoder.Run | src/decode/rs41/decoder.cpp:70-113 | a read error returns -1 and changes nothing; otherwise run returns the number of whole frames in the buffer, one handed-on record each |
| Rs41Decoder.FramesCount | src/decode/rs41/decoder.cpp:81-110 | the frame loop hands on one record per whole frame and ignores a trailing partial frame |
| Rs41Decoder.FramesReceive | src/decode/rs41/decoder.cpp:84-110 | across a batch the calibration state receives the fragments of every accepted status subframe of every frame, in order |
| Rs41Decoder.FreshRunCalibrated | src/decode/rs41/decoder.cpp:84-110 | from a fresh decoder with the intended bitmap, a batch completes calibration exactly when its status subframes deliver every fragment |
| Rs41Decoder.FreshRunAsWrittenNeverCalibrated | src/decode/rs41/decoder.cpp:52-110 | from the bitmap init actually builds, a completion flag taken to start false, and F not a multiple of 8, no batch completes calibration |
| Rs41Decoder.AsWrittenRunKeepsFlag | src/decode/rs41/decoder.cpp:52-110 | from the bitmap init actually builds and F not a multiple of 8, every batch hands on the completion flag it started with, whatever that value was |

## Left out

- Reed–Solomon arithmetic. `correct_reed_solomon_create` and `correct_reed_solomon_decode` come from an external
  library. The codeword decoder is a parameter, assumed to return a block of the length it was given.
- The body of `crc16` is in `utils.h`, which is not part of this model. The `CCITT_FALSE` names are taken to mean
  CRC-16/CCITT-FALSE: polynomial 0x1021, initial value 0xFFFF, MSB first, no reflection, no final xor.
- Crc16.Crc: the standard's check value (0x29B1 for the ASCII bytes "123456789") is not proved. `Crc16.Crc` is the
  shift register with exactly the parameters above, but `Words.Xor` on naturals is too costly for the verifier to
  evaluate on the nine concrete bytes.
- The bodies of `bitpack` and `bitcpy` are not part of this model either.
  - `bitpack` is taken to append the new bytes' bits right after the valid bits.
  - `bitcpy(dst, src, off, n)` is taken to copy bits `off .. off+n` of `src` to bits `0 .. n` of `dst`, MSB first,
    working forwards.
- `rs41.h` is not part of this model. Its constants are record fields, as described above. The model also assumes
  these sizes and encodings:
  - the subframe type and length are one byte each;
  - the bitmap holds `(FRAGCOUNT + 7) / 8` bytes;
  - the calibration block `_calibData` is `FRAGCOUNT * FRAGSIZE` bytes (`Calibration.Geometry.BlobLen`);
  - `frag_seq` is one byte;
  - the sequence number and burst-kill timer are little-endian 16-bit fields.
- The GPS position branch of `updateSondeData` (decoder.cpp:207-219) is left out. It uses floating point and calls
  the external `ecef_to_lla` and `ecef_to_spd_hdg`. For the same reason the record has no latitude, longitude,
  altitude, speed, heading or climb fields.
- The PTU, GPSINFO, XDATA, GPSRAW and EMPTY branches do nothing in the source, and the model has them do nothing.
- `src/ptu.cpp` is left out, because it is CSV file output.
- Rs41Decoder.UpdateSondeData: the serial number is the `SERIAL_LEN` bytes of the field. The NUL written after it
  (decoder.cpp:199) is not modelled.
- Rs41Decoder.UpdateSondeData: `frag_seq` is never range-checked, and the source then writes outside the calibration
  block. The model stops with `FragOutOfRange` instead of modelling that write. The calibration lemmas take in-range
  fragments as a precondition.
- Struct fields are read through casts over the frame buffer. The model reads them as byte offsets into the frame,
  and a read past the frame's end gives 0. `Subframes.WalkLocal` shows that the walk itself never looks beyond its
  byte budget.
- The initial bytes of the calibration block, and the telemetry record a `run` call starts from, are parameters.
  `run` declares the record without an initialiser (decoder.cpp:73). Nothing in decoder.cpp initialises the
  calibration block `_calibData`; its declaration, and any initialiser, is in decoder.hpp, which is not part of this
  model.
- Calibration.Start: the completion flag `_calibrated` is assumed to start false. Nothing in decoder.cpp sets it
  before line 249, and its initialiser, if any, is in decoder.hpp, which is not part of this model. The calibration
  block is assumed to be `FRAGCOUNT * FRAGSIZE` bytes.
- Calibration.StartAsWritten: the same two assumptions as `Calibration.Start`. `Calibration.AsWrittenKeepsFlag` and
  `Rs41Decoder.AsWrittenRunKeepsFlag` do not need the first one: they hold for either starting value of the flag.
- The `inverted` flag of `correlateU64` is computed but never used by `run`. The model passes `false` for the
  uninitialised flag and keeps only the offset.
- Framer.EmitRetains: the kept bits are stated under the assumed forward `bitcpy`. They are bits
  `2*syncOffset .. 2*syncOffset + syncOffset % 8`, not the bits that follow the written frame. So the model does not
  claim that consecutive frames are contiguous in the bit stream. Whether the source loses or repeats bits there
  depends on the `bitcpy` body, which is not part of this model.
- Block plumbing is left out: stream registration, `tempStop`/`tempStart`, `flush`, constructors, destructors and
  the handler pointer. Writing to `out.writeBuf` is modelled as a list of frames; whether `out.swap` succeeds is a
  parameter.
- Rs41Decoder.Run: only the return value, the handed-on records and the calibration state are modelled, not when the
  handler is called relative to other blocks.

## Findings

| source | as written | input that shows it | evidently intended | confidence | as-written member | corrected member |
|---|---|---|---|---|---|---|
| src/decode/framer.cpp:144 | for `syncLen < 8` the mask is `1ULL << (8*syncLen)`, a single bit above the sync word | syncLen = 1, sync word 0x00, window 0x01: they differ in the sync byte, yet the distance is 0 | the low `8*syncLen` bits, `(1ULL << 8*syncLen) - 1` | high; not executed | Correlation.AsWrittenMaskMissesMismatch | Correlation.SyncMaskMatchesSyncBits |
| src/decode/rs41/decoder.cpp:53 | the last bitmap byte is and-ed with `(~(1 << (7 - FRAGCOUNT%8))) - 1`: for FRAGCOUNT%8 in 1..6 this clears bits 0 and 7 - FRAGCOUNT%8, for FRAGCOUNT%8 == 7 only bit 1 (the subtraction borrows through bit 0), and for FRAGCOUNT%8 == 0 bits 0 and 7; padding bit 7 stays set whenever FRAGCOUNT%8 != 0 | FRAGCOUNT = 51 (last byte 0xEE), fragments 0..50 delivered in order: calibration never completes, and fragment 48 starts out marked received; for FRAGCOUNT a multiple of 8 (last byte 0x7E), calibration completes without fragments FRAGCOUNT-8 and FRAGCOUNT-1 (Calibration.AsWrittenCompletesWithoutTwo) | the last byte marks only fragments `8*(n-1) .. FRAGCOUNT-1` missing | medium, because the bitmap size is assumed; not executed | Calibration.AsWrittenNeverCompletes | Calibration.CompleteIffAllDelivered |

The framer searches with the mask as written (`Framer.MaskFor`). Every framer property holds for any 64-bit mask,
so the corrected `SyncMask` is a one-line change. Both initial bitmaps are modelled:
- `Calibration.Start` is the corrected one, used by `Rs41Decoder.FreshRunCalibrated`;
- `Calibration.StartAsWritten` is the one init builds, used by `Rs41Decoder.FreshRunAsWrittenNeverCalibrated`.
