# A verified model of the rs1090 decoder

rs1090 turns raw 1090 MHz samples into aircraft state and streams it to clients. This project
models the parts of it where a simple specification meets a fast, stateful or concurrent
implementation, and proves that the two agree:

- **Parity** (`Gf2`, `BitValue`, `Crc24Register`, `Crc24Polynomial`, `Crc24Orbit`, `Crc24Fixed`,
  `Crc24`, `Crc24Errors`). The Mode S CRC-24 of section 3.1.2.3.3 of ICAO Annex 10 Volume IV as a shift
  register over GF(2). One shift is linear, loses nothing and keeps parity; from that follow what
  the correction tables can and cannot do, for every frame.
- **Positions** (`Cpr`, `CprZones`, `CprEncode`, `CprGlobal`, `CprTheorems`, `CprLocal`). Compact
  Position Reporting, section A.1.7 of RTCA DO-260B Appendix A, over exact reals: the zone counts by
  their boundary latitudes, global decode as a Chinese-remainder argument over 60 and 59 zones, local
  decode as nearest-candidate rounding.
- **Demodulation** (`NoiseFloor`, `Slicer2400`, `Process2400`, `Gate2400`, `Emission2400`,
  `GenericSlicer`, `PreamblePulses`, `IdealWaveform`, `FrameDetector`, `Chunking`,
  `DetectorEmission`). The adaptive noise floor; the unrolled 2.4 MS/s switch and the rule behind it;
  the scan with its choice of phase and its address gate, and what it emits and learns; the generic
  slicer and the preamble score on ideal waveforms; the streaming detector, its carry between chunks,
  and which frames reach its callback.
- **Messages** (`Downlink`, `Message`, `MessageFields`, `VelocityFields`). The bit reader and the
  payload decoders, and that they undo field packing.
- **Tracking** (`Tracker`, `StateTracker`, `TrackerRuns`, `Pairing`, `SquitterIngest`, `Snapshot`).
  The aircraft table ordered by last-seen time, the event log, CPR pairing, what the bytes of a
  squitter leave in the table, and the snapshot as a cache.
- **Serving** (`Replay`, `ReplayWhole`, `ReplayDrain`, `ReplayLag`, `Beast`, `Gdl90`). The event
  stream with its replay ring as a state machine over every interleaving, and two wire formats with
  their inverses.

Objects that the code updates in place (the noise floor, the address filter, the detector, the
tracker, the snapshot map, the ring, the stream filter) are classes whose methods are proved equal
to specification functions; the theorems are about those functions, over all inputs and all runs.
A 24-bit register is a sequence of 24 booleans, a byte an integer below 256, a magnitude sample an
integer below 65536. Times are nanoseconds.

Where the code and its own documentation disagree, the model follows the code:

- The header of `crc.rs` says the syndrome of an address-XORed reply equals the address. It is the
  CRC of the address's three bytes (`AddressSyndrome`), and that equals the address for 000000 and
  AAAC07 only (`SyndromeIsTheAddressIff`).
- The comment on `evict_stale` says `ingest` calls it automatically. `ingest` evicts exactly when a
  new aircraft meets a full table: then the oldest entry goes, and of the rest exactly the stale ones
  (`IngestLosesIff`).
- `DESIGN.md` calls the snapshot the current state. Its addresses, callsigns, positions and velocities
  are (`SnapshotInStep`); its counters are exactly when the aircraft's last frame emitted an event
  (`CountersAgreeIff`, `CountersInRuns`).
- `broadcaster.rs` says a client that exhausts the broadcast channel can recover the same window from
  the ring, which has the same size. It cannot, on that connection or a later one: an event is pushed
  before it is sent, so what a receiver skips has left the ring (`SkippedHasLeftTheRing`,
  `SkippedIsLost`). A lag is harmless exactly when the replay had already covered what is skipped
  (`LosesIff`, `LagLosesIff`); `LaggingRun` is a run that loses events.
- `cpr.rs` says a reference within 45 degrees resolves a surface position. The latitude comes back
  exactly when it is within half a surface zone, less than 0.77 degrees (`SurfaceLatRightIff`).
- `beast.rs` says its 48-bit counter rolls over after 7.4 hours. It does so after 271 days and eleven
  and a half hours (`TimestampIsExactIff`).
- The reference encoder in the tests of `cpr.rs` masks the latitude index to 17 bits before it takes
  the zone count. The model takes the zone count from the rounded index, as the standard does;
  `MaskedLatRoundIff` says where the two differ.

## Model

| member | source | states |
|---|---|---|
| `Crc24Register.StepXor` | crates/rs1090/src/crc.rs:70-83 | A shift of the register is linear. |
| `Crc24Register.StepInjective` | crates/rs1090/src/crc.rs:70-83 | A shift loses no information, because the generator's low bit is one. |
| `Crc24Register.StepKeepsParity` | crates/rs1090/src/crc.rs:70-83 | A shift keeps the parity of the register, because the generator has 16 set bits. |
| `Crc24Register.ChecksumParity` | crates/rs1090/src/crc.rs:56-83 | The checksum of any bit string has the parity of the string. |
| `Crc24Register.ChecksumInjectiveOnWords` | crates/rs1090/src/crc.rs:56-63 | Two 24-bit words with the same checksum are equal. |
| `Crc24Register.BurstIsDetected` | crates/rs1090/src/crc.rs:56-63 | Any nonzero error confined to 24 consecutive bits gives a nonzero syndrome, wherever it falls. |
| `Crc24Polynomial.ChecksumIsRemainder` | crates/rs1090/src/crc.rs:1-33 | The checksum is a remainder of the message times x^24 by the generator. |
| `Crc24Polynomial.RemainderIsUnique` | crates/rs1090/src/crc.rs:1-33 | There is only one such remainder. |
| `Crc24Polynomial.CleanIffMultiple` | crates/rs1090/src/crc.rs:14-19 | A word has syndrome zero exactly when it is a multiple of the generator. |
| `Crc24Polynomial.GeneratorIs1FFF409` | crates/rs1090/src/crc.rs:1-33 | The generator is 1FFF409. |
| `Crc24Orbit.TopDoesNotReturn` | crates/rs1090/src/crc.rs:404-418 | Between 1 and 111 shifts never bring a lone top bit back, so all single-bit syndromes of a frame differ. |
| `Crc24Fixed.FixedByThreeSteps` | crates/rs1090/src/crc.rs:70-83 | Three shifts leave no word alone but zero and AAAC07. |
| `Crc24Fixed.ChecksumFixesIff` | crates/rs1090/src/crc.rs:56-83 | A 24-bit word is its own checksum exactly when it is zero or AAAC07. |
| `Crc24.BuildTable` | crates/rs1090/src/crc.rs:207-227 | The table holds what eight shifts make of each byte. |
| `Crc24.ComputeCrc24` | crates/rs1090/src/crc.rs:56-63 | The table-driven loop computes the bit-serial checksum of every byte string. |
| `Crc24.ComputeCrc24Bitwise` | crates/rs1090/src/crc.rs:70-83 | So does the bitwise loop, so the two agree everywhere. |
| `Crc24.BuildSyndromeTable` | crates/rs1090/src/crc.rs:239-274 | Entry i is the checksum of the frame that is zero except for bit i. |
| `Crc24.FirstPairMatches` | crates/rs1090/src/crc.rs:184-201 | A pair found by the two-bit search adds up to the syndrome. |
| `Crc24.FirstPairIsFirst` | crates/rs1090/src/crc.rs:184-201 | No matching pair is missed and none comes before the one found. |
| `Crc24.Tables.SingleBitCorrection` | crates/rs1090/src/crc.rs:159-170 | The search returns the first table index with the syndrome, and nothing for other lengths. |
| `Crc24.Tables.TwoBitCorrection` | crates/rs1090/src/crc.rs:184-201 | The nested search returns the first matching pair. |
| `Crc24.Tables.CheckWithDepth` | crates/rs1090/src/crc.rs:119-148 | The in-place check leaves the outcome and the buffer that the diagnosis prescribes. |
| `Crc24.FlipBitInPlace` | crates/rs1090/src/crc.rs:151-155 | Exactly the named bit of the buffer is flipped. |
| `Crc24Errors.OneBitErrorIsCorrected` | crates/rs1090/src/crc.rs:353-388 | For every clean frame and every bit, the flipped frame is reported as that bit and restored. |
| `Crc24Errors.CorrectedIff` | crates/rs1090/src/crc.rs:119-148 | A bit is reported exactly when flipping it makes the frame clean. |
| `Crc24Errors.EvenFrameIsNeverCorrected` | crates/rs1090/src/crc.rs:119-148 | A frame with an even number of set bits is never corrected at depth 1. |
| `Crc24Errors.EvenErrorIsNeverMiscorrected` | crates/rs1090/src/crc.rs:391-401 | No error of even weight on a clean frame is ever miscorrected at depth 1. |
| `Crc24Errors.TwoBitErrorIsDetected` | crates/rs1090/src/crc.rs:391-401 | Any two flipped bits are reported as a failure and the frame is left alone. |
| `Crc24Errors.CorrectionIsSound` | crates/rs1090/src/crc.rs:119-148 | At any depth a corrected frame is clean and differs in the reported bit, or in the first pair of bits that would clean it. |
| `Crc24Errors.FailedIff` | crates/rs1090/src/crc.rs:119-148 | Depth 2 fails exactly when no one flip and no two flips make the frame clean. |
| `Crc24Errors.AppendedChecksumIsClean` | crates/rs1090/src/crc.rs:313-336 | Data with a 24-bit trailer is clean exactly when the trailer is the checksum. |
| `Crc24Errors.AddressSyndrome` | crates/rs1090/src/state.rs:354-361 | A reply whose parity was XORed with an address has the checksum of the address's bytes as syndrome. |
| `Crc24Errors.AddressFromSyndrome` | crates/rs1090/src/state.rs:354-361 | That checksum determines the address. |
| `Crc24Errors.ZeroSyndromeIsZeroAddress` | crates/rs1090/src/state.rs:366-369 | Only the zero address gives a zero syndrome. |
| `Crc24Errors.SyndromeIsTheAddressIff` | crates/rs1090/src/crc.rs:17-19 | The syndrome an address shows is the address itself for 000000 and AAAC07 and for no other address. |
| `Cpr.ComputeNl` | crates/rs1090/src/cpr.rs:195-206 | The search loop returns the zone count, whose bands `CprZones.ZonesIff` gives. |
| `CprZones.ZonesIff` | crates/rs1090/src/cpr.rs:131-206 | A latitude has 59 - k zones exactly when its absolute value lies from the k-th of the 58 boundary latitudes to below the next. |
| `CprZones.ZonesFall` | crates/rs1090/src/cpr.rs:195-206 | The zone count is the same north and south and never rises towards a pole. |
| `CprZones.ZoneWidths` | crates/rs1090/src/cpr.rs:230-251 | A zone is 360 degrees by its count, which an odd message has one less of down to one; local decode uses that width for airborne positions and a quarter of it for surface ones. |
| `CprEncode.IndexIsNearest` | crates/rs1090/src/cpr.rs:466-487 | An encoded index stands for a coordinate within half a step of the truth. |
| `CprEncode.MaskedLatRoundIff` | crates/rs1090/src/cpr.rs:466-487 | Masking before the zone count changes the rounded latitude exactly at the wrap. |
| `CprGlobal.PairLatRightIff` | crates/rs1090/src/cpr.rs:268-300 | Both latitudes of a pair are recovered exactly when the two indices are within half a beat, whatever the motion between the messages. |
| `CprGlobal.PairLonOneRightIff` | crates/rs1090/src/cpr.rs:301-326 | The longitude is always in [-180, 180), and is the encoded meridian exactly when the beat of the two indices is a multiple of that message's zone count. |
| `CprGlobal.PairLonRightIff` | crates/rs1090/src/cpr.rs:301-326 | Both longitudes of a pair are right modulo 360 exactly when the beat is a multiple of the product of the two zone counts. |
| `CprGlobal.PairLonRight` | crates/rs1090/src/cpr.rs:301-326 | In particular indices within half a beat of each other give the encoded meridian. |
| `CprTheorems.MovingRoundTrip` | crates/rs1090/src/cpr.rs:268-326 | For two encoded positions close enough, global decode gives the recent one as encoded, or a zone mismatch exactly when the zone counts differ. |
| `CprTheorems.GlobalRoundTrip` | crates/rs1090/src/cpr.rs:540-571 | For every latitude and longitude, decoding the two encodings of one position gives a point within half a quantization step, or a zone mismatch, and no other error. |
| `CprTheorems.GlobalDecodeRange` | crates/rs1090/src/cpr.rs:268-326 | Parity errors are reported exactly for wrong parities; every result is a latitude in range and a longitude in [-180, 180). |
| `CprLocal.NearestZoneIff` | crates/rs1090/src/cpr.rs:366-386 | The zone chosen is the one whose candidate lies within half a zone of the reference. |
| `CprLocal.NearestZoneIsUnique` | crates/rs1090/src/cpr.rs:366-386 | There is exactly one such zone. |
| `CprLocal.LocalDecodeIsNearest` | crates/rs1090/src/cpr.rs:366-386 | Local decode returns the unique nearest candidate in latitude and, before wrapping, in longitude. |
| `CprLocal.GlobalThenLocal` | crates/rs1090/src/cpr.rs:301-343 | Whenever global decode succeeds, local decode of its most recent message against that point returns exactly that point. |
| `CprLocal.CarriedLatRightIff` | crates/rs1090/src/cpr.rs:366-374 | For every zone height up to the airborne ones, a message that carries the index of a latitude decodes to it exactly when it is within half a zone of the reference. |
| `CprLocal.SurfaceLatRightIff` | crates/rs1090/src/cpr.rs:345-364 | A surface latitude comes back exactly within half a surface zone of the reference, and never from 0.77 degrees or more away. |
| `CprLocal.CarriedPositionComesBack` | crates/rs1090/src/cpr.rs:366-386 | With the longitude within half a zone too, the whole carried position comes back, for airborne and for surface zones. |
| `CprLocal.LocalLatRightIff` | crates/rs1090/src/cpr.rs:604-628 | Local decode recovers the encoded latitude exactly when the reference is within half a zone of it. |
| `CprLocal.LocalRoundTrip` | crates/rs1090/src/cpr.rs:576-601 | With the longitude within half a zone too, the whole encoded position comes back. |
| `CprLocal.LocalLongitudeRangeIff` | crates/rs1090/src/cpr.rs:366-404 | For every message and airborne or surface zone, against a reference in [-180, 180]: the longitude is below 180, and leaves [-180, 180) exactly when a candidate within half a zone of the reference lies west of -180; a reference half a zone east of -180 rules that out, and so does one east of Greenwich. |
| `CprLocal.LocalLongitudeMayLeaveRange` | crates/rs1090/src/cpr.rs:399-404 | It does happen: longitude wraps one way only, and beside the pole half a zone is 180 degrees. |
| `NoiseFloors.UpdateNeverWraps` | crates/rs1090/src/demod.rs:285-301 | For every shift from 1 to 16 and every sample no u32 operation wraps, and the clamp never acts. |
| `NoiseFloors.FloorWithinRange` | crates/rs1090/src/demod.rs:255-301 | After any samples the floor lies between the least and greatest of the seed and the samples. |
| `NoiseFloors.ConstantInputConverges` | crates/rs1090/src/demod.rs:281-301 | Under constant input the accumulator moves monotonically and reaches that floor within as many steps as it is away. |
| `NoiseFloors.ConstantInputStays` | crates/rs1090/src/demod.rs:281-301 | Once the floor equals a constant input it stays. |
| `NoiseFloors.NoiseFloor.constructor` | crates/rs1090/src/demod.rs:254-264 | A tracker starts at its seed, for a legal shift. |
| `NoiseFloors.NoiseFloor.Update` | crates/rs1090/src/demod.rs:285-301 | The wrapping update is the exact average step, and the floor returned is unclamped. |
| `Slicer2400.SliceByte` | crates/rs1090/src/demod_2400.rs:221-273 | The forty unrolled cases equal the rule: bit n uses correlator (p + 12n) mod 5 at sample (p + 12n) div 5. |
| `Slicer2400.SliceMessage` | crates/rs1090/src/demod_2400.rs:209-284 | The phase-cycling loop reads exactly the bits of the rule and leaves the rest of the buffer zero. |
| `Slicer2400.ShortGuardCovers` | crates/rs1090/src/demod_2400.rs:402-408 | The short guard keeps every read of a short frame and of the prefix in range. |
| `Slicer2400.LongGuardCovers` | crates/rs1090/src/demod_2400.rs:418-423 | The long guard keeps every read of a long frame in range. |
| `Slicer2400.BitIsBrighterHalf` | crates/rs1090/src/demod_2400.rs:57-97 | Each of the five correlators decides one exactly when the six fifths of the bit's first half hold more light than the six of its second. |
| `Slicer2400.RuleReadsBit` | crates/rs1090/src/demod_2400.rs:70-96 | Each correlator decides the transmitted bit, whatever its neighbours are. |
| `Slicer2400.SlicedMessageIsTransmitted` | crates/rs1090/src/demod_2400.rs:195-284 | On any pulse-position waveform with any constant floor and noise below a fifth of the pulse height, the slicer returns the transmitted bytes. |
| `Slicer2400.NoiseBoundIsTight` | crates/rs1090/src/demod_2400.rs:82-84 | With noise of exactly a fifth a bit can be misread. |
| `Process2400.IcaoFilter.Add` | crates/rs1090/src/demod_2400.rs:305-310 | Adding keeps everything heard before. |
| `Process2400.AssessFrame` | crates/rs1090/src/demod_2400.rs:424-489 | A sliced frame is checked, corrected and scored as specified. |
| `Process2400.TryPhase` | crates/rs1090/src/demod_2400.rs:395-490 | One starting phase gives the specified candidate, or none where a guard or a reserved format rules it out. |
| `Process2400.BestPhase` | crates/rs1090/src/demod_2400.rs:393-492 | The loop over phases 4 to 8 keeps the specified best candidate. |
| `Process2400.Process` | crates/rs1090/src/demod_2400.rs:344-526 | The scan emits the frames, updates the filter and moves the floor as specified; `Emission2400` says which frames those are. |
| `Gate2400.BestIsFirstMaximum` | crates/rs1090/src/demod_2400.rs:474-491 | The candidate kept has the greatest positive score and is the first phase with it. |
| `Gate2400.EmittedIsAccepted` | crates/rs1090/src/demod_2400.rs:427-519 | Every emitted frame is clean after correction, or its syndrome is that of an address heard before. |
| `Gate2400.SessionIsGated` | crates/rs1090/src/demod_2400.rs:344-526 | Over a whole session every frame was accepted against exactly the senders that earlier frames named. |
| `Gate2400.ScanAppends` | crates/rs1090/src/demod_2400.rs:344-351 | What a call emits does not depend on what earlier calls emitted, only on the filter and the floor. |
| `Gate2400.ReplyNamesAnEarlierSender` | crates/rs1090/src/demod_2400.rs:441-519 | An emitted reply XORed with an address was preceded by a clean or corrected DF 11, 17 or 18 frame with exactly that address. |
| `Gate2400.EarliestOfTheStrongest` | crates/rs1090/src/demod_2400.rs:471-491 | At one position parity alone decides: the frame chosen is that of the earliest phase with the strongest parity (clean, corrected, known address), and none exactly when no phase has any. |
| `Gate2400.CleanCandidateWins` | crates/rs1090/src/demod_2400.rs:474-491 | If any phase yields a clean frame, the one chosen is clean. |
| `Gate2400.CleanTransmissionIsChosen` | crates/rs1090/src/demod_2400.rs:393-492 | A clean DF 11, 17 or 18 frame whose bits reach the samples read for them as a waveform within the noise bound, in a buffer that passes the guard for its length, makes its phase a clean candidate, so a clean frame is chosen there. |
| `Emission2400.LearnIs` | crates/rs1090/src/demod_2400.rs:503-517 | A checked frame of format 11, 17 or 18 adds the checksum of its bytes 1 to 3 to the addresses heard, and no other frame adds any. |
| `Emission2400.ScanStep` | crates/rs1090/src/demod_2400.rs:344-526 | The scan ends where fewer than 155 samples are left. Behind a preamble with a signal of at least 1.5 times its noise and nine quiet samples, it emits the chosen frame if it is sure enough and goes on behind it; otherwise it emits and learns nothing and moves one sample on. |
| `Emission2400.AdvanceOfBest` | crates/rs1090/src/demod_2400.rs:482-490 | The chosen frame advances the scan by 19 samples and 19.2 a byte, and its confidence is an eighth of the pulse level, at most 255. |
| `Emission2400.ScanGrows` | crates/rs1090/src/demod_2400.rs:494-522 | What a scan has emitted and learnt stays. |
| `Emission2400.CleanTransmissionIsEmitted` | crates/rs1090/src/demod_2400.rs:364-522 | A clean DF 11, 17 or 18 frame that reaches the samples as a waveform behind such a preamble: the next frame emitted is clean, the checksum of its address is among those heard afterwards, and it is the frame sent unless an earlier phase reads a clean one too. |
| `Emission2400.ReplyIsEmittedIff` | crates/rs1090/src/demod_2400.rs:441-522 | A reply XORed with an address, alone at its position, is emitted as sent exactly when that address has been heard; else nothing is emitted or learnt there. |
| `GenericSlicer.SliceBit` | crates/rs1090/src/demod.rs:399-426 | The brighter half decides; the confidence is 255 times the difference over the sum, rounded down. |
| `GenericSlicer.IntegratedMagnitude` | crates/rs1090/src/demod.rs:483-524 | The loop averages the samples weighted by overlap, rounded to the nearest integer. |
| `GenericSlicer.AverageIsNearest` | crates/rs1090/src/demod.rs:483-524 | The rounded average is the nearest integer. |
| `GenericSlicer.SliceBitsCfg` | crates/rs1090/src/demod.rs:445-481 | Every bit and confidence is that of its two half-bit averages. |
| `GenericSlicer.PackBitsMsb` | crates/rs1090/src/demod.rs:558-577 | Bits are packed first bit highest. |
| `GenericSlicer.PreambleScoreCfg` | crates/rs1090/src/demod.rs:312-354 | The score is the scaled mean of the pulse samples less that of the quiet ones. |
| `PreamblePulses.InPulseIff` | crates/rs1090/src/demod.rs:121-137 | A sample belongs to a pulse exactly when the two overlap in time. |
| `PreamblePulses.WindowSizes` | crates/rs1090/src/demod.rs:112-206 | A preamble is eight microseconds to the nearest sample, and bits are microseconds rounded up. |
| `PreamblePulses.PulsesScoreAtLeast` | crates/rs1090/src/demod.rs:306-354 | At every rate, samples of at least a on the pulses at 0, 1, 3.5 and 4.5 microseconds and of at most b elsewhere score at least 4a - 12b. |
| `PreamblePulses.ScoreAtTwoMegasamples` | crates/rs1090/src/demod.rs:306-354 | At 2 MS/s the score is the sum of samples 0, 2, 7 and 9 less that of the other twelve. |
| `GenericSlicer.AggregateConfidence` | crates/rs1090/src/demod.rs:546-556 | The aggregate is the least confidence. |
| `GenericSlicer.PrefixBitsAgree` | crates/rs1090/src/frame.rs:562-579 | Slicing a prefix gives the first bits of slicing the whole. |
| `GenericSlicer.SliceAtTwoMegasamples` | crates/rs1090/src/demod.rs:469-471 | At 2 MS/s integration reduces to comparing the bit's two samples. |
| `GenericSlicer.PreambleAtTwoMegasamples` | crates/rs1090/src/demod.rs:214-218 | At 2 MS/s the derived preamble is 16 samples with pulses at 0, 2, 7 and 9. |
| `IdealWaveform.WaveformIsSliced` | crates/rs1090/src/demod.rs:445-524 | At every sample rate the slicer reads the bits of a pulse-position waveform with any floor, noise and offset from the sample grid, as long as what smearing leaves of the pulse exceeds the noise of two half bits and the rounding. |
| `FrameDetector.SizesOrdered` | crates/rs1090/src/frame.rs:292-299 | At every rate the carry buffer holds a preamble and a long frame. |
| `FrameDetector.RestFits` | crates/rs1090/src/frame.rs:513-522 | What any scan leaves fits the carry buffer. |
| `FrameDetector.FrameDetector.constructor` | crates/rs1090/src/frame.rs:348-363 | A detector starts with an empty carry, no confidence filter and a zero floor. |
| `FrameDetector.FrameDetector.SliceDfPrefix` | crates/rs1090/src/frame.rs:562-579 | The prefix slicer gives the format of the first five bits and their least confidence. |
| `FrameDetector.FrameDetector.SliceWhole` | crates/rs1090/src/frame.rs:472-503 | A frame is sliced, packed, checked and graded as specified. |
| `FrameDetector.FrameDetector.Walk` | crates/rs1090/src/frame.rs:421-511 | The scan loop ends with the frames, floor, position and stop of the specified scan; `DetectorEmission.ScanStep` says which frames those are. |
| `FrameDetector.FrameDetector.Process` | crates/rs1090/src/frame.rs:380-523 | One call scans carry plus chunk, and the carry afterwards is exactly what the scan left unconsumed; `DetectorEmission` says which frames it emits. |
| `Chunking.ScanResumes` | crates/rs1090/src/frame.rs:380-523 | A scan that does not stop at an incomplete long frame can be cut there and resumed. |
| `Chunking.ChunksDoNotMatter` | crates/rs1090/src/frame.rs:376-523 | Any chunking gives the same frames, floor and carry as feeding the stream whole, if every call but the last runs through or stops at a sample that equals the floor it leaves. |
| `Chunking.BreakFoldsTwice` | crates/rs1090/src/frame.rs:436-470 | After a stop at the break the sample there has been folded into the floor once too often, and that is the only difference. |
| `Chunking.CutIsInvisibleIff` | crates/rs1090/src/frame.rs:436-470 | A stream may be cut after a chunk, whatever follows, exactly when the call on that chunk does not stop at the break or stops at a sample that equals the floor it leaves. |
| `Chunking.NextChunkAgreesIff` | crates/rs1090/src/frame.rs:376-523 | Calls that so far agree with the whole stream go on agreeing, whatever chunk comes next, exactly under that condition on the last of them. |
| `Chunking.BreakChangesTheFloor` | crates/rs1090/src/frame.rs:436-470 | A concrete 2 MS/s buffer for which two calls leave another floor than one. |
| `Chunking.FormatIsThatOfSlicedBytes` | crates/rs1090/src/frame.rs:450-479 | The format read from the prefix is that of the sliced first byte. |
| `Chunking.CorrectedFormatDisagreesIff` | crates/rs1090/src/frame.rs:484-503 | A corrected frame is clean, and its format disagrees with its own first byte exactly when the corrected bit is one of the first five. |
| `Chunking.IdealFrameIsTaken` | crates/rs1090/src/frame.rs:436-511 | At every sample rate, behind a preamble that clears the threshold, an ideal waveform whose pulse stands out is taken whole, with its bytes, its format and a clean parity if it had one. |
| `Chunking.TransmittedFrameIsTaken` | crates/rs1090/src/frame.rs:436-511 | At 2 MS/s no heights matter: it is enough that every bit's brighter half is on the right side. |
| `DetectorEmission.MoveCases` | crates/rs1090/src/frame.rs:442-470 | A position is passed over by one sample unless its score exceeds sixteen times the floor, by a preamble if its format is none of the nine known; else it waits for, or takes, 56 or 112 bits. |
| `DetectorEmission.ScanStep` | crates/rs1090/src/frame.rs:436-511 | A frame taken is emitted next if its confidence reaches the minimum and dropped otherwise; passing over and waiting emit nothing. |
| `DetectorEmission.MinimumOnlyFilters` | crates/rs1090/src/frame.rs:493-505 | Whatever the minimum, a call emits exactly those frames of the unfiltered call that reach it, in order, and leaves the same floor and carry. |
| `DetectorEmission.ConfidenceIsLeast` | crates/rs1090/src/frame.rs:493 | A frame is exactly as sure as the least sure of its bits. |
| `DetectorEmission.SilenceIsSkipped` | crates/rs1090/src/frame.rs:436-448 | Samples without a preamble are folded into the floor and passed over. |
| `DetectorEmission.SendableIff` | crates/rs1090/src/frame.rs:458-491 | The bytes that pass whole are those of a known format and its length, clean if the format is 11, 17 or 18. |
| `DetectorEmission.IdealTransmissionIsEmitted` | crates/rs1090/src/frame.rs:380-511 | At every sample rate, after any silence, behind pulses that stand out by sixteen times the floor: the bytes of an ideal waveform are the first frame emitted, and the scan goes on behind it. |
| `DetectorEmission.TransmissionIsEmitted` | crates/rs1090/src/frame.rs:380-511 | At 2 MS/s the same with no waveform: four samples that exceed the other twelve by sixteen times the floor, and each bit with its brighter sample on the right side. |
| `Downlink.FormatOfByte` | crates/rs1090/src/frame.rs:75-126 | A format keeps its five bits, and the first of them decides the frame length. |
| `Downlink.FormatsByNumber` | crates/rs1090/src/frame.rs:79-145 | The formats with a checked parity are 11, 17 and 18; nine formats are known and the rest reserved. |
| `Messages.IcaoBytesInverse` | crates/rs1090/src/message.rs:52-110 | An address and its three bytes determine each other, big end first. |
| `Messages.FromHex` | crates/rs1090/src/message.rs:74-92 | Exactly the strings of six hex digits of either case are read, as their value. |
| `Messages.ToHex` | crates/rs1090/src/message.rs:112-122 | Printing gives six digits that read back as the address. |
| `Messages.HexDigitIs` | crates/rs1090/src/message.rs:74-122 | A digit is read from its two characters and written as the upper one. |
| `Messages.ReadBits` | crates/rs1090/src/message.rs:464-488 | For every field of 1 to 32 bits in range, load, shift and mask give that slice of the bits. |
| `Messages.BitsOfInteger` | crates/rs1090/src/message.rs:432-488 | A field is that slice of the big-endian integer the bytes spell. |
| `Messages.LoadedBytesFit` | crates/rs1090/src/message.rs:474-480 | A field touches at most five bytes, which fit the 64-bit accumulator. |
| `Messages.Strip` | crates/rs1090/src/message.rs:535-539 | Exactly the trailing padding is removed. |
| `Messages.DecodeIdentification` | crates/rs1090/src/message.rs:517-546 | The callsign is the eight packed characters without trailing padding. |
| `MessageFields.SlotReadsBack` | crates/rs1090/src/message.rs:432-498 | Any field packed after any others reads back as its value. |
| `MessageFields.AirborneRoundTrip` | crates/rs1090/src/message.rs:550-577 | The airborne decoder undoes the field layout for every content. |
| `MessageFields.AltitudeRoundTrip` | crates/rs1090/src/message.rs:657-682 | The 25-foot altitude code decodes to the altitude encoded. |
| `MessageFields.SpeedsIncrease` | crates/rs1090/src/message.rs:636-650 | The seven widths of speed step join up: of two movement codes the greater has the greater speed. |
| `MessageFields.SurfaceCodesAreDistinct` | crates/rs1090/src/message.rs:581-650 | Exactly the codes 1 to 124 stand for a speed, and speed and track determine their codes. |
| `MessageFields.SurfaceRoundTrip` | crates/rs1090/src/message.rs:581-617 | The surface decoder undoes the field layout for every content: speed in knots, track in degrees, position. |
| `MessageFields.CallsignRoundTrip` | crates/rs1090/src/message.rs:502-546 | Any callsign comes back up to trailing padding, with its category. |
| `MessageFields.WholeCallsign` | crates/rs1090/src/message.rs:535-539 | A callsign that does not end in a space comes back whole. |
| `VelocityFields.CharacterOfCode` | crates/rs1090/src/message.rs:502-515 | Codes 1 to 26 are letters, 32 is space, 48 to 57 are digits, and exactly the others are shown as underscores. |
| `VelocityFields.AltitudeOfCode` | crates/rs1090/src/message.rs:652-682 | Zero is no altitude; type codes 20 to 22 are metres, in whole feet rounded down; with the Q bit 25-foot steps, without it 100-foot steps, from -1000. |
| `VelocityFields.SpeedGrowsByStep` | crates/rs1090/src/message.rs:619-650 | From 0 at code 1 to 175 at code 124 each code adds the step of the speed reached: 1/8, 1/4, 1/2, 1, 2 or 5 knots below 1, 2, 15, 70, 100 and 175. |
| `VelocityFields.TrackIsFraction` | crates/rs1090/src/message.rs:601-606 | A track code counts 128ths of 360 degrees. |
| `VelocityFields.GroundRoundTrip` | crates/rs1090/src/message.rs:686-765 | The velocity decoder undoes the layout of subtypes 1 and 2: east and north in knots with their signs, four knots a step in subtype 2, climb in feet per minute and its source. |
| `VelocityFields.AirspeedRoundTrip` | crates/rs1090/src/message.rs:766-788 | And of subtypes 3 and 4: airspeed, heading if valid, and its reference. |
| `VelocityFields.OtherSubtypes` | crates/rs1090/src/message.rs:789 | Every other subtype is refused by its number. |
| `StateTrackers.TryResolvePosition` | crates/rs1090/src/state.rs:479-556 | The pairing code updates slots and position and emits events as specified. |
| `StateTrackers.TryResolveSurface` | crates/rs1090/src/state.rs:566-617 | A surface message gives a velocity if it carries one, and a position if there is a reference. |
| `StateTrackers.ApplyExtendedSquitter` | crates/rs1090/src/state.rs:429-477 | Each payload changes its own fields and emits its own events. |
| `StateTrackers.StateTracker.FindBySyndrome` | crates/rs1090/src/state.rs:370-382 | The early-exit reverse scan as a loop. |
| `StateTrackers.StateTracker.Resolve` | crates/rs1090/src/state.rs:346-385 | Checked frames name their own address, which `SquitterIngest.CheckedFrameNamesItsAddress` finds in their bits; failed ones are matched by syndrome. |
| `StateTrackers.StateTracker.EvictStaleAircraft` | crates/rs1090/src/state.rs:326-335 | The loop drops entries from the front while they are stale. |
| `StateTrackers.StateTracker.EvictIfFull` | crates/rs1090/src/state.rs:387-397 | Room is made only when the table is full. |
| `StateTrackers.StateTracker.TouchAircraft` | crates/rs1090/src/state.rs:266-288 | The frame's aircraft ends at the back of the table, acquired if new. |
| `StateTrackers.StateTracker.IngestFrame` | crates/rs1090/src/state.rs:252-315 | One ingest gives the specified table and events. |
| `TrackerRuns.EvictStaleExact` | crates/rs1090/src/state.rs:317-335 | On a sorted table exactly the aircraft older than 300 s are removed, oldest first. |
| `TrackerRuns.EvictIfNeededDrops` | crates/rs1090/src/state.rs:387-397 | Below capacity nothing goes; at capacity, on a sorted table, entry 0 goes and with it exactly the stale ones of the rest, oldest first. |
| `TrackerRuns.KeysAreDistinct` | crates/rs1090/src/state.rs:378 | No two addresses show the same syndrome. |
| `TrackerRuns.ScanBackIsComplete` | crates/rs1090/src/state.rs:370-382 | The scan that stops early names an address exactly when a scan of all active aircraft would. |
| `TrackerRuns.ReplyResolvesToItsSender` | crates/rs1090/src/state.rs:353-383 | A reply XORed with a nonzero address resolves to it if it was heard within 60 s, and otherwise to nobody. |
| `TrackerRuns.FailedResolvesIff` | crates/rs1090/src/state.rs:353-383 | A failed frame resolves exactly if it has 7 or 14 bytes and a nonzero syndrome that is the checksum of an address heard within 60 s, and then to that address. |
| `TrackerRuns.IngestOutcome` | crates/rs1090/src/state.rs:252-315 | Every ingest emits one Orphan and changes nothing, if the frame resolves to nobody, or counts the frame once for the aircraft it resolves to; a failed frame never acquires one. |
| `TrackerRuns.IngestKeepsInv` | crates/rs1090/src/state.rs:252-315 | An ingest keeps addresses unique, the table sorted by last_seen and within capacity, and the counters adding up. |
| `TrackerRuns.EveryRun` | crates/rs1090/src/state.rs:187-335 | After every run whose clock never goes back: those invariants, and for every address Acquired and Lost alternate, agree with the table, and balance its size. |
| `TrackerRuns.IngestLosesIff` | crates/rs1090/src/state.rs:266-288 | An ingest loses an address exactly when the frame is of a new aircraft, the table is full, and the address is that of entry 0 or of a stale entry. |
| `TrackerRuns.IngestLosesSomeIff` | crates/rs1090/src/state.rs:266-288 | Some aircraft is lost exactly when a new one meets a full table that is not empty. |
| `Pairing.ParityMismatchIsUnreachable` | crates/rs1090/src/state.rs:516-520 | With slots of the right parity a global decode never reports a parity mismatch. |
| `Pairing.FailedPairLeavesOneSlot` | crates/rs1090/src/state.rs:536-541 | After a failed pair at most one slot is filled, so the choice between two never arises. |
| `Pairing.EveryRunPairs` | crates/rs1090/src/state.rs:448-530 | In every run each slot holds its own parity, and two filled slots are at most 10 s apart and decode globally. |
| `Pairing.PositionComesFromChosen` | crates/rs1090/src/state.rs:479-556 | With a reference, an airborne position emits one position event from the chosen fragment, unless the pair is out of latitude range. |
| `Pairing.ArrivedIsChosenIff` | crates/rs1090/src/state.rs:490 | The arrived fragment is chosen unless it is even and an odd one has the same time. |
| `Pairing.AirbornePositionInRun` | crates/rs1090/src/state.rs:448-556 | In every run with a later time, the position event comes from the fragment the frame carries. |
| `Pairing.EvenLosesAtEqualTimes` | crates/rs1090/src/state.rs:490 | With equal times, as all frames of one chunk have, the event can be another one. |
| `SquitterIngest.CheckedFrameNamesItsAddress` | crates/rs1090/src/message.rs:371-405 | A checked frame is of the aircraft whose address is spelt by its bits 8 to 31, if it is a squitter of 14 bytes or an all-call reply of 7, and of nobody otherwise. |
| `SquitterIngest.CallsignIsStored` | crates/rs1090/src/message.rs:403-421 | A checked squitter [first, address, packed callsign, parity] of type codes 1 to 4 brings that aircraft to the back with that callsign and category, one more message counted, and nothing else changed. |
| `SquitterIngest.SurfaceIsStored` | crates/rs1090/src/state.rs:566-617 | One of type codes 5 to 8 leaves the packed speed in whole knots and track as velocity, and the position nearest to the reference. |
| `SquitterIngest.VelocityIsStored` | crates/rs1090/src/message.rs:417-419 | One of type code 19 leaves the velocity decoded, or the old one for an unsupported subtype. |
| `SquitterIngest.GroundVelocityIsStored` | crates/rs1090/src/message.rs:686-765 | So the ground velocity packed by the sender is the one stored. |
| `SquitterIngest.AirborneIsStored` | crates/rs1090/src/state.rs:448-556 | One of type codes 9 to 18 or 20 to 22, later than the other slot: it stands alone with the local position if there is no other fragment within 10 s or the zones differ, completes the pair with the global one if it decodes, and is dropped with the other if the pair is out of latitude range. |
| `SquitterIngest.EventsTellTheTable` | crates/rs1090/src/state.rs:429-617 | Every position, velocity and callsign event is what the entry at the back holds, as of that time. |
| `SquitterIngest.RecoveredFrame` | crates/rs1090/src/state.rs:290-315 | A failed frame that resolves emits exactly one address recovery with its format and changes only the time and two counters. |
| `Snapshot.SnapshotCache.UpdateSnapshot` | crates/rs1090-serve/src/main.rs:602-625 | One event overwrites or deletes its aircraft's entry. |
| `Snapshot.SnapshotCache.Drain` | crates/rs1090-serve/src/main.rs:554-562 | Draining applies the events in order with the tracker in its new state. |
| `Snapshot.SilentFrame` | crates/rs1090/src/state.rs:429-477 | A frame without events leaves callsign, position and velocity as they were. |
| `Snapshot.IngestKeepsStep` | crates/rs1090-serve/src/main.rs:554-625 | Draining one ingest keeps an address's entry in step with the tracker. |
| `Snapshot.SnapshotInStep` | crates/rs1090-serve/src/main.rs:542-625 | After every run the snapshot has exactly the tracker's addresses and agrees on callsign, position and velocity. |
| `Snapshot.SnapshotShows` | crates/rs1090-serve/src/main.rs:542-625 | After every run each tracked aircraft is shown with its callsign, velocity, latitude, longitude, feet and "baro" or "gnss". |
| `Snapshot.SilentIff` | crates/rs1090/src/state.rs:290-315 | An update emits no event exactly for checked all-call replies, undecoded payloads, a callsign already known, airborne positions with neither a good pair nor a reference that places one, and surface positions without speed, track and reference. |
| `Snapshot.CountersAgreeIff` | crates/rs1090-serve/src/main.rs:554-625 | Counters that agreed before a frame of a tracked aircraft agree after it exactly when the frame emitted an event, that is, was not silent. |
| `Snapshot.CategoryAgreesIff` | crates/rs1090-serve/src/main.rs:554-625 | The category goes on agreeing except after an identification with the known callsign and another category. |
| `Snapshot.OthersKeepEntry` | crates/rs1090-serve/src/main.rs:554-625 | Frames of other aircraft leave an entry as it is in the tracker and in the snapshot. |
| `Snapshot.CountersInRuns` | crates/rs1090-serve/src/main.rs:542-625 | After every run the snapshot shows an aircraft's counters exactly when its last frame emitted an event, and otherwise is behind. |
| `Replay.ReplayRing.PushReplay` | crates/rs1090-serve/src/broadcaster.rs:113-119 | A push appends and, at capacity, drops the oldest. |
| `Replay.ReplayRing.ReplayAfter` | crates/rs1090-serve/src/broadcaster.rs:124-133 | The ring's events with a greater id, in order. |
| `Replay.SseStream.Forward` | crates/rs1090-serve/src/server.rs:338-395 | An event above the mark is forwarded if it passes the filters, and the mark moves either way. |
| `Replay.PushKeepsRing` | crates/rs1090-serve/src/broadcaster.rs:110-119 | The ring is always the tail of everything pushed. |
| `Replay.ServerStaysOk` | crates/rs1090-serve/src/main.rs:563-580 | Ids count up from 1 in the order pushed and sent; the ring is never behind the log. |
| `Replay.ReceivedIsIncreasing` | crates/rs1090-serve/src/server.rs:250-395 | In every interleaving, with any filters, lag, reconnects and stored ids, the ids received strictly increase. |
| `ReplayWhole.ReplayFollows` | crates/rs1090-serve/src/server.rs:303-311 | For any Last-Event-ID the ring replays exactly what was pushed after it, as far back as the last 4096 events. |
| `ReplayWhole.EveryRunIsWhole` | crates/rs1090-serve/src/server.rs:313-348 | Subscribing before the snapshot, and pushing before sending, lets no event escape both: in a run without a miss every passing event is received, on the wire, in the replay or still ahead in the log. |
| `ReplayWhole.FilteredExactlyOnce` | crates/rs1090-serve/src/server.rs:250-395 | With a filter that looks only at the event, and across any reconnects, the ids received are exactly the passing ones after the starting point, unless a passing event not yet had is skipped by a lag or is more than 4096 events old on reconnecting. |
| `ReplayWhole.UnfilteredMissesIff` | crates/rs1090-serve/src/broadcaster.rs:39-55 | Without a filter a step is a miss exactly when it reconnects more than 4096 events late, or lags with the last 4096 events starting after what was emitted, or drops an event. |
| `ReplayWhole.ExactlyOnce` | crates/rs1090-serve/src/server.rs:291-395 | Then an unfiltered client receives consecutive ids, over all its connections. |
| `ReplayWhole.DrainedMeansAll` | crates/rs1090-serve/src/server.rs:291-348 | Once drained it has received every passing event sent since it began; `ReplayDrain.StreamDelivers` says that it gets there. |
| `ReplayDrain.PollTakesOne` | crates/rs1090-serve/src/server.rs:326-395 | Every poll within reach of the log takes exactly the next event of replay and then log, and shows it if it is new and passes. |
| `ReplayDrain.LaggingPollSkips` | crates/rs1090-serve/src/broadcaster.rs:39-55 | A receiver with more than 4096 live events before it skips to the last 4096 on its next poll, shows nothing for it, and is in reach again. |
| `ReplayDrain.CanDrain` | crates/rs1090-serve/src/server.rs:326-395 | From every world in which a client streams within reach, as many polls as events await it, and a read for each shown, leave nothing awaiting and nothing on the wire. |
| `ReplayDrain.StreamDelivers` | crates/rs1090-serve/src/server.rs:291-395 | In every run without a miss so far, those steps bring the client exactly the passing events of the whole log, still without a miss. |
| `ReplayDrain.ReconnectionCatchesUp` | crates/rs1090-serve/src/server.rs:291-395 | So do a reconnection and those steps, if no passing event since the stored id is more than 4096 events old. |
| `ReplayLag.SkippedHasLeftTheRing` | crates/rs1090-serve/src/broadcaster.rs:43-53 | Whatever a lagging receiver or a late reconnect skips is in the ring no more. |
| `ReplayLag.BeyondStays` | crates/rs1090-serve/src/server.rs:291-395 | However the run goes on, reconnects and stored ids included, what is out of reach of the ring and the cursor is never delivered. |
| `ReplayLag.SkippedIsLost` | crates/rs1090-serve/src/broadcaster.rs:43-53 | A skipped event that was neither received nor on the wire is never received on any later connection. |
| `ReplayLag.LosesIff` | crates/rs1090-serve/src/server.rs:291-348 | In a run without a miss so far, for any filter on events, a lag or a late reconnect loses a passing event for good exactly when one lies between where the client stood and the end of the skip. |
| `ReplayLag.LagLosesIff` | crates/rs1090-serve/src/broadcaster.rs:43-53 | Without a filter the lag loses something exactly when the last 4096 events start after the last one emitted. |
| `ReplayLag.LaggingRun` | crates/rs1090-serve/src/broadcaster.rs:18-22 | A run in which a client reads nothing while 4097 events are sent, and so loses one for good. |
| `ReplayLag.StoredIdIsFloor` | crates/rs1090-serve/src/server.rs:291-345 | From any stored id, even one the server has not reached, as after its restart: no event up to that id is ever received, and without a miss exactly the passing ones after it are. |
| `Beast.PushEscaped` | crates/rs1090-serve/src/beast.rs:124-131 | Every marker byte is doubled. |
| `Beast.EncodeBeastFrame` | crates/rs1090-serve/src/beast.rs:101-121 | A frame appends marker, escaped header and escaped bytes; other lengths append nothing. |
| `Beast.EncodedBytes` | crates/rs1090-serve/src/beast.rs:101-121 | Before the doubling a message is 1A, 32 or 33 by length, the low 48 bits of the timestamp with the high byte first, the confidence and the frame; other lengths give nothing. |
| `Beast.OneEscaped` | crates/rs1090-serve/src/beast.rs:124-131 | Exactly the byte 1A is doubled. |
| `Beast.TakeEscaped` | crates/rs1090-serve/src/beast.rs:22-23 | Escaped bytes read back, whatever follows. |
| `Beast.ParseAllEncoded` | crates/rs1090-serve/src/beast.rs:101-131 | Any list of frames parses back to its modes, timestamps, signals and bytes. |
| `Beast.EncodingIsUnique` | crates/rs1090-serve/src/beast.rs:101-131 | Equal encodings carry equal lists. |
| `Beast.TimestampIsExactIff` | crates/rs1090-serve/src/beast.rs:133-142 | The timestamp is the true number of ticks exactly up to 23,456,248,059,221,333 ns, and is zero at the next nanosecond. |
| `Beast.TimestampIsMonotone` | crates/rs1090-serve/src/beast.rs:133-142 | It never runs backwards between two times before that. |
| `Gdl90.BuildCrcTable` | crates/rs1090-serve/src/gdl90.rs:118-136 | Each entry is eight shifts of its byte. |
| `Gdl90.Crc16Ccitt` | crates/rs1090-serve/src/gdl90.rs:107-114 | The table-driven CRC equals the bitwise one for every byte string. |
| `Gdl90.GeneratorIs1021` | crates/rs1090-serve/src/gdl90.rs:103-136 | The message 01 has the CRC 1021, the generator. |
| `Gdl90.ResidueIff` | crates/rs1090-serve/src/gdl90.rs:107-114 | Two bytes appended to a message bring its CRC to zero exactly when they are that CRC, high byte first. |
| `Gdl90.LowByteFirst` | crates/rs1090-serve/src/gdl90.rs:143-147 | On the wire the low byte of the CRC comes first. |
| `Gdl90.FrameMessage` | crates/rs1090-serve/src/gdl90.rs:142-160 | A message is framed as flag, stuffed payload and CRC, flag. |
| `Gdl90.OneStuffed` | crates/rs1090-serve/src/gdl90.rs:151-156 | 7E becomes 7D 5E, 7D becomes 7D 5D, and every other byte stays. |
| `Gdl90.FrameRoundTrip` | crates/rs1090-serve/src/gdl90.rs:138-160 | For every payload the frame of section 2.2 of the GDL 90 Data Interface Specification has no inner flag and unframes to the payload and its CRC, low byte first. |

## Left out

- Floating point: positions, half-bit averages and window sizes are exact; rounding in f64 is not modelled, nor are `nl_formula`, speed and heading from the components of an airborne velocity, and GDL 90 semicircles. Surface speeds and tracks are exact.
- Integer width of the counters and event ids (u64) and of the CPR zone indices (i64): unbounded here; the u32 accumulator of the noise floor is modelled with its wrap-around.
- Preamble detection at 2.4 MS/s: any detector; its patterns and signal estimates are quality claims.
- The number of samples consumed and the carry at 2.4 MS/s: the code keeps the largest frame length rather than a position, so chunk independence is not claimed there.
- Uniqueness of two-bit corrections: the first matching pair is proved, not that it is the only one.
- Sources, sockets, the web server, metrics, clocks and configuration: inputs, times and filter decisions are parameters. The broadcast channel is a log with one cursor per receiver.
- Aircraft records are values that the tracker's methods pass along and store, not objects with identity; the code holds one exclusive reference at a time, so no aliasing is lost.
- The magnitude function: chunks are sequences of magnitudes.
- The stream's filters: those on type and address are any function of the event; for box, altitude and radius, which look up the aircraft's position at the time, each event passes or not in any pattern, and only the order of the ids and the losses are claimed.
- `crc_failed`: the tracker never increments it, so it is not among the counters.
- The per-client loop of the Beast server, which sends only clean and corrected frames: the encoding of any frame is modelled.
- Traffic reports, heartbeat and identification contents of GDL 90, AVR text, Bluetooth, pages and the iOS views: not modelled.
