/**
 The 2.4 MS/s scan: at every position an arbitrary preamble detector proposes a candidate,
 the slicer tries five starting phases, the best candidate by CRC strength is emitted, and
 address-XORed replies pass only if their syndrome belongs to an address already heard.
 */
module Process2400 {
  import opened Wrappers
  import opened BitValue
  import opened Crc24Register
  import opened Crc24
  import opened Downlink
  import opened NoiseFloors
  import opened Slicer2400

  /** What the preamble detector reports: the pulse level and its signal and noise sums. */
  datatype PreambleHit = PreambleHit(high: nat, baseSignal: nat, baseNoise: nat)

  /** Any preamble detector over 19 samples. */
  type Detector = seq<Sample> -> Option<PreambleHit>

  /** A frame buffer of 14 bytes; a short frame uses the first seven. */
  type Buffer14 = b: seq<byte> | |b| == MAX_FRAME_BYTES witness seq(14, _ => 0)

  datatype DemodResult =
    DemodResult(bytes: Buffer14, df: DownlinkFormat, crc: CrcOutcome, confidence: byte, advance: nat)

  /** The frame proper. */
  function FrameProper(r: DemodResult): (f: seq<byte>)
    ensures |f| == FrameBytes(r.df)
  {
    r.bytes[..FrameBytes(r.df)]
  }

  datatype Scored = Scored(result: DemodResult, score: nat)

  // --- Candidates ----------------------------------------------------------------------

  function Min(a: nat, b: nat): nat {
    if a <= b then a else b
  }

  function Confidence(high: nat): byte {
    Min(high, 255 * 8) / 8
  }

  /** The bytes the slicer reads. */
  function Sliced(mag: seq<Sample>, start: nat, n: nat): (b: seq<byte>)
    requires Covers(mag, start, 8 * n)
    ensures |b| == n
  {
    PackBytes(RuleBits(mag, start, 8 * n))
  }

  function Padded(frame: seq<byte>): Buffer14
    requires |frame| <= MAX_FRAME_BYTES
  {
    frame + seq(MAX_FRAME_BYTES - |frame|, _ => 0)
  }

  /** CRC strength first, then brightness; 0 is rejected. */
  function Score(crc: CrcOutcome, known: bool, high: nat): nat {
    var h := Min(high, 0x100_0000);
    match crc
    case Clean => 1_000_000 + h
    case Corrected(_) => 500_000 + h
    case Failed => if known then 250_000 + h else 0
  }

  /** The downlink format read from the first byte at one starting phase, if the buffer covers a short frame. */
  function PrefixAt(mag: seq<Sample>, j: nat, phase: nat): (df: Option<DownlinkFormat>)
    requires 4 <= phase <= 8
    ensures df.Some? ==> j + PREAMBLE_SAMPLES_2400 + phase / 5 + SHORT_FRAME_BYTES * 19 + 4 <= |mag|
  {
    var base := j + PREAMBLE_SAMPLES_2400;
    if base + phase / 5 + SHORT_FRAME_BYTES * 19 + 4 > |mag| then None
    else
      ShortGuardCovers(mag, base, phase);
      Some(FromFirstByte(Sliced(mag, StartFifth(base, phase), 1)[0]))
  }

  /** What slicing a whole frame of format `df` gives, if the buffer covers it. */
  function FrameAt(mag: seq<Sample>, j: nat, phase: nat, df: DownlinkFormat): (f: Option<seq<byte>>)
    requires 4 <= phase <= 8 && PrefixAt(mag, j, phase).Some?
    ensures f.Some? ==> |f.value| == FrameBytes(df)
  {
    var base := j + PREAMBLE_SAMPLES_2400;
    if FrameBytes(df) == LONG_FRAME_BYTES && base + phase / 5 + LONG_FRAME_BYTES * 20 + 4 > |mag| then None
    else
      GuardsCover(mag, base, phase, FrameBytes(df));
      Some(Sliced(mag, StartFifth(base, phase), FrameBytes(df)))
  }

  lemma GuardsCover(mag: seq<Sample>, base: nat, phase: nat, n: nat)
    requires phase <= 8 && base + phase / 5 + SHORT_FRAME_BYTES * 19 + 4 <= |mag|
    requires n == SHORT_FRAME_BYTES || (n == LONG_FRAME_BYTES && base + phase / 5 + LONG_FRAME_BYTES * 20 + 4 <= |mag|)
    ensures Covers(mag, StartFifth(base, phase), 8 * n)
  {
    if n == SHORT_FRAME_BYTES {
      ShortGuardCovers(mag, base, phase);
    } else {
      LongGuardCovers(mag, base, phase);
    }
  }

  /** The candidate made of sliced bytes. */
  function Assess(frame: seq<byte>, df: DownlinkFormat, high: nat, seen: set<Register>): (s: Scored)
    requires |frame| == FrameBytes(df)
    ensures s.result.advance == PREAMBLE_SAMPLES_2400 + FrameBytes(df) * 96 / 5
  {
    var (crc, fixed) := if HasCleanCrc(df) then Diagnose(frame, 1) else (Failed, frame);
    var known := !HasCleanCrc(df) && Crc(fixed) in seen;
    var r := DemodResult(Padded(fixed), df, crc, Confidence(high),
                         PREAMBLE_SAMPLES_2400 + |frame| * 8 * 12 / 5);
    Scored(r, Score(crc, known, high))
  }

  function Candidate(mag: seq<Sample>, j: nat, phase: nat, high: nat, seen: set<Register>): (c: Option<Scored>)
    requires 4 <= phase <= 8
    ensures c.Some? ==> c.value.result.advance > 0
  {
    var df := PrefixAt(mag, j, phase);
    if df.None? || df.value.Reserved? then None
    else match FrameAt(mag, j, phase, df.value)
      case None => None
      case Some(frame) => Some(Assess(frame, df.value, high, seen))
  }

  /** The candidate kept after phases 4 to `last`: a later one must score strictly more. */
  function Best(mag: seq<Sample>, j: nat, last: nat, high: nat, seen: set<Register>): (best: Option<Scored>)
    requires 3 <= last <= 8
    ensures best.Some? ==> best.value.score > 0 && best.value.result.advance > 0
  {
    if last == 3 then None
    else
      var b := Best(mag, j, last - 1, high, seen);
      match Candidate(mag, j, last, high, seen)
      case None => b
      case Some(c) => if (b.None? || c.score > b.value.score) && c.score > 0 then Some(c) else b
  }

  // --- The scan ------------------------------------------------------------------------

  datatype ScanState = ScanState(frames: seq<DemodResult>, seen: set<Register>, acc: nat)

  /** One of the samples that must be quiet reaches the pulse level. */
  predicate QuietViolated(p: seq<Sample>, high: nat)
    requires |p| == PREAMBLE_SAMPLES_2400
  {
    || p[5] >= high || p[6] >= high || p[7] >= high || p[8] >= high
    || p[14] >= high || p[15] >= high || p[16] >= high || p[17] >= high || p[18] >= high
  }

  /** The pulse level at position `j`, if the preamble there passes all tests. */
  function HitAt(detect: Detector, mag: seq<Sample>, j: nat): Option<nat>
    requires j + PREAMBLE_SAMPLES_2400 <= |mag|
  {
    var p := mag[j..j + PREAMBLE_SAMPLES_2400];
    match detect(p)
    case None => None
    case Some(hit) =>
      if hit.baseSignal * 2 < 3 * hit.baseNoise || QuietViolated(p, hit.high) then None else Some(hit.high)
  }

  /** A clean or corrected DF 11, 17 or 18 names its sender in bytes 1 to 3. */
  predicate Teaches(r: DemodResult) {
    !r.crc.Failed? && (RawValue(r.df) == 11 || RawValue(r.df) == 17 || RawValue(r.df) == 18)
  }

  function SenderKey(r: DemodResult): Register {
    Crc(r.bytes[1..4])
  }

  function Learn(seen: set<Register>, r: DemodResult): set<Register> {
    if Teaches(r) then seen + {SenderKey(r)} else seen
  }

  function Emit(s: ScanState, r: DemodResult): ScanState {
    ScanState(s.frames + [r], Learn(s.seen, r), s.acc)
  }

  /** The result emitted at position `j`, if any. */
  function ResultAt(detect: Detector, mag: seq<Sample>, min: byte, j: nat, seen: set<Register>): (r: Option<DemodResult>)
    requires j + LOOKAHEAD_SHORT <= |mag|
    ensures r.Some? ==> r.value.advance > 0
  {
    match HitAt(detect, mag, j)
    case None => None
    case Some(high) =>
      match Best(mag, j, 8, high, seen)
      case None => None
      case Some(b) => if b.result.confidence >= min then Some(b.result) else None
  }

  /** The scan from position `j` to the end of the buffer. */
  function Scan(detect: Detector, mag: seq<Sample>, min: byte, j: nat, s: ScanState): ScanState
    decreases |mag| - j
  {
    if j + LOOKAHEAD_SHORT > |mag| then s
    else
      var t := s.(acc := Next(s.acc, DEFAULT_SHIFT, mag[j]));
      match ResultAt(detect, mag, min, j, s.seen)
      case None => Scan(detect, mag, min, j + 1, t)
      case Some(r) => Scan(detect, mag, min, j + r.advance, Emit(t, r))
  }

  // --- The code ------------------------------------------------------------------------

  class IcaoFilter {
    var seen: set<Register>

    constructor ()
      ensures seen == {}
    {
      seen := {};
    }

    method Add(addr: Register)
      modifies this
      ensures seen == old(seen) + {addr}
    {
      seen := seen + {addr};
    }
  }

  /** Checks the parity of a sliced frame, correcting one bit where the format allows, and scores it. */
  method AssessFrame(tables: Tables, bytes: seq<byte>, df: DownlinkFormat, high: nat, seen: set<Register>)
    returns (c: Scored)
    requires tables.Valid() && |bytes| == FrameBytes(df)
    ensures c == Assess(bytes, df, high, seen)
  {
    hide Diagnose, Score;
    var n := |bytes|;
    var buf := new byte[n](i requires 0 <= i < n => bytes[i]);
    assert buf[..] == bytes;
    var crc := Failed;
    if HasCleanCrc(df) {
      crc := tables.CheckWithDepth(buf, 1);
    }
    var syndrome := ComputeCrc24(tables.table, buf[..]);
    var known := !HasCleanCrc(df) && syndrome in seen;
    var result := DemodResult(Padded(buf[..]), df, crc, Confidence(high), PREAMBLE_SAMPLES_2400 + n * 8 * 12 / 5);
    c := Scored(result, Score(crc, known, high));
  }

  /** One starting phase: slice the prefix, then the frame, check it and score it. */
  method TryPhase(tables: Tables, mag: seq<Sample>, j: nat, phase: nat, high: nat, seen: set<Register>)
    returns (c: Option<Scored>)
    requires tables.Valid() && 4 <= phase <= 8
    ensures c == Candidate(mag, j, phase, high, seen)
  {
    hide RuleBits, Covers, FrameBits, Assess;
    var base := j + PREAMBLE_SAMPLES_2400;
    var maxPptr := base + phase / 5;
    if maxPptr + SHORT_FRAME_BYTES * 19 + 4 > |mag| {
      return None;
    }
    ShortGuardCovers(mag, base, phase);
    var prefix := SliceMessage(mag, base, phase, 1);
    SlicedIs(mag, StartFifth(base, phase), 1, prefix[..1]);
    var df := FromFirstByte(prefix[0]);
    if df.Reserved? {
      return None;
    }
    var n := FrameBytes(df);
    if n == LONG_FRAME_BYTES && maxPptr + LONG_FRAME_BYTES * 20 + 4 > |mag| {
      return None;
    }
    GuardsCover(mag, base, phase, n);
    var bytes := SliceMessage(mag, base, phase, n);
    SlicedIs(mag, StartFifth(base, phase), n, bytes[..n]);
    var scored := AssessFrame(tables, bytes[..n], df, high, seen);
    c := Some(scored);
  }

  lemma SlicedIs(mag: seq<Sample>, start: nat, n: nat, bytes: seq<byte>)
    requires Covers(mag, start, 8 * n) && FrameBits(bytes) == RuleBits(mag, start, 8 * n)
    ensures bytes == Sliced(mag, start, n)
  {
    PackBytesBits(RuleBits(mag, start, 8 * n));
    FrameBitsInjective(bytes, Sliced(mag, start, n));
  }

  method BestPhase(tables: Tables, mag: seq<Sample>, j: nat, high: nat, seen: set<Register>)
    returns (best: Option<Scored>)
    requires tables.Valid()
    ensures best == Best(mag, j, 8, high, seen)
  {
    hide Candidate;
    best := None;
    for phase := 4 to 9
      invariant best == Best(mag, j, phase - 1, high, seen)
    {
      var c := TryPhase(tables, mag, j, phase, high, seen);
      if c.Some? && (best.None? || c.value.score > best.value.score) && c.value.score > 0 {
        best := c;
      }
    }
  }

  /** Walks a buffer and hands every emitted result to the callback, here the list `frames`. */
  method Process(tables: Tables, detect: Detector, floor: NoiseFloor, filter: IcaoFilter, mag: seq<Sample>, min: byte)
    returns (frames: seq<DemodResult>)
    requires tables.Valid() && floor.Valid() && floor.shift == DEFAULT_SHIFT
    modifies floor`acc, filter
    ensures floor.Valid()
    ensures ScanState(frames, filter.seen, floor.acc)
         == Scan(detect, mag, min, 0, ScanState([], old(filter.seen), old(floor.acc)))
  {
    hide Best, Next;
    ghost var start := ScanState([], filter.seen, floor.acc);
    frames := [];
    if |mag| < LOOKAHEAD_SHORT {
      return;
    }
    var lastStart := |mag| - LOOKAHEAD_SHORT;
    var j := 0;
    while j <= lastStart
      invariant floor.Valid() && 0 <= j
      invariant Scan(detect, mag, min, 0, start)
             == Scan(detect, mag, min, j, ScanState(frames, filter.seen, floor.acc))
    {
      var _ := floor.Update(mag[j]);
      var preamble := mag[j..j + PREAMBLE_SAMPLES_2400];
      var hit := detect(preamble);
      if hit.None? {
        j := j + 1;
        continue;
      }
      if hit.value.baseSignal * 2 < 3 * hit.value.baseNoise {
        j := j + 1;
        continue;
      }
      if QuietViolated(preamble, hit.value.high) {
        j := j + 1;
        continue;
      }
      var best := BestPhase(tables, mag, j, hit.value.high, filter.seen);
      if best.Some? {
        var res := best.value.result;
        if res.confidence >= min {
          if !res.crc.Failed? {
            var dfRaw := RawValue(res.df);
            if dfRaw == 11 || dfRaw == 17 || dfRaw == 18 {
              var key := ComputeCrc24(tables.table, [res.bytes[1], res.bytes[2], res.bytes[3]]);
              assert [res.bytes[1], res.bytes[2], res.bytes[3]] == res.bytes[1..4];
              filter.Add(key);
            }
          }
          frames := frames + [res];
          j := j + res.advance;
          continue;
        }
      }
      j := j + 1;
    }
  }
}
