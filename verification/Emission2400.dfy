/**
 What the 2.4 MS/s scan hands to its callback and what it learns: where a preamble passes its tests
 and some phase gives a frame of any strength, one frame; if it is a clean squitter or all-call, its
 sender is known from there on, and that sender's replies are emitted.
 */
module Emission2400 {
  import opened Wrappers
  import opened Gf2
  import opened BitValue
  import opened Crc24Register
  import opened Crc24
  import opened Crc24Errors
  import opened Downlink
  import opened NoiseFloors
  import opened Slicer2400
  import opened Process2400
  import opened Gate2400

  /** The samples of a preamble that no pulse reaches. */
  predicate IsGap(k: int) {
    k in {5, 6, 7, 8, 14, 15, 16, 17, 18}
  }

  /** The detector's preamble has a signal of at least 1.5 times its noise, and quiet gaps below its pulses. */
  predicate Detects(detect: Detector, mag: seq<Sample>, j: nat, high: nat) {
    && j + 19 <= |mag|
    && var hit := detect(mag[j..j + 19]);
       && hit.Some? && hit.value.high == high && 2 * hit.value.baseSignal >= 3 * hit.value.baseNoise
       && forall i | j <= i < j + 19 && IsGap(i - j) :: mag[i] < high
  }

  lemma HitIff(detect: Detector, mag: seq<Sample>, j: nat, high: nat)
    requires j + 19 <= |mag|
    ensures HitAt(detect, mag, j) == Some(high) <==> Detects(detect, mag, j, high)
  {
    var p := mag[j..j + 19];
    var hit := detect(p);
    assert forall k | 0 <= k < 19 :: p[k] == mag[j + k];
    if hit.Some? && !QuietViolated(p, hit.value.high) {
      assert forall i | j <= i < j + 19 && IsGap(i - j) :: mag[i] == p[i - j] < hit.value.high;
    }
  }

  /** What a frame adds to the senders heard: the checksum of bytes 1 to 3 of a checked DF 11, 17 or 18. */
  function Heard(r: DemodResult): set<Register> {
    if !r.crc.Failed? && RawValue(r.df) in {11, 17, 18} then {Crc(r.bytes[1..4])} else {}
  }

  lemma LearnIs(seen: set<Register>, r: DemodResult)
    ensures Learn(seen, r) == seen + Heard(r)
  {
    hide Crc, RawValue;
  }

  /** The scan after `r` was emitted at `j`. */
  function After(detect: Detector, mag: seq<Sample>, min: byte, j: nat, s: ScanState, r: DemodResult): ScanState
    requires j < |mag|
  {
    Scan(detect, mag, min, j + 19 + FrameBytes(r.df) * 96 / 5,
         ScanState(s.frames + [r], s.seen + Heard(r), Next(s.acc, DEFAULT_SHIFT, mag[j])))
  }

  /**
   How a scan goes on. It ends where fewer than 155 samples are left. Behind a preamble that passes, the
   chosen frame is emitted if the preamble is bright enough, and its sender is heard; otherwise nothing
   is emitted or learnt and the scan moves one sample on.
   */
  lemma ScanStep(detect: Detector, mag: seq<Sample>, min: byte, j: nat, s: ScanState, high: nat)
    ensures j + 155 > |mag| ==> Scan(detect, mag, min, j, s) == s
    ensures j + 155 <= |mag| ==>
              var whole, best := Scan(detect, mag, min, j, s), Best(mag, j, 8, high, s.seen);
              && (Detects(detect, mag, j, high) && best.Some? && best.value.result.confidence >= min ==>
                    whole == After(detect, mag, min, j, s, best.value.result))
              && ((forall h: nat :: !Detects(detect, mag, j, h))
                  || (Detects(detect, mag, j, high) && (best.None? || best.value.result.confidence < min)) ==>
                    whole == Scan(detect, mag, min, j + 1, s.(acc := Next(s.acc, DEFAULT_SHIFT, mag[j]))))
  {
    hide HitAt, Best, Next, Detects, Heard, Learn;
    if j + 155 <= |mag| {
      HitIff(detect, mag, j, high);
      var hit := HitAt(detect, mag, j);
      if hit.Some? {
        HitIff(detect, mag, j, hit.value);
        var best := Best(mag, j, 8, high, s.seen);
        if hit.value == high && best.Some? {
          LearnIs(s.seen, best.value.result);
          AdvanceOfBest(mag, j, high, s.seen);
        }
      }
    }
  }

  /** The frame chosen moves the scan past its preamble and its samples, and is as sure as the preamble is bright. */
  lemma AdvanceOfBest(mag: seq<Sample>, j: nat, high: nat, seen: set<Register>)
    requires Best(mag, j, 8, high, seen).Some?
    ensures var r := Best(mag, j, 8, high, seen).value.result;
            r.advance == 19 + FrameBytes(r.df) * 96 / 5 && r.confidence == (if high >= 2040 then 255 else high / 8)
  {
    hide Best, PrefixAt, FrameAt, Diagnose, Score, FrameBytes, HasCleanCrc;
    var p := BestIsFirstMaximum(mag, j, 8, high, seen);
  }

  // --- Emitted frames and heard senders stay -----------------------------------------------------

  lemma {:induction false} ScanGrows(detect: Detector, mag: seq<Sample>, min: byte, j: nat, s: ScanState)
    ensures var t := Scan(detect, mag, min, j, s); s.frames <= t.frames && s.seen <= t.seen
    decreases |mag| - j
  {
    hide ResultAt, Next, Learn;
    if j + LOOKAHEAD_SHORT <= |mag| {
      var t := s.(acc := Next(s.acc, DEFAULT_SHIFT, mag[j]));
      match ResultAt(detect, mag, min, j, s.seen)
      case None =>
        ScanGrows(detect, mag, min, j + 1, t);
      case Some(r) =>
        LearnIs(s.seen, r);
        ScanGrows(detect, mag, min, j + r.advance, Emit(t, r));
    }
  }

  /** The next frame emitted is `r`, and whatever follows, its sender stays known if it named one. */
  predicate EmitsNext(detect: Detector, mag: seq<Sample>, min: byte, j: nat, s: ScanState, r: DemodResult) {
    var t := Scan(detect, mag, min, j, s);
    && j < |mag| && t == After(detect, mag, min, j, s, r)
    && |t.frames| > |s.frames| && t.frames[..|s.frames|] == s.frames && t.frames[|s.frames|] == r
    && s.seen + Heard(r) <= t.seen
  }

  lemma BestIsEmitted(detect: Detector, mag: seq<Sample>, min: byte, j: nat, s: ScanState, high: nat)
    requires j + 155 <= |mag| && Detects(detect, mag, j, high) && Best(mag, j, 8, high, s.seen).Some?
    requires Best(mag, j, 8, high, s.seen).value.result.confidence >= min
    ensures EmitsNext(detect, mag, min, j, s, Best(mag, j, 8, high, s.seen).value.result)
  {
    hide Best, Detects, Heard, Scan, Next, FrameBytes;
    var r := Best(mag, j, 8, high, s.seen).value.result;
    ScanStep(detect, mag, min, j, s, high);
    ScanGrows(detect, mag, min, j + 19 + FrameBytes(r.df) * 96 / 5,
              ScanState(s.frames + [r], s.seen + Heard(r), Next(s.acc, DEFAULT_SHIFT, mag[j])));
  }

  // --- A clean transmission is emitted and teaches -------------------------------------------------

  /** A clean squitter or all-call of its format's length. */
  predicate IsCleanSquitter(frame: seq<byte>) {
    && |frame| > 0 && IsClean(frame)
    && ((frame[0] / 8 == 11 && |frame| == 7) || (frame[0] / 8 in {17, 18} && |frame| == 14))
  }

  lemma CleanSquitterFormat(frame: seq<byte>)
    requires IsCleanSquitter(frame)
    ensures var df := FromFirstByte(frame[0]); HasCleanCrc(df) && |frame| == FrameBytes(df)
  {
    hide IsClean;
  }

  lemma CleanChosenTeaches(mag: seq<Sample>, j: nat, high: nat, seen: set<Register>)
    requires Best(mag, j, 8, high, seen).Some? && Best(mag, j, 8, high, seen).value.result.crc == Clean
    ensures RawValue(Best(mag, j, 8, high, seen).value.result.df) in {11, 17, 18}
  {
    hide Best, PrefixAt, FrameAt, Diagnose, Score, FrameBytes;
    var p := BestIsFirstMaximum(mag, j, 8, high, seen);
  }

  /** No phase before `phase` reads a clean frame. */
  predicate FirstClean(mag: seq<Sample>, j: nat, phase: nat, high: nat, seen: set<Register>) {
    forall q: nat | 4 <= q < phase && q <= 8 ::
      var c := Candidate(mag, j, q, high, seen); c.Some? ==> c.value.result.crc != Clean
  }

  /**
   A clean DF 11, 17 or 18 frame that reaches the buffer as a pulse-position waveform behind a
   preamble that passes: the next frame emitted is clean, its sender is known afterwards, and if no
   earlier phase reads a clean frame too, it is the frame sent.
   */
  lemma CleanTransmissionIsEmitted(detect: Detector, mag: seq<Sample>, j: nat, s: ScanState, phase: nat,
                                   frame: seq<byte>, high: nat, pulse: Waveform, floor: real, h: real)
    returns (r: DemodResult)
    requires Detects(detect, mag, j, high)
    requires 4 <= phase <= 8 && Carries(mag, j, phase, frame, pulse, floor, h) && IsCleanSquitter(frame)
    ensures EmitsNext(detect, mag, 0, j, s, r)
    ensures r.crc == Clean && IsClean(FrameProper(r)) && RawValue(r.df) in {11, 17, 18}
    ensures Crc(r.bytes[1..4]) in Scan(detect, mag, 0, j, s).seen
    ensures FirstClean(mag, j, phase, high, s.seen) ==> FrameProper(r) == frame
  {
    assert j + 155 <= |mag|;
    hide Best, Detects, Carries, FrameProper, IsClean, Candidate, Crc, Scan, RawValue, After;
    CleanSquitterFormat(frame);
    hide HasCleanCrc, FrameBytes, FromFirstByte, IsCleanSquitter;
    CleanTransmissionIsChosen(mag, j, phase, frame, high, s.seen, pulse, floor, h);
    r := Best(mag, j, 8, high, s.seen).value.result;
    CleanChosenTeaches(mag, j, high, s.seen);
    BestIsEmitted(detect, mag, 0, j, s, high);
    if FirstClean(mag, j, phase, high, s.seen) {
      FirstCleanIsChosen(mag, j, phase, high, s.seen);
    }
  }

  lemma CleanIsStrongest(mag: seq<Sample>, j: nat, q: nat, high: nat, seen: set<Register>)
    requires 4 <= q <= 8
    ensures StrengthAt(mag, j, q, high, seen) <= 3
    ensures StrengthAt(mag, j, q, high, seen) == 3 <==>
              Candidate(mag, j, q, high, seen).Some? && Candidate(mag, j, q, high, seen).value.result.crc == Clean
  {
    hide Candidate, Crc, FrameProper;
  }

  lemma FirstCleanIsChosen(mag: seq<Sample>, j: nat, phase: nat, high: nat, seen: set<Register>)
    requires 4 <= phase <= 8 && FirstClean(mag, j, phase, high, seen)
    requires var c := Candidate(mag, j, phase, high, seen); c.Some? && c.value.result.crc == Clean
    ensures Best(mag, j, 8, high, seen) == Candidate(mag, j, phase, high, seen)
  {
    hide Candidate, Best, StrengthAt;
    var p := EarliestOfTheStrongest(mag, j, high, seen);
    CleanIsStrongest(mag, j, phase, high, seen);
    CleanIsStrongest(mag, j, if 4 <= p <= 8 then p else 4, high, seen);
  }

  // --- Replies ---------------------------------------------------------------------------------

  /** A reply: an address-XORed format of its own length. */
  predicate IsReply(frame: seq<byte>) {
    && |frame| > 0
    && ((frame[0] / 8 in {0, 4, 5} && |frame| == 7) || (frame[0] / 8 in {16, 20, 21} && |frame| == 14))
  }

  lemma ReplyFormat(frame: seq<byte>)
    requires IsReply(frame)
    ensures var df := FromFirstByte(frame[0]); !HasCleanCrc(df) && !df.Reserved? && |frame| == FrameBytes(df)
  {
  }

  /** A frame carried on the air behind the guards is what its phase reads. */
  lemma CarriedIsRead(mag: seq<Sample>, j: nat, phase: nat, frame: seq<byte>, high: nat, seen: set<Register>,
                      pulse: Waveform, floor: real, h: real)
    requires 4 <= phase <= 8 && Carries(mag, j, phase, frame, pulse, floor, h)
    requires |frame| > 0 && !FromFirstByte(frame[0]).Reserved? && |frame| == FrameBytes(FromFirstByte(frame[0]))
    ensures Candidate(mag, j, phase, high, seen) == Some(Assess(frame, FromFirstByte(frame[0]), high, seen))
  {
    hide ReceivesBits, Transmits, Diagnose, RuleBits, FrameProper, FromFirstByte, Assess;
    var base := j + PREAMBLE_SAMPLES_2400;
    var df := FromFirstByte(frame[0]);
    var n := |frame|;
    ShortGuardCovers(mag, base, phase);
    GuardsCover(mag, base, phase, n);
    SlicedIsSent(mag, StartFifth(base, phase), frame, 1, pulse, floor, h);
    SlicedIsSent(mag, StartFifth(base, phase), frame, n, pulse, floor, h);
    assert frame[..n] == frame && frame[..1][0] == frame[0];
  }

  lemma AssessReply(frame: seq<byte>, high: nat, seen: set<Register>)
    requires IsReply(frame)
    ensures var r := Assess(frame, FromFirstByte(frame[0]), high, seen).result;
            && FrameProper(r) == frame && r.crc == Failed && RawValue(r.df) == frame[0] / 8 && Heard(r) == {}
            && Strength(r, seen) == if Crc(frame) in seen then 1 else 0
  {
    ReplyFormat(frame);
    FormatOfByte(frame[0]);
    hide FromFirstByte, RawValue, Crc, Diagnose, Score;
    assert Padded(frame)[..|frame|] == frame;
  }

  /** Every other phase reads nothing that counts. */
  predicate OnlyAt(mag: seq<Sample>, j: nat, phase: nat, high: nat, seen: set<Register>) {
    forall q: nat | 4 <= q <= 8 && q != phase :: StrengthAt(mag, j, q, high, seen) == 0
  }

  lemma OnlyCandidateIsChosen(mag: seq<Sample>, j: nat, phase: nat, high: nat, seen: set<Register>)
    requires 4 <= phase <= 8 && OnlyAt(mag, j, phase, high, seen)
    ensures StrengthAt(mag, j, phase, high, seen) == 0 ==> Best(mag, j, 8, high, seen).None?
    ensures StrengthAt(mag, j, phase, high, seen) > 0 ==>
              Best(mag, j, 8, high, seen).Some? && Best(mag, j, 8, high, seen) == Candidate(mag, j, phase, high, seen)
  {
    hide Candidate, Best, StrengthAt;
    var p := EarliestOfTheStrongest(mag, j, high, seen);
  }

  /**
   The gate, both ways: a reply whose parity was XORed with address `a`, the only candidate at its
   position, is emitted as sent exactly when `a` has been heard; else nothing is emitted or learnt there.
   */
  lemma ReplyIsEmittedIff(detect: Detector, mag: seq<Sample>, j: nat, s: ScanState, phase: nat, data: seq<byte>,
                          a: Register, high: nat, pulse: Waveform, floor: real, h: real)
    returns (r: DemodResult)
    requires Detects(detect, mag, j, high)
    requires var frame := data + WordBytes(Xor(Crc(data), a));
             4 <= phase <= 8 && Carries(mag, j, phase, frame, pulse, floor, h) && IsReply(frame)
    requires OnlyAt(mag, j, phase, high, s.seen)
    ensures FrameProper(r) == data + WordBytes(Xor(Crc(data), a)) && r.crc == Failed
    ensures Crc(WordBytes(a)) in s.seen ==> EmitsNext(detect, mag, 0, j, s, r)
    ensures Crc(WordBytes(a)) !in s.seen ==>
              j < |mag| && Scan(detect, mag, 0, j, s)
                        == Scan(detect, mag, 0, j + 1, s.(acc := Next(s.acc, DEFAULT_SHIFT, mag[j])))
  {
    assert j + 155 <= |mag|;
    hide Best, Detects, Carries, FrameProper, Candidate, Crc, Scan, RawValue, Strength, Assess, OnlyAt, Next, WordBytes;
    var frame := data + WordBytes(Xor(Crc(data), a));
    ReplyFormat(frame);
    hide HasCleanCrc, FrameBytes, FromFirstByte, IsReply, EmitsNext;
    CarriedIsRead(mag, j, phase, frame, high, s.seen, pulse, floor, h);
    AssessReply(frame, high, s.seen);
    AddressSyndrome(data, a);
    r := Candidate(mag, j, phase, high, s.seen).value.result;
    OnlyCandidateIsChosen(mag, j, phase, high, s.seen);
    if Crc(WordBytes(a)) in s.seen {
      BestIsEmitted(detect, mag, 0, j, s, high);
    } else {
      ScanStep(detect, mag, 0, j, s, high);
    }
  }
}
