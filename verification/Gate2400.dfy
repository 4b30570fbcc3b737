/**
 What the 2.4 MS/s scan guarantees about every frame it emits, for every preamble detector:
 the best phase wins, corrected frames check out, and an address-XORed reply is emitted only
 after its own sender was heard in an earlier emitted squitter or all-call.
 */
module Gate2400 {
  import opened Wrappers
  import opened Gf2
  import opened BitValue
  import opened Crc24Register
  import opened Crc24
  import opened Crc24Errors
  import opened Downlink
  import opened NoiseFloors
  import opened Slicer2400
  import opened Process2400

  // --- Choice of phase -------------------------------------------------------------------

  function ScoreAt(mag: seq<Sample>, j: nat, phase: nat, high: nat, seen: set<Register>): nat
    requires 4 <= phase <= 8
  {
    match Candidate(mag, j, phase, high, seen)
    case Some(c) => c.score
    case None => 0
  }

  /** `best` is the candidate of phase `p`, no phase scores more, and no earlier phase as much. */
  predicate IsFirstMaximum(mag: seq<Sample>, j: nat, last: nat, high: nat, seen: set<Register>, best: Scored, p: nat)
    requires 3 <= last <= 8
  {
    && 4 <= p <= last && best.score > 0
    && Candidate(mag, j, p, high, seen) == Some(best)
    && (forall q: nat | 4 <= q <= last :: ScoreAt(mag, j, q, high, seen) <= best.score)
    && (forall q: nat | 4 <= q < p :: ScoreAt(mag, j, q, high, seen) < best.score)
  }

  lemma {:induction false} BestIsFirstMaximum(mag: seq<Sample>, j: nat, last: nat, high: nat, seen: set<Register>)
    returns (p: nat)
    requires 3 <= last <= 8
    ensures var best := Best(mag, j, last, high, seen);
            match best
            case Some(b) => IsFirstMaximum(mag, j, last, high, seen, b, p)
            case None => forall q: nat | 4 <= q <= last :: ScoreAt(mag, j, q, high, seen) == 0
  {
    hide Candidate;
    p := 4;
    if last > 3 {
      var before := BestIsFirstMaximum(mag, j, last - 1, high, seen);
      var best := Best(mag, j, last, high, seen);
      p := if best == Best(mag, j, last - 1, high, seen) then before else last;
    }
  }

  // --- Every emitted frame ------------------------------------------------------------------

  /** What an emitted result satisfies, given the senders heard before it. */
  predicate Accepted(seen: set<Register>, r: DemodResult) {
    && !r.df.Reserved?
    && (HasCleanCrc(r.df) ==> !r.crc.Failed? && IsClean(FrameProper(r)))
    && (!HasCleanCrc(r.df) ==> r.crc.Failed? && Crc(FrameProper(r)) in seen)
    && (forall k | FrameBytes(r.df) <= k < MAX_FRAME_BYTES :: r.bytes[k] == 0)
  }

  lemma AssessedIsAccepted(frame: seq<byte>, df: DownlinkFormat, high: nat, seen: set<Register>)
    requires |frame| == FrameBytes(df) && !df.Reserved?
    ensures var a := Assess(frame, df, high, seen); a.score > 0 ==> Accepted(seen, a.result)
  {
    var a := Assess(frame, df, high, seen);
    if HasCleanCrc(df) {
      var (outcome, fixed) := Diagnose(frame, 1);
      assert FrameProper(a.result) == fixed;
      if outcome.Corrected? {
        hide Diagnose;
        CorrectionIsSound(frame, 1);
      }
    } else {
      assert FrameProper(a.result) == frame;
    }
  }

  lemma EmittedIsAccepted(detect: Detector, mag: seq<Sample>, min: byte, j: nat, seen: set<Register>)
    requires j + LOOKAHEAD_SHORT <= |mag|
    requires ResultAt(detect, mag, min, j, seen).Some?
    ensures Accepted(seen, ResultAt(detect, mag, min, j, seen).value)
  {
    hide Accepted, Assess, FrameAt, PrefixAt;
    var high := HitAt(detect, mag, j).value;
    var p := BestIsFirstMaximum(mag, j, 8, high, seen);
    var df := PrefixAt(mag, j, p).value;
    AssessedIsAccepted(FrameAt(mag, j, p, df).value, df, high, seen);
  }

  /** The senders heard once `frames` have been emitted. */
  function SeenAfter(frames: seq<DemodResult>): set<Register> {
    if |frames| == 0 then {} else Learn(SeenAfter(frames[..|frames| - 1]), frames[|frames| - 1])
  }

  /** Each frame was accepted against exactly the senders that the frames before it named. */
  predicate Gated(frames: seq<DemodResult>) {
    forall k | 0 <= k < |frames| :: Accepted(SeenAfter(frames[..k]), frames[k])
  }

  predicate Inv(s: ScanState) {
    s.seen == SeenAfter(s.frames) && Gated(s.frames)
  }

  lemma EmitKeepsInv(s: ScanState, r: DemodResult)
    requires Inv(s) && Accepted(s.seen, r)
    ensures Inv(Emit(s, r))
  {
    hide Accepted, Learn;
    var t := Emit(s, r).frames;
    assert t[..|s.frames|] == s.frames;
    forall k | 0 <= k < |t|
      ensures Accepted(SeenAfter(t[..k]), t[k])
    {
      if k < |s.frames| {
        assert t[..k] == s.frames[..k];
      }
    }
  }

  lemma {:induction false} ScanKeepsInv(detect: Detector, mag: seq<Sample>, min: byte, j: nat, s: ScanState)
    requires Inv(s)
    ensures Inv(Scan(detect, mag, min, j, s))
    decreases |mag| - j
  {
    hide ResultAt, Emit, Accepted, Gated, Next;
    if j + LOOKAHEAD_SHORT <= |mag| {
      var t := s.(acc := Next(s.acc, DEFAULT_SHIFT, mag[j]));
      match ResultAt(detect, mag, min, j, s.seen)
      case None =>
        ScanKeepsInv(detect, mag, min, j + 1, t);
      case Some(r) =>
        EmittedIsAccepted(detect, mag, min, j, s.seen);
        EmitKeepsInv(t, r);
        ScanKeepsInv(detect, mag, min, j + r.advance, Emit(t, r));
    }
  }

  /** A whole session: one buffer after another, with the filter, the floor and the log carried on. */
  function Session(detect: Detector, buffers: seq<seq<Sample>>, min: byte, acc: nat): ScanState {
    if |buffers| == 0 then ScanState([], {}, acc)
    else Scan(detect, buffers[|buffers| - 1], min, 0, Session(detect, buffers[..|buffers| - 1], min, acc))
  }

  lemma {:induction false} SessionIsGated(detect: Detector, buffers: seq<seq<Sample>>, min: byte, acc: nat)
    ensures Inv(Session(detect, buffers, min, acc))
  {
    hide Scan;
    if |buffers| > 0 {
      var n := |buffers| - 1;
      SessionIsGated(detect, buffers[..n], min, acc);
      ScanKeepsInv(detect, buffers[n], min, 0, Session(detect, buffers[..n], min, acc));
    }
  }

  /** A call that starts with an empty log appends the same frames that a running log gets. */
  lemma {:induction false} ScanAppends(detect: Detector, mag: seq<Sample>, min: byte, j: nat, s: ScanState,
                                       log: seq<DemodResult>)
    ensures var one, whole := Scan(detect, mag, min, j, s), Scan(detect, mag, min, j, s.(frames := log + s.frames));
            whole == one.(frames := log + one.frames)
    decreases |mag| - j
  {
    hide ResultAt, Next;
    if j + LOOKAHEAD_SHORT <= |mag| {
      var t := s.(acc := Next(s.acc, DEFAULT_SHIFT, mag[j]));
      match ResultAt(detect, mag, min, j, s.seen)
      case None =>
        ScanAppends(detect, mag, min, j + 1, t, log);
      case Some(r) =>
        ScanAppends(detect, mag, min, j + r.advance, Emit(t, r), log);
        assert (log + t.frames) + [r] == log + (t.frames + [r]);
    }
  }

  lemma {:induction false} HeardFrom(frames: seq<DemodResult>, key: Register) returns (i: nat)
    requires key in SeenAfter(frames)
    ensures i < |frames| && Teaches(frames[i]) && SenderKey(frames[i]) == key
  {
    hide SenderKey;
    var n := |frames| - 1;
    if Teaches(frames[n]) && SenderKey(frames[n]) == key {
      i := n;
    } else {
      i := HeardFrom(frames[..n], key);
    }
  }

  /**
   In every session, a reply whose parity was XORed with address `a` is emitted only after a
   clean or corrected DF 11, 17 or 18 frame whose address field is exactly `a`.
   */
  lemma ReplyNamesAnEarlierSender(detect: Detector, buffers: seq<seq<Sample>>, min: byte, acc: nat, k: nat,
                                  data: seq<byte>, a: Register) returns (i: nat)
    requires k < |Session(detect, buffers, min, acc).frames|
    requires var r := Session(detect, buffers, min, acc).frames[k];
             !HasCleanCrc(r.df) && FrameProper(r) == data + WordBytes(Xor(Crc(data), a))
    ensures var frames := Session(detect, buffers, min, acc).frames;
            i < k && Teaches(frames[i]) && IsClean(FrameProper(frames[i])) && frames[i].bytes[1..4] == WordBytes(a)
  {
    hide Session, Teaches, SeenAfter, Crc;
    SessionIsGated(detect, buffers, min, acc);
    var frames := Session(detect, buffers, min, acc).frames;
    AddressSyndrome(data, a);
    assert Accepted(SeenAfter(frames[..k]), frames[k]);
    i := HeardFrom(frames[..k], Crc(WordBytes(a)));
    assert Accepted(SeenAfter(frames[..i]), frames[i]);
    TeacherIsClean(SeenAfter(frames[..i]), frames[i]);
    SameKeySameAddress(frames[i].bytes[1..4], a);
  }

  lemma TeacherIsClean(seen: set<Register>, r: DemodResult)
    requires Accepted(seen, r) && Teaches(r)
    ensures IsClean(FrameProper(r))
  {
  }

  lemma SameKeySameAddress(bytes: seq<byte>, a: Register)
    requires |bytes| == 3 && Crc(bytes) == Crc(WordBytes(a))
    ensures bytes == WordBytes(a)
  {
    var b: Register := FrameBits(bytes);
    WordBytesBits(b);
    FrameBitsInjective(bytes, WordBytes(b));
    AddressFromSyndrome(b, a);
  }

  // --- A clean transmission is heard ------------------------------------------------------------

  /**
   The bits of `frame` as a waveform that begins `phase` fifths of a sample behind the 19 of the
   preamble, in a buffer that passes the guard for the frame's length.
   */
  predicate Carries(mag: seq<Sample>, j: nat, phase: nat, frame: seq<byte>, pulse: Waveform, floor: real, h: real) {
    var start := 5 * (j + 19) + phase;
    && h > 0.0 && Transmits(pulse, start, FrameBits(frame)) && ReceivesBits(mag, start, 8 * |frame|, pulse, floor, h)
    && j + 19 + phase / 5 + 137 <= |mag| && (|frame| == 14 ==> j + 19 + phase / 5 + 284 <= |mag|)
  }

  lemma TransmitsPrefix(pulse: Waveform, start: nat, bits: Bits, n: nat)
    requires n <= |bits| && Transmits(pulse, start, bits)
    ensures Transmits(pulse, start, bits[..n])
  {
    hide PulseOfBit;
  }

  lemma FrameBitsPrefix(frame: seq<byte>, n: nat)
    requires n <= |frame|
    ensures FrameBits(frame[..n]) == FrameBits(frame)[..8 * n]
  {
    FrameBitsConcat(frame[..n], frame[n..]);
    hide FrameBits;
    assert frame == frame[..n] + frame[n..];
  }

  lemma SlicedIsSent(mag: seq<Sample>, start: nat, frame: seq<byte>, n: nat, pulse: Waveform, floor: real, h: real)
    requires h > 0.0 && ReceivesBits(mag, start, 8 * |frame|, pulse, floor, h)
    requires Transmits(pulse, start, FrameBits(frame)) && n <= |frame| && Covers(mag, start, 8 * n)
    ensures Sliced(mag, start, n) == frame[..n]
  {
    hide ReceivesBits, RuleBits, Transmits, FrameBits, PackBytes, Covers;
    FrameBitsPrefix(frame, n);
    ReceivesPrefix(mag, start, 8 * |frame|, 8 * n, pulse, floor, h);
    TransmitsPrefix(pulse, start, FrameBits(frame), 8 * n);
    PackBytesBits(RuleBits(mag, start, 8 * n));
    SlicedMessageIsTransmitted(mag, start, frame[..n], Sliced(mag, start, n), pulse, floor, h);
  }

  /**
   A clean DF 11, 17 or 18 frame that reaches the buffer as a pulse-position waveform, with any
   floor and with noise below one fifth of the pulse height, makes its phase a clean candidate;
   so a clean frame is the one chosen at that position.
   */
  lemma CleanTransmissionIsChosen(mag: seq<Sample>, j: nat, phase: nat, frame: seq<byte>, high: nat,
                                  seen: set<Register>, pulse: Waveform, floor: real, h: real)
    requires 4 <= phase <= 8 && Carries(mag, j, phase, frame, pulse, floor, h)
    requires |frame| > 0 && HasCleanCrc(FromFirstByte(frame[0])) && |frame| == FrameBytes(FromFirstByte(frame[0]))
    requires IsClean(frame)
    ensures var c := Candidate(mag, j, phase, high, seen);
            c.Some? && FrameProper(c.value.result) == frame && c.value.result.crc == Clean
    ensures var b := Best(mag, j, 8, high, seen);
            b.Some? && b.value.result.crc == Clean && IsClean(FrameProper(b.value.result))
  {
    hide ReceivesBits, Transmits, Diagnose, RuleBits, FrameProper;
    var base := j + PREAMBLE_SAMPLES_2400;
    var df := FromFirstByte(frame[0]);
    var n := |frame|;
    ShortGuardCovers(mag, base, phase);
    GuardsCover(mag, base, phase, n);
    SlicedIsSent(mag, StartFifth(base, phase), frame, 1, pulse, floor, h);
    SlicedIsSent(mag, StartFifth(base, phase), frame, n, pulse, floor, h);
    assert frame[..n] == frame && frame[..1][0] == frame[0];
    assert PrefixAt(mag, j, phase) == Some(df);
    assert FrameAt(mag, j, phase, df) == Some(frame);
    AssessClean(frame, df, high, seen);
    assert Candidate(mag, j, phase, high, seen) == Some(Assess(frame, df, high, seen));
    CleanCandidateWins(mag, j, phase, high, seen);
  }

  lemma AssessClean(frame: seq<byte>, df: DownlinkFormat, high: nat, seen: set<Register>)
    requires HasCleanCrc(df) && |frame| == FrameBytes(df) && IsClean(frame)
    ensures var a := Assess(frame, df, high, seen);
            a.result.crc == Clean && FrameProper(a.result) == frame && a.score >= 1_000_000
  {
    assert Padded(frame)[..|frame|] == frame;
  }

  /** Clean beats corrected, corrected beats a known address; an unknown one never counts. */
  function Strength(r: DemodResult, seen: set<Register>): nat {
    match r.crc
    case Clean => 3
    case Corrected(_) => 2
    case Failed => if !HasCleanCrc(r.df) && Crc(FrameProper(r)) in seen then 1 else 0
  }

  function StrengthAt(mag: seq<Sample>, j: nat, phase: nat, high: nat, seen: set<Register>): nat
    requires 4 <= phase <= 8
  {
    match Candidate(mag, j, phase, high, seen)
    case Some(c) => Strength(c.result, seen)
    case None => 0
  }

  /** The score of a strength at one brightness. */
  function ScoreOf(strength: nat, high: nat): nat {
    match strength
    case 0 => 0
    case 1 => 250_000 + Min(high, 0x100_0000)
    case 2 => 500_000 + Min(high, 0x100_0000)
    case _ => 1_000_000 + Min(high, 0x100_0000)
  }

  lemma ScoreIsByStrength(mag: seq<Sample>, j: nat, phase: nat, high: nat, seen: set<Register>)
    requires 4 <= phase <= 8
    ensures StrengthAt(mag, j, phase, high, seen) <= 3
    ensures ScoreAt(mag, j, phase, high, seen) == ScoreOf(StrengthAt(mag, j, phase, high, seen), high)
  {
    hide PrefixAt, FrameAt, Diagnose, Crc;
    var df := PrefixAt(mag, j, phase);
    if df.Some? && !df.value.Reserved? && FrameAt(mag, j, phase, df.value).Some? {
      var frame := FrameAt(mag, j, phase, df.value).value;
      var fixed := if HasCleanCrc(df.value) then Diagnose(frame, 1).1 else frame;
      assert Padded(fixed)[..|fixed|] == fixed;
    }
  }

  /**
   All phases at one position share the preamble's brightness, so parity alone decides: the frame
   chosen is that of the earliest phase with the strongest parity, and none is chosen exactly when
   no phase has a frame of any strength.
   */
  lemma EarliestOfTheStrongest(mag: seq<Sample>, j: nat, high: nat, seen: set<Register>) returns (p: nat)
    ensures match Best(mag, j, 8, high, seen)
            case None => forall q: nat | 4 <= q <= 8 :: StrengthAt(mag, j, q, high, seen) == 0
            case Some(b) =>
              && 4 <= p <= 8 && Candidate(mag, j, p, high, seen) == Some(b) && StrengthAt(mag, j, p, high, seen) > 0
              && (forall q: nat | 4 <= q <= 8 :: StrengthAt(mag, j, q, high, seen) <= StrengthAt(mag, j, p, high, seen))
              && (forall q: nat | 4 <= q < p :: StrengthAt(mag, j, q, high, seen) < StrengthAt(mag, j, p, high, seen))
  {
    hide Candidate, Best, ScoreAt, StrengthAt;
    p := BestIsFirstMaximum(mag, j, 8, high, seen);
    forall q: nat | 4 <= q <= 8
      ensures StrengthAt(mag, j, q, high, seen) <= 3
      ensures ScoreAt(mag, j, q, high, seen) == ScoreOf(StrengthAt(mag, j, q, high, seen), high)
    {
      ScoreIsByStrength(mag, j, q, high, seen);
    }
    if Best(mag, j, 8, high, seen).Some? {
      ScoreOfChosen(mag, j, p, high, seen);
    }
  }

  lemma ScoreOfChosen(mag: seq<Sample>, j: nat, p: nat, high: nat, seen: set<Register>)
    requires 4 <= p <= 8 && Candidate(mag, j, p, high, seen).Some?
    ensures ScoreAt(mag, j, p, high, seen) == Candidate(mag, j, p, high, seen).value.score
  {
  }

  /** If any phase gives a clean frame, the frame chosen is clean: no brighter damaged one wins. */
  lemma CleanCandidateWins(mag: seq<Sample>, j: nat, phase: nat, high: nat, seen: set<Register>)
    requires 4 <= phase <= 8
    requires var c := Candidate(mag, j, phase, high, seen); c.Some? && c.value.result.crc == Clean
    ensures var b := Best(mag, j, 8, high, seen);
            b.Some? && b.value.result.crc == Clean && IsClean(FrameProper(b.value.result))
  {
    hide Best, Diagnose, FrameProper, FrameAt, PrefixAt, Accepted;
    var p := BestIsFirstMaximum(mag, j, 8, high, seen);
    assert ScoreAt(mag, j, phase, high, seen) >= 1_000_000;
    var b := Best(mag, j, 8, high, seen).value;
    var df := PrefixAt(mag, j, p).value;
    AssessedIsAccepted(FrameAt(mag, j, p, df).value, df, high, seen);
    CleanIsClean(seen, b.result);
  }

  lemma CleanIsClean(seen: set<Register>, r: DemodResult)
    requires Accepted(seen, r) && r.crc == Clean
    ensures IsClean(FrameProper(r))
  {
  }
}
