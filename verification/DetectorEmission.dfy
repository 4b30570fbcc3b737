/**
 Which frames a call of the generic detector hands to its callback: every frame taken, in order, if
 its confidence reaches the minimum, and no other. So an ideal transmission behind a preamble that
 stands out is the first frame emitted, wherever it starts.
 */
module DetectorEmission {
  import opened BitValue
  import opened Crc24
  import opened Crc24Errors
  import opened Downlink
  import opened NoiseFloors
  import opened GenericSlicer
  import opened PreamblePulses
  import opened IdealWaveform
  import opened FrameDetector
  import opened Chunking

  // --- One step of a scan --------------------------------------------------------------------

  /** The format in the first five bits behind the preamble, as a number. */
  function FormatAt(rate: Rate, buf: seq<Sample>): nat
    requires |buf| >= Window(rate)
  {
    SizesOrdered(rate);
    var p := PreambleSamples(rate);
    PrefixByte(rate, buf[p..p + SamplesForBits(rate, 5)]) / 8
  }

  /** Samples in a preamble and a frame of this format: 112 bits from format 16 on, 56 below. */
  function Extent(rate: Rate, format: nat): nat {
    PreambleSamples(rate) + SamplesForBits(rate, if format >= 16 then 112 else 56)
  }

  lemma ExtentIs(rate: Rate, b: byte)
    ensures Extent(rate, b / 8) == PreambleSamples(rate) + SamplesForBits(rate, 8 * FrameBytes(FromFirstByte(b)))
  {
    FormatOfByte(b);
  }

  lemma FormatFacts(rate: Rate, b: byte)
    ensures var df := FromFirstByte(b);
            && (df.Reserved? <==> IsUnknown(b / 8)) && RawValue(df) == b / 8
            && Extent(rate, b / 8) == PreambleSamples(rate) + SamplesForBits(rate, 8 * FrameBytes(df))
  {
    FormatsByNumber(b);
    FormatOfByte(b);
    ExtentIs(rate, b);
  }

  lemma FrameKeepsFormat(rate: Rate, payload: seq<Sample>, df: DownlinkFormat, least: byte)
    ensures SliceFrame(rate, payload, df, least).df == df
  {
    hide Diagnose, PackBytes, SlicedBits, Confidences, Aggregate;
  }

  lemma MoveByFormat(rate: Rate, buf: seq<Sample>, floor: Sample, p: nat, df: DownlinkFormat)
    requires |buf| >= Window(rate) && p == PreambleSamples(rate)
    requires p <= p + SamplesForBits(rate, 5) <= |buf|
    requires df == FromFirstByte(PrefixByte(rate, buf[p..p + SamplesForBits(rate, 5)]))
    ensures var m, extent := MoveAt(rate, buf, floor), p + SamplesForBits(rate, 8 * FrameBytes(df));
            if PreambleScore(rate, buf[..p]) <= 16 * floor then m == Skip(1)
            else if df.Reserved? then m == Skip(p)
            else if extent > |buf| then m == Wait
            else m.Take? && m.step == extent && m.frame.df == df
  {
    hide PreambleScore, PrefixByte, FromFirstByte, SamplesForBits, PreambleSamples, Confidences, Window, SliceFrame;
    hide FrameBytes, Aggregate;
    forall payload: seq<Sample>, least: byte
      ensures SliceFrame(rate, payload, df, least).df == df
    {
      FrameKeepsFormat(rate, payload, df, least);
    }
  }

  /** The move at a position, by the score, the format and the samples there are. */
  lemma MoveCases(rate: Rate, buf: seq<Sample>, floor: Sample)
    requires |buf| >= Window(rate)
    ensures PreambleSamples(rate) <= |buf|
    ensures var p, m := PreambleSamples(rate), MoveAt(rate, buf, floor);
            if PreambleScore(rate, buf[..p]) <= 16 * floor then m == Skip(1)
            else if IsUnknown(FormatAt(rate, buf)) then m == Skip(p)
            else if Extent(rate, FormatAt(rate, buf)) > |buf| then m == Wait
            else m.Take? && m.step == Extent(rate, FormatAt(rate, buf)) && RawValue(m.frame.df) == FormatAt(rate, buf)
  {
    SizesOrdered(rate);
    var p := PreambleSamples(rate);
    hide PreambleScore, PrefixByte, FromFirstByte, SamplesForBits, PreambleSamples, MoveAt, CarrySamplesFor;
    hide IsUnknown, RawValue, Extent, FrameBytes;
    var b := PrefixByte(rate, buf[p..p + SamplesForBits(rate, 5)]);
    FormatFacts(rate, b);
    MoveByFormat(rate, buf, floor, p, FromFirstByte(b));
  }

  /**
   The four ways a scan goes on. Nothing is emitted on the way over a position without a preamble
   or with an unknown format; a long frame that is not all there yet stops the call; any other
   position behind a preamble takes a frame, emitted exactly when it is sure enough.
   */
  lemma ScanStep(rate: Rate, min: byte, buf: seq<Sample>, acc: nat)
    requires |buf| >= Window(rate) && |buf| > 0
    ensures PreambleSamples(rate) <= |buf|
    ensures var p, next := PreambleSamples(rate), Next(acc, DEFAULT_SHIFT, buf[0]);
            var whole := Scan(rate, min, buf, acc);
            if PreambleScore(rate, buf[..p]) <= 16 * FloorOf(next) then whole == Scan(rate, min, buf[1..], next)
            else if IsUnknown(FormatAt(rate, buf)) then whole == Scan(rate, min, buf[p..], next)
            else if Extent(rate, FormatAt(rate, buf)) > |buf| then whole == Left([], next, buf, true)
            else
              var m := MoveAt(rate, buf, FloorOf(next));
              && m.Take? && m.step == Extent(rate, FormatAt(rate, buf)) && RawValue(m.frame.df) == FormatAt(rate, buf)
              && var rest := Scan(rate, min, buf[m.step..], next);
                 && (m.frame.confidence >= min ==> whole == rest.(frames := [m.frame] + rest.frames))
                 && (m.frame.confidence < min ==> whole == rest)
  {
    hide PreambleScore, PreambleSamples, Window, Next, FloorOf, IsUnknown, RawValue, Extent, FormatAt, MoveAt;
    var next := Next(acc, DEFAULT_SHIFT, buf[0]);
    MoveCases(rate, buf, FloorOf(next));
    var m := MoveAt(rate, buf, FloorOf(next));
    if m.Take? {
      PrependNone(Scan(rate, min, buf[m.step..], next));
    }
  }

  // --- The confidence filter -------------------------------------------------------------------

  /** The frames of at least this confidence, in order. */
  function Keep(frames: seq<Frame>, min: byte): (kept: seq<Frame>)
    ensures forall f :: f in kept <==> f in frames && f.confidence >= min
    ensures multiset(kept) <= multiset(frames)
  {
    if |frames| == 0 then []
    else
      var init, last := frames[..|frames| - 1], frames[|frames| - 1];
      assert frames == init + [last];
      if last.confidence >= min then Keep(init, min) + [last] else Keep(init, min)
  }

  lemma {:induction false} KeepConcat(a: seq<Frame>, b: seq<Frame>, min: byte)
    ensures Keep(a + b, min) == Keep(a, min) + Keep(b, min)
  {
    if |b| == 0 {
      assert a + b == a;
    } else {
      var n := |b| - 1;
      assert (a + b)[..|a + b| - 1] == a + b[..n];
      KeepConcat(a, b[..n], min);
      assert (Keep(a, min) + Keep(b[..n], min)) + [b[n]] == Keep(a, min) + (Keep(b[..n], min) + [b[n]]);
    }
  }

  lemma KeepOne(f: Frame, min: byte)
    ensures Keep([f], min) == if f.confidence >= min then [f] else []
  {
    assert [f][..0] == [];
  }

  lemma KeepNone(min: byte)
    ensures Keep([], min) == []
  {
  }

  /** A scan with its emitted frames filtered. */
  function Filtered(l: Left, min: byte): Left {
    l.(frames := Keep(l.frames, min))
  }

  /**
   The minimum only filters: whatever it is, the call emits the frames of the unfiltered call that
   reach it, in the same order, and leaves the same floor and the same rest.
   */
  lemma {:induction false} MinimumOnlyFilters(rate: Rate, min: byte, buf: seq<Sample>, acc: nat)
    ensures Scan(rate, min, buf, acc) == Filtered(Scan(rate, 0, buf, acc), min)
    decreases |buf|
  {
    SizesOrdered(rate);
    hide PreambleScore, Window, SamplesForBits, PreambleSamples, Next, FloorOf, MoveAt, Keep, IsUnknown, FormatAt, Extent;
    if |buf| < Window(rate) {
      KeepNone(min);
    } else {
      FilterStep(rate, min, buf, acc);
    }
  }

  lemma {:induction false} FilterStep(rate: Rate, min: byte, buf: seq<Sample>, acc: nat)
    requires |buf| >= Window(rate) && |buf| > 0
    ensures Scan(rate, min, buf, acc) == Filtered(Scan(rate, 0, buf, acc), min)
    decreases |buf|, 0
  {
    hide PreambleScore, Window, SamplesForBits, PreambleSamples, Next, FloorOf, MoveAt, Keep, IsUnknown, FormatAt;
    hide Extent, Scan;
    ScanStep(rate, min, buf, acc);
    ScanStep(rate, 0, buf, acc);
    var p, next := PreambleSamples(rate), Next(acc, DEFAULT_SHIFT, buf[0]);
    if PreambleScore(rate, buf[..p]) <= 16 * FloorOf(next) {
      MinimumOnlyFilters(rate, min, buf[1..], next);
    } else if IsUnknown(FormatAt(rate, buf)) {
      MinimumOnlyFilters(rate, min, buf[p..], next);
    } else if Extent(rate, FormatAt(rate, buf)) > |buf| {
      KeepNone(min);
    } else {
      var m := MoveAt(rate, buf, FloorOf(next));
      MinimumOnlyFilters(rate, min, buf[m.step..], next);
      KeepConcat([m.frame], Scan(rate, 0, buf[m.step..], next).frames, min);
      KeepOne(m.frame, min);
    }
  }

  // --- Confidence of a frame -------------------------------------------------------------------

  lemma ConfidenceOfTaken(rate: Rate, buf: seq<Sample>, floor: Sample, p: nat, five: nat)
    requires |buf| >= Window(rate) && p == PreambleSamples(rate) && five == SamplesForBits(rate, 5)
    requires MoveAt(rate, buf, floor).Take?
    ensures var m := MoveAt(rate, buf, floor);
            && p + five <= m.step <= |buf|
            && m.frame.confidence == LeastOf(Aggregate(Confidences(rate, buf[p..m.step], 8 * FrameBytes(m.frame.df))),
                                             Aggregate(Confidences(rate, buf[p..p + five], 5)))
  {
    SizesOrdered(rate);
    hide FromFirstByte, SamplesForBits, PreambleScore, PreambleSamples, PrefixByte, Diagnose, PackBytes, SlicedBits;
    hide Confidences, Aggregate, FrameBytes, ClearsThreshold, HasCleanCrc, CarrySamplesFor;
    var m := MoveAt(rate, buf, floor);
    SamplesGrow(rate, 5, 8 * FrameBytes(m.frame.df));
  }

  /** A frame is as sure as the least sure of its bits. */
  lemma ConfidenceIsLeast(rate: Rate, buf: seq<Sample>, floor: Sample)
    requires |buf| >= Window(rate) && MoveAt(rate, buf, floor).Take?
    ensures var m := MoveAt(rate, buf, floor);
            && PreambleSamples(rate) <= m.step <= |buf|
            && IsLeastOfBits(m.frame.confidence, rate, buf[PreambleSamples(rate)..m.step], 8 * FrameBytes(m.frame.df))
  {
    hide SlicedBit, SamplesForBits, PreambleSamples, MoveAt, Window, Confidences, Aggregate, LeastOf, IsLeastOfBits;
    hide FrameBytes;
    var p, five := PreambleSamples(rate), SamplesForBits(rate, 5);
    ConfidenceOfTaken(rate, buf, floor, p, five);
    var m := MoveAt(rate, buf, floor);
    var payload := buf[p..m.step];
    assert payload[..five] == buf[p..p + five];
    LeastOfPrefixAndWhole(rate, payload, 8 * FrameBytes(m.frame.df));
  }

  /** `c` is the confidence of the least sure of the first `n` bits. */
  predicate IsLeastOfBits(c: byte, rate: Rate, payload: seq<Sample>, n: nat) {
    && (forall k: nat | k < n :: c <= SlicedBit(rate, payload, k).1)
    && (exists k: nat | k < n :: c == SlicedBit(rate, payload, k).1)
  }

  function LeastOf(a: byte, b: byte): byte {
    if a <= b then a else b
  }

  lemma LeastOfPrefixAndWhole(rate: Rate, payload: seq<Sample>, n: nat)
    requires n >= 5 && SamplesForBits(rate, 5) <= |payload|
    ensures var c := LeastOf(Aggregate(Confidences(rate, payload, n)),
                             Aggregate(Confidences(rate, payload[..SamplesForBits(rate, 5)], 5)));
            IsLeastOfBits(c, rate, payload, n)
  {
    hide SlicedBit, SamplesForBits;
    var whole, part := Confidences(rate, payload, n), Confidences(rate, payload[..SamplesForBits(rate, 5)], 5);
    forall k: nat | k < 5
      ensures part[k] == whole[k]
    {
      PrefixBitsAgree(rate, payload, 5, k);
    }
    forall k: nat | k < n
      ensures whole[k] == SlicedBit(rate, payload, k).1
    {
    }
    assert forall x :: x in part ==> x in whole;
    var least := Aggregate(whole);
    var k: nat :| k < n && whole[k] == least;
    assert least <= Aggregate(part);
    assert LeastOf(least, Aggregate(part)) == SlicedBit(rate, payload, k).1;
  }

  // --- A transmission behind other samples -------------------------------------------------------

  /** The window that starts at sample `k` does not score above the floor it meets. */
  predicate SilentAt(rate: Rate, buf: seq<Sample>, acc: nat, k: nat)
    requires k < |buf|
  {
    && k + Window(rate) <= |buf| && PreambleSamples(rate) <= Window(rate)
    && PreambleScore(rate, buf[k..][..PreambleSamples(rate)]) <= 16 * FloorOf(Run(acc, DEFAULT_SHIFT, buf[..k + 1]))
  }

  /** No window that starts in the first `j` samples does. */
  predicate SilentUpTo(rate: Rate, buf: seq<Sample>, acc: nat, j: nat) {
    j <= |buf| && forall k: nat | k < j :: SilentAt(rate, buf, acc, k)
  }

  lemma RunSnoc(acc: nat, buf: seq<Sample>, k: nat)
    requires k < |buf|
    ensures Run(acc, DEFAULT_SHIFT, buf[..k + 1]) == Next(Run(acc, DEFAULT_SHIFT, buf[..k]), DEFAULT_SHIFT, buf[k])
  {
    hide Next;
    assert buf[..k + 1][..k] == buf[..k];
  }

  /** One sample without a preamble is passed over. */
  lemma SilentStep(rate: Rate, min: byte, buf: seq<Sample>, acc: nat, i: nat)
    requires i < |buf| && i + Window(rate) <= |buf| && PreambleSamples(rate) <= Window(rate)
    requires PreambleScore(rate, buf[i..][..PreambleSamples(rate)]) <= 16 * FloorOf(Next(acc, DEFAULT_SHIFT, buf[i]))
    ensures Scan(rate, min, buf[i..], acc) == Scan(rate, min, buf[i + 1..], Next(acc, DEFAULT_SHIFT, buf[i]))
  {
    hide Scan, Window, PreambleScore, FloorOf, Next, MoveAt, IsUnknown, FormatAt, Extent, PreambleSamples, RawValue;
    var rest := buf[i..];
    assert rest[0] == buf[i] && rest[1..] == buf[i + 1..];
    ScanStep(rate, min, rest, acc);
  }

  /** The scan passes over silence, folding it into the floor. */
  lemma {:induction false} SilenceIsSkipped(rate: Rate, min: byte, buf: seq<Sample>, acc: nat, j: nat)
    requires SilentUpTo(rate, buf, acc, j)
    ensures Scan(rate, min, buf, acc) == Scan(rate, min, buf[j..], Run(acc, DEFAULT_SHIFT, buf[..j]))
  {
    hide Scan, Window, PreambleScore, FloorOf, Next, PreambleSamples;
    if j > 0 {
      var i := j - 1;
      SilenceIsSkipped(rate, min, buf, acc, i);
      assert SilentAt(rate, buf, acc, i);
      RunSnoc(acc, buf, i);
      SilentStep(rate, min, buf, Run(acc, DEFAULT_SHIFT, buf[..i]), i);
    } else {
      assert buf[..0] == [] && buf[0..] == buf;
    }
  }

  /** The first frame emitted carries exactly these bytes, and the scan goes on at sample `end`. */
  predicate EmitsFirst(rate: Rate, min: byte, buf: seq<Sample>, acc: nat, end: nat, floor: nat, sent: seq<byte>)
    requires IsSendable(sent)
  {
    var l := Scan(rate, min, buf, acc);
    && end <= |buf| && |l.frames| > 0 && l.frames[0].bytes == sent
    && RawValue(l.frames[0].df) == sent[0] / 8
    && l.frames[0].crc == (if sent[0] / 8 in {11, 17, 18} then Clean else Failed)
    && l == Prepend([l.frames[0]], Scan(rate, min, buf[end..], floor))
  }

  /** A frame taken whole at a position is emitted there. */
  lemma TakenIsEmitted(rate: Rate, buf: seq<Sample>, acc: nat, step: nat, sent: seq<byte>)
    requires |buf| >= Window(rate) && |buf| > 0 && IsSendable(sent) && step <= |buf|
    requires TakesWhole(MoveAt(rate, buf, FloorOf(Next(acc, DEFAULT_SHIFT, buf[0]))), step, sent)
    ensures EmitsFirst(rate, 0, buf, acc, step, Next(acc, DEFAULT_SHIFT, buf[0]), sent)
  {
    hide MoveAt, Window, FloorOf, FromFirstByte, RawValue, HasCleanCrc, Next, FrameBytes, IsClean;
    FormatOfByte(sent[0]);
    FormatsByNumber(sent[0]);
  }

  lemma EmittedAfterSilence(rate: Rate, buf: seq<Sample>, acc: nat, j: nat, step: nat, floor: nat, sent: seq<byte>)
    requires SilentUpTo(rate, buf, acc, j) && IsSendable(sent)
    requires EmitsFirst(rate, 0, buf[j..], Run(acc, DEFAULT_SHIFT, buf[..j]), step, floor, sent)
    ensures EmitsFirst(rate, 0, buf, acc, j + step, floor, sent)
  {
    hide Scan, Window, PreambleScore, PreambleSamples, IsSendable, Prepend, RawValue;
    SilenceIsSkipped(rate, 0, buf, acc, j);
    assert buf[j..][step..] == buf[j + step..];
  }

  /** What a callback can be given whole: a known format, its length, and a clean parity where there is one. */
  lemma SendableIff(sent: seq<byte>)
    ensures IsSendable(sent) <==>
            && |sent| > 0 && !IsUnknown(sent[0] / 8) && |sent| == (if sent[0] / 8 >= 16 then 14 else 7)
            && (sent[0] / 8 in {11, 17, 18} ==> IsClean(sent))
  {
    hide IsClean;
    if |sent| > 0 {
      FormatsByNumber(sent[0]);
      FormatOfByte(sent[0]);
    }
  }

  /**
   At any sample rate, after any run of samples that shows no preamble: pulses of at least `a` among
   samples of at most `b`, with 4a - 12b above sixteen times the floor, and behind them an ideal
   waveform that stands out. Then the bytes sent are the first frame emitted, whole.
   */
  lemma IdealTransmissionIsEmitted(rate: Rate, buf: seq<Sample>, acc: nat, j: nat, a: nat, b: nat, sent: seq<byte>,
                                   chips: Chips, offset: int, floor: real, h: real, noise: real)
    requires SilentUpTo(rate, buf, acc, j) && j < j + Window(rate) <= |buf| && IsSendable(sent)
    requires var p, size := PreambleSamples(rate), SamplesForBits(rate, 8 * |sent|);
             && p + size <= |buf| - j
             && Pulses(rate, buf[j..][..p], a, b) && 4 * a - 12 * b > 16 * FloorOf(Run(acc, DEFAULT_SHIFT, buf[..j + 1]))
             && Receives(rate, buf[j..][p..p + size], chips, offset, floor, h, noise)
    requires Modulates(chips, FrameBits(sent)) && StandsOut(rate, offset, h, noise)
    ensures EmitsFirst(rate, 0, buf, acc, j + PreambleSamples(rate) + SamplesForBits(rate, 8 * |sent|),
                       Run(acc, DEFAULT_SHIFT, buf[..j + 1]), sent)
  {
    hide SamplesForBits, PreambleSamples, PreambleScore, Receives, Modulates, StandsOut, MoveAt, TakesWhole, IsSendable;
    hide FrameBits, Window, SilentUpTo, Pulses, FloorOf, Next, EmitsFirst, Scan, ClearsThreshold;
    var p, size := PreambleSamples(rate), SamplesForBits(rate, 8 * |sent|);
    var rest := buf[j..];
    RunSnoc(acc, buf, j);
    var next := Run(acc, DEFAULT_SHIFT, buf[..j + 1]);
    PulsesClear(rate, rest[..p], a, b, FloorOf(next));
    IdealFrameIsTaken(rate, rest, FloorOf(next), sent, chips, offset, floor, h, noise);
    TakenIsEmitted(rate, rest, Run(acc, DEFAULT_SHIFT, buf[..j]), p + size, sent);
    EmittedAfterSilence(rate, buf, acc, j, p + size, next, sent);
  }

  /**
   At 2 MS/s no waveform is needed: the four pulse samples together exceed the other twelve by more
   than sixteen times the floor, and each bit has its brighter sample on the right side.
   */
  lemma TransmissionIsEmitted(rate: Rate, buf: seq<Sample>, acc: nat, j: nat, sent: seq<byte>)
    requires rate == 2_000_000 && SilentUpTo(rate, buf, acc, j) && j + 128 <= |buf| && IsSendable(sent)
    requires 16 + 16 * |sent| <= |buf| - j && CarriesBits(buf[j..][16..16 + 16 * |sent|], FrameBits(sent))
    requires var m: seq<int> := buf[j..];
             var high := m[0] + m[2] + m[7] + m[9];
             var low := m[1] + m[3] + m[4] + m[5] + m[6] + m[8] + m[10] + m[11] + m[12] + m[13] + m[14] + m[15];
             high - low > 16 * FloorOf(Run(acc, DEFAULT_SHIFT, buf[..j + 1]))
    ensures EmitsFirst(rate, 0, buf, acc, j + 16 + 16 * |sent|, Run(acc, DEFAULT_SHIFT, buf[..j + 1]), sent)
  {
    hide PreambleScore, MoveAt, TakesWhole, IsSendable, FrameBits, SilentUpTo, FloorOf, Next, EmitsFirst, Scan;
    hide CarriesBits, Window;
    var rest := buf[j..];
    RunSnoc(acc, buf, j);
    var next := Run(acc, DEFAULT_SHIFT, buf[..j + 1]);
    ScoreAtTwoMegasamples(rate, rest[..16]);
    TransmittedFrameIsTaken(rate, rest, FloorOf(next), sent);
    TakenIsEmitted(rate, rest, Run(acc, DEFAULT_SHIFT, buf[..j]), 16 + 16 * |sent|, sent);
    EmittedAfterSilence(rate, buf, acc, j, 16 + 16 * |sent|, next, sent);
  }
}
