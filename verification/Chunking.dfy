/**
 What the generic path guarantees over a whole stream: how a stream is cut into chunks does
 not matter while no call stops at an incomplete long frame, what exactly differs when one
 does, and how a surfaced frame relates to the bits sliced for it.
 */
module Chunking {
  import opened Gf2
  import opened BitValue
  import opened Crc24
  import opened Crc24Errors
  import opened Downlink
  import opened NoiseFloors
  import opened GenericSlicer
  import opened IdealWaveform
  import opened FrameDetector

  // --- Chunks ------------------------------------------------------------------------------

  /** A move other than waiting is the same whatever follows in the buffer. */
  lemma MoveIgnoresWhatFollows(rate: Rate, buf: seq<Sample>, more: seq<Sample>, floor: Sample)
    requires |buf| >= Window(rate) && !MoveAt(rate, buf, floor).Wait?
    ensures MoveAt(rate, buf + more, floor) == MoveAt(rate, buf, floor)
  {
    SizesOrdered(rate);
    hide SliceFrame, PrefixByte, PreambleScore, SamplesForBits, FromFirstByte, Confidences;
    var p, n := PreambleSamples(rate), SamplesForBits(rate, 5);
    assert (buf + more)[..p] == buf[..p];
    assert (buf + more)[p..p + n] == buf[p..p + n];
    var df := FromFirstByte(PrefixByte(rate, buf[p..p + n]));
    var size := SamplesForBits(rate, 8 * FrameBytes(df));
    if p + size <= |buf| {
      assert (buf + more)[p..p + size] == buf[p..p + size];
    }
  }

  lemma PrependTwice(first: seq<Frame>, second: seq<Frame>, l: Left)
    ensures Prepend(first, Prepend(second, l)) == Prepend(first + second, l)
    ensures Prepend(first, l).frames == first + l.frames
    ensures Prepend(first, l) == Left(first + l.frames, l.acc, l.rest, l.stopped)
  {
    assert first + (second + l.frames) == (first + second) + l.frames;
  }

  lemma PrependNone(l: Left)
    ensures Prepend([], l) == l
  {
    assert [] + l.frames == l.frames;
  }

  /** A scan that does not stop at the break can be cut there and resumed. */
  lemma {:induction false} ScanResumes(rate: Rate, min: byte, a: seq<Sample>, b: seq<Sample>, acc: nat)
    requires !Scan(rate, min, a, acc).stopped
    ensures var l := Scan(rate, min, a, acc);
            Scan(rate, min, a + b, acc) == Prepend(l.frames, Scan(rate, min, l.rest + b, l.acc))
    decreases |a|
  {
    SizesOrdered(rate);
    hide MoveAt, Window;
    if |a| >= Window(rate) {
      var next := Next(acc, DEFAULT_SHIFT, a[0]);
      var m := MoveAt(rate, a, FloorOf(next));
      MoveIgnoresWhatFollows(rate, a, b, FloorOf(next));
      assert (a + b)[m.step..] == a[m.step..] + b;
      ScanResumes(rate, min, a[m.step..], b, next);
      if m.Take? {
        var l := Scan(rate, min, a[m.step..], next);
        PrependTwice(Surfaced(m.frame, min), l.frames, Scan(rate, min, l.rest + b, l.acc));
        hide Prepend;
      }
    } else {
      PrependNone(Scan(rate, min, a + b, acc));
    }
  }

  function Flatten(chunks: seq<seq<Sample>>): seq<Sample> {
    if |chunks| == 0 then [] else Flatten(chunks[..|chunks| - 1]) + chunks[|chunks| - 1]
  }

  /** The state after a list of calls: all frames so far, the floor, and the carry. */
  function Calls(rate: Rate, min: byte, chunks: seq<seq<Sample>>, acc: nat): Left {
    if |chunks| == 0 then Left([], acc, [], false)
    else
      var before := Calls(rate, min, chunks[..|chunks| - 1], acc);
      Prepend(before.frames, Scan(rate, min, before.rest + chunks[|chunks| - 1], before.acc))
  }

  // --- The break ---------------------------------------------------------------------------

  /**
   Between two calls nothing has gone wrong: the call did not stop at an incomplete long frame,
   or the sample it stopped at equals the floor it left.
   */
  predicate LeavesNoTrace(l: Left) {
    l.stopped ==> |l.rest| > 0 && l.rest[0] == Floor(l.acc, DEFAULT_SHIFT)
  }

  /** Feeding `a` and then `b` comes to the same as feeding both at once. */
  predicate SplitsAt(rate: Rate, min: byte, a: seq<Sample>, b: seq<Sample>, acc: nat) {
    var l := Scan(rate, min, a, acc);
    Scan(rate, min, a + b, acc) == Prepend(l.frames, Scan(rate, min, l.rest + b, l.acc))
  }

  /**
   A call that stops at the break has folded the sample at the break into the floor; fed whole,
   the stream continues from the floor before that. So the next call folds it in twice.
   */
  lemma {:induction false} BreakFoldsTwice(rate: Rate, min: byte, a: seq<Sample>, b: seq<Sample>, acc: nat)
    returns (before: nat)
    requires Scan(rate, min, a, acc).stopped
    ensures var l := Scan(rate, min, a, acc);
            && |l.rest| >= Window(rate) && |l.rest| > 0 && l.acc == Next(before, DEFAULT_SHIFT, l.rest[0])
            && MoveAt(rate, l.rest, FloorOf(l.acc)) == Wait
            && Scan(rate, min, a + b, acc) == Prepend(l.frames, Scan(rate, min, l.rest + b, before))
    decreases |a|
  {
    SizesOrdered(rate);
    hide MoveAt, Window;
    var next := Next(acc, DEFAULT_SHIFT, a[0]);
    var m := MoveAt(rate, a, FloorOf(next));
    if m.Wait? {
      before := acc;
      PrependNone(Scan(rate, min, a + b, acc));
    } else {
      MoveIgnoresWhatFollows(rate, a, b, FloorOf(next));
      assert (a + b)[m.step..] == a[m.step..] + b;
      before := BreakFoldsTwice(rate, min, a[m.step..], b, next);
      if m.Take? {
        var l := Scan(rate, min, a[m.step..], next);
        PrependTwice(Surfaced(m.frame, min), l.frames, Scan(rate, min, l.rest + b, before));
      }
    }
  }

  /** A scan depends on its floor only through the first update. */
  lemma ScanByFirstUpdate(rate: Rate, min: byte, buf: seq<Sample>, x: nat, y: nat)
    requires |buf| >= Window(rate) && |buf| > 0
    requires Next(x, DEFAULT_SHIFT, buf[0]) == Next(y, DEFAULT_SHIFT, buf[0])
    ensures Scan(rate, min, buf, x) == Scan(rate, min, buf, y)
  {
    hide MoveAt, Next, Window;
  }

  /** A scan that leaves its whole buffer has waited at its first sample. */
  lemma WholeRestMeansWaited(rate: Rate, min: byte, buf: seq<Sample>, acc: nat)
    requires |buf| >= Window(rate) && |buf| > 0 && Scan(rate, min, buf, acc).rest == buf
    ensures Scan(rate, min, buf, acc).acc == Next(acc, DEFAULT_SHIFT, buf[0])
  {
    hide MoveAt, Next, Window;
    var next := Next(acc, DEFAULT_SHIFT, buf[0]);
    var m := MoveAt(rate, buf, FloorOf(next));
    if !m.Wait? {
      RestIsShorter(rate, min, buf[m.step..], next);
    }
  }

  lemma {:induction false} RestIsShorter(rate: Rate, min: byte, buf: seq<Sample>, acc: nat)
    ensures |Scan(rate, min, buf, acc).rest| <= |buf|
    decreases |buf|
  {
    SizesOrdered(rate);
    hide MoveAt, Window;
    if |buf| >= Window(rate) {
      var next := Next(acc, DEFAULT_SHIFT, buf[0]);
      var m := MoveAt(rate, buf, FloorOf(next));
      if !m.Wait? {
        RestIsShorter(rate, min, buf[m.step..], next);
      }
    }
  }

  /** Folding a sample in changes nothing exactly when it equals the floor. */
  lemma FoldIsIdleIff(acc: nat, sample: Sample)
    ensures Next(acc, DEFAULT_SHIFT, sample) == acc <==> sample == Floor(acc, DEFAULT_SHIFT)
  {
    FloorAtMost(acc, DEFAULT_SHIFT);
  }

  lemma TracelessSplits(rate: Rate, min: byte, a: seq<Sample>, b: seq<Sample>, acc: nat)
    requires LeavesNoTrace(Scan(rate, min, a, acc))
    ensures SplitsAt(rate, min, a, b, acc)
  {
    hide Scan, Next, MoveAt, Window;
    var l := Scan(rate, min, a, acc);
    if l.stopped {
      var before := BreakFoldsTwice(rate, min, a, b, acc);
      FoldIsIdleIff(l.acc, l.rest[0]);
      ScanByFirstUpdate(rate, min, l.rest + b, before, l.acc);
    } else {
      ScanResumes(rate, min, a, b, acc);
    }
  }

  lemma SplitsIfTraceless(rate: Rate, min: byte, a: seq<Sample>, acc: nat)
    requires SplitsAt(rate, min, a, [], acc)
    ensures LeavesNoTrace(Scan(rate, min, a, acc))
  {
    hide Scan, Next, MoveAt, Window;
    var none: seq<Sample> := [];
    var l := Scan(rate, min, a, acc);
    assert a + none == a && l.rest + none == l.rest;
    if l.stopped {
      var before := BreakFoldsTwice(rate, min, a, none, acc);
      WholeRestMeansWaited(rate, min, l.rest, l.acc);
      FoldIsIdleIff(l.acc, l.rest[0]);
    }
  }

  /**
   When a stream may be cut after `a`, whatever follows: exactly when the call on `a` does not
   stop at an incomplete long frame, or stops at a sample that equals the floor it leaves.
   */
  lemma CutIsInvisibleIff(rate: Rate, min: byte, a: seq<Sample>, acc: nat)
    ensures (forall b: seq<Sample> :: SplitsAt(rate, min, a, b, acc)) <==> LeavesNoTrace(Scan(rate, min, a, acc))
  {
    hide SplitsAt, LeavesNoTrace;
    if LeavesNoTrace(Scan(rate, min, a, acc)) {
      forall b: seq<Sample>
        ensures SplitsAt(rate, min, a, b, acc)
      {
        TracelessSplits(rate, min, a, b, acc);
      }
    }
    if SplitsAt(rate, min, a, [], acc) {
      SplitsIfTraceless(rate, min, a, acc);
    }
  }

  /** No call but the last left a trace. */
  predicate NoTraceBeforeLast(rate: Rate, min: byte, chunks: seq<seq<Sample>>, acc: nat) {
    forall k | 0 < k < |chunks| :: LeavesNoTrace(Calls(rate, min, chunks[..k], acc))
  }

  /**
   Chunk independence: feeding a stream in any chunks gives the same frames in the same order,
   the same floor and the same carry as feeding it whole.
   */
  lemma {:induction false} ChunksDoNotMatter(rate: Rate, min: byte, chunks: seq<seq<Sample>>, acc: nat)
    requires NoTraceBeforeLast(rate, min, chunks, acc) && |chunks| > 0
    ensures Calls(rate, min, chunks, acc) == Scan(rate, min, Flatten(chunks), acc)
  {
    hide Scan, LeavesNoTrace;
    var n := |chunks| - 1;
    var init, last := chunks[..n], chunks[n];
    if n == 0 {
      assert init == [] && last == [] + last;
      PrependNone(Scan(rate, min, last, acc));
    } else {
      forall k | 0 < k < n
        ensures LeavesNoTrace(Calls(rate, min, init[..k], acc))
      {
        assert init[..k] == chunks[..k];
      }
      ChunksDoNotMatter(rate, min, init, acc);
      TracelessSplits(rate, min, Flatten(init), last, acc);
    }
  }

  /** The calls so far and one more chunk give what the whole stream gives. */
  predicate OneMoreAgrees(rate: Rate, min: byte, chunks: seq<seq<Sample>>, more: seq<Sample>, acc: nat) {
    Calls(rate, min, chunks + [more], acc) == Scan(rate, min, Flatten(chunks + [more]), acc)
  }

  /**
   As long as the calls so far agree with the whole stream, they go on agreeing whatever chunk
   comes next exactly when the last of them left no trace.
   */
  lemma NextChunkAgreesIff(rate: Rate, min: byte, chunks: seq<seq<Sample>>, acc: nat)
    requires Calls(rate, min, chunks, acc) == Scan(rate, min, Flatten(chunks), acc)
    ensures (forall more: seq<Sample> :: OneMoreAgrees(rate, min, chunks, more, acc))
       <==> LeavesNoTrace(Calls(rate, min, chunks, acc))
  {
    hide LeavesNoTrace, Scan;
    CutIsInvisibleIff(rate, min, Flatten(chunks), acc);
    forall more: seq<Sample>
      ensures OneMoreAgrees(rate, min, chunks, more, acc) <==> SplitsAt(rate, min, Flatten(chunks), more, acc)
    {
      assert (chunks + [more])[..|chunks|] == chunks;
    }
  }

  /** 128 samples at 2 MS/s: a preamble and one more pulse, the start of a long frame. */
  predicate StartsLongFrame(a: seq<Sample>) {
    && |a| == 128
    && forall k :: 0 <= k < 128 ==> a[k] == if k == 0 || k == 2 || k == 7 || k == 9 || k == 16 then 1000 else 0
  }

  lemma {:induction false} PulsesOnly(rate: Rate, a: seq<Sample>, n: nat)
    requires rate == 2_000_000 && StartsLongFrame(a) && n <= 16
    ensures var high := PartSum(rate, a[..16], n, true);
            high.0 == 1000 * high.1 && high.1 >= (if n > 0 then 1 else 0)
    ensures PartSum(rate, a[..16], n, false).0 == 0
  {
    if n > 0 {
      PulsesOnly(rate, a, n - 1);
      PreambleAtTwoMegasamples(n - 1);
    }
  }

  lemma PulsesScore(rate: Rate, a: seq<Sample>)
    requires rate == 2_000_000 && StartsLongFrame(a)
    ensures PreambleScore(rate, a[..16]) == 4000
  {
    PulsesOnly(rate, a, 16);
    hide PartSum;
    var high := PartSum(rate, a[..16], 16, true);
    DivAtLeast(high.0 * 4, 4000, high.1);
    DivAtLeast(high.0 * 4, 4001, high.1);
  }

  lemma PrefixIsDf16(rate: Rate, prefix: seq<Sample>)
    requires rate == 2_000_000
    requires |prefix| == 10 && prefix[0] == 1000 && forall k :: 1 <= k < 10 ==> prefix[k] == 0
    ensures PrefixByte(rate, prefix) == 128
  {
    var bits := SlicedBits(rate, prefix, 5);
    hide SlicedBit, SliceBit;
    forall k: nat | k < 5
      ensures bits[k] == (k == 0)
    {
      SliceAtTwoMegasamples(prefix, k);
      assert SliceBit(prefix[2 * k], prefix[2 * k + 1]).0 == (k == 0);
    }
    var one: Bits := [true];
    assert bits + Zeros(3) == one + Zeros(7);
    ValueConcat(one, Zeros(7));
    ValueOfZeros(7);
    Pow2Values();
    assert one[..0] == [];
  }

  lemma WaitsIf(rate: Rate, buf: seq<Sample>, floor: Sample)
    requires |buf| >= Window(rate)
    requires SamplesForBits(rate, 5) <= SamplesForBits(rate, 56)
    requires var p := PreambleSamples(rate);
             && ClearsThreshold(PreambleScore(rate, buf[..p]), floor)
             && FromFirstByte(PrefixByte(rate, buf[p..p + SamplesForBits(rate, 5)])) == LongAcas
             && p + SamplesForBits(rate, 112) > |buf|
    ensures MoveAt(rate, buf, floor) == Wait
  {
    hide PreambleScore, PrefixByte, FromFirstByte, SamplesForBits, PreambleSamples, SliceFrame, Confidences;
  }

  lemma StartOfLongFrameWaits(rate: Rate, a: seq<Sample>, floor: Sample)
    requires rate == 2_000_000 && StartsLongFrame(a) && floor < 250
    ensures Window(rate) == 128
    ensures MoveAt(rate, a, floor) == Wait
  {
    PulsesScore(rate, a);
    PrefixIsDf16(rate, a[16..26]);
    SizesAtTwoMegasamples(rate, 5);
    SizesAtTwoMegasamples(rate, 56);
    SizesAtTwoMegasamples(rate, 112);
    hide PrefixByte, PreambleScore, MoveAt, SamplesForBits, PreambleSamples;
    WaitsIf(rate, a, floor);
  }

  lemma ScanWaits(rate: Rate, min: byte, buf: seq<Sample>, acc: nat, next: nat)
    requires |buf| >= Window(rate) && next == Next(acc, DEFAULT_SHIFT, buf[0])
    requires MoveAt(rate, buf, FloorOf(next)) == Wait
    ensures Scan(rate, min, buf, acc) == Left([], next, buf, true)
  {
    hide MoveAt;
  }

  lemma StepAtDefaultShift(acc: nat, s: Sample)
    ensures Next(acc, DEFAULT_SHIFT, s) == acc + s - acc / 128
    ensures acc < 65535 * 128 ==> FloorOf(acc) == acc / 128
  {
    Pow2Values();
  }

  lemma StartOfLongFrameScan(rate: Rate, min: byte, a: seq<Sample>, acc: nat, after: nat)
    requires rate == 2_000_000 && StartsLongFrame(a)
    requires (acc == 0 && after == 1000) || (acc == 1000 && after == 1993)
    ensures Scan(rate, min, a, acc) == Left([], after, a, true)
  {
    hide MoveAt, Window, Next, FloorOf, Scan;
    StepAtDefaultShift(acc, 1000);
    assert Next(acc, DEFAULT_SHIFT, 1000) == after;
    StepAtDefaultShift(after, 0);
    StartOfLongFrameWaits(rate, a, after / 128);
    ScanWaits(rate, min, a, acc, after);
  }

  /** A call with `a` and then one with nothing new. */
  lemma TwoCalls(rate: Rate, min: byte, a: seq<Sample>, acc: nat)
    requires Scan(rate, min, a, acc).frames == [] && Scan(rate, min, a, acc).rest == a
    ensures Flatten([a, []]) == a
    ensures Calls(rate, min, [a, []], acc).acc == Scan(rate, min, a, Scan(rate, min, a, acc).acc).acc
  {
    hide Scan;
    var none: seq<Sample> := [];
    var first, chunks := [a], [a, none];
    assert chunks[..1] == first && first[..0] == [] && none + a == a && a + none == a;
    assert Flatten(first[..0]) == none;
    assert Flatten(first) == none + a;
    assert Calls(rate, min, first[..0], acc) == Left([], acc, [], false);
    PrependNone(Scan(rate, min, a, acc));
    assert Calls(rate, min, first, acc) == Scan(rate, min, a, acc);
  }

  /**
   The break is not harmless: at 2 MS/s a call with such a buffer and then an empty one leaves
   the floor accumulator at 1993, where one call with the same samples leaves it at 1000.
   */
  lemma BreakChangesTheFloor(rate: Rate, min: byte, a: seq<Sample>, acc: nat)
    requires rate == 2_000_000 && StartsLongFrame(a) && acc == 0
    ensures Flatten([a, []]) == a
    ensures Scan(rate, min, a, acc).acc == 1000 && Calls(rate, min, [a, []], acc).acc == 1993
  {
    StartOfLongFrameScan(rate, min, a, acc, 1000);
    StartOfLongFrameScan(rate, min, a, 1000, 1993);
    hide Scan, Calls, Flatten;
    TwoCalls(rate, min, a, acc);
  }

  // --- Surfaced frames ----------------------------------------------------------------------

  /** The bytes sliced for a frame, before any correction. */
  function RawBytes(rate: Rate, buf: seq<Sample>, df: DownlinkFormat): (b: seq<byte>)
    requires PreambleSamples(rate) + SamplesForBits(rate, 8 * FrameBytes(df)) <= |buf|
    ensures |b| == FrameBytes(df)
  {
    var p := PreambleSamples(rate);
    var n := 8 * FrameBytes(df);
    PackBytes(SlicedBits(rate, buf[p..p + SamplesForBits(rate, n)], n))
  }

  lemma TopFiveBitsValue(a: byte)
    ensures Value(ByteBits(a)[..5]) == a / 8
  {
    hide BitsOf, Value;
    Pow2Values();
    ValueOfBitsOf(a, 8);
    ValueSlice(ByteBits(a), 0, 5);
  }

  lemma TopFiveBits(a: byte, b: byte)
    ensures ByteBits(a)[..5] == ByteBits(b)[..5] <==> a / 8 == b / 8
  {
    hide ByteBits, Value;
    TopFiveBitsValue(a);
    TopFiveBitsValue(b);
    if a / 8 == b / 8 {
      ValueInjective(ByteBits(a)[..5], ByteBits(b)[..5]);
    }
  }

  lemma DfByTopBits(a: byte, b: byte)
    ensures FromFirstByte(a) == FromFirstByte(b) <==> ByteBits(a)[..5] == ByteBits(b)[..5]
  {
    TopFiveBits(a, b);
    FormatOfByte(a);
    FormatOfByte(b);
  }

  /** The format read from the five-bit prefix is that of the first byte as sliced with the whole frame. */
  lemma FormatIsThatOfSlicedBytes(rate: Rate, buf: seq<Sample>, floor: Sample)
    requires |buf| >= Window(rate) && MoveAt(rate, buf, floor).Take?
    ensures var m := MoveAt(rate, buf, floor);
            && m.step == PreambleSamples(rate) + SamplesForBits(rate, 8 * FrameBytes(m.frame.df)) <= |buf|
            && m.frame.df == FromFirstByte(RawBytes(rate, buf, m.frame.df)[0])
            && !m.frame.df.Reserved?
  {
    SizesOrdered(rate);
    hide SlicedBit, FromFirstByte, SamplesForBits, PreambleScore;
    var p, five := PreambleSamples(rate), SamplesForBits(rate, 5);
    var df := FromFirstByte(PrefixByte(rate, buf[p..p + five]));
    var n := 8 * FrameBytes(df);
    var payload := buf[p..p + SamplesForBits(rate, n)];
    SamplesGrow(rate, 5, n);
    assert payload[..five] == buf[p..p + five];
    PrefixOfFrame(rate, payload, n);
  }

  lemma PrefixOfFrame(rate: Rate, payload: seq<Sample>, n: nat)
    requires n >= 8 && n % 8 == 0 && SamplesForBits(rate, 5) <= |payload|
    ensures FromFirstByte(PrefixByte(rate, payload[..SamplesForBits(rate, 5)]))
         == FromFirstByte(PackBytes(SlicedBits(rate, payload, n))[0])
  {
    hide SlicedBit, FromFirstByte, SamplesForBits, PackBytes;
    var bits := SlicedBits(rate, payload, n);
    var short := SlicedBits(rate, payload[..SamplesForBits(rate, 5)], 5);
    forall k: nat | k < 5
      ensures short[k] == bits[k]
    {
      PrefixBitsAgree(rate, payload, 5, k);
    }
    var raw := PackBytes(bits);
    PackBytesBits(bits);
    FirstByteBits(raw);
    ByteBitsPack(short + Zeros(3));
    assert bits[..5] == short;
    assert ByteBits(raw[0])[..5] == short;
    assert (short + Zeros(3))[..5] == short;
    DfByTopBits(raw[0], PrefixByte(rate, payload[..SamplesForBits(rate, 5)]));
  }

  lemma FirstByteBits(bytes: seq<byte>)
    requires |bytes| > 0
    ensures ByteBits(bytes[0]) == FrameBits(bytes)[..8]
  {
    FrameBitsOne(bytes[0]);
    FrameBitsConcat([bytes[0]], bytes[1..]);
    assert bytes == [bytes[0]] + bytes[1..];
  }

  /**
   A corrected frame keeps the format read before the correction: it disagrees with its own
   first byte exactly when the corrected bit was one of the first five.
   */
  lemma CorrectedFormatDisagreesIff(rate: Rate, buf: seq<Sample>, floor: Sample)
    requires |buf| >= Window(rate) && MoveAt(rate, buf, floor).Take?
    requires MoveAt(rate, buf, floor).frame.crc.Corrected?
    ensures var f := MoveAt(rate, buf, floor).frame;
            && IsClean(f.bytes) && |f.bytes| == FrameBytes(f.df)
            && (FromFirstByte(f.bytes[0]) != f.df <==> f.crc.bit < 5)
  {
    FormatIsThatOfSlicedBytes(rate, buf, floor);
    var f := MoveAt(rate, buf, floor).frame;
    var raw := RawBytes(rate, buf, f.df);
    CorrectedIsFlip(rate, buf, floor);
    hide MoveAt, RawBytes, FromFirstByte;
    FlipInFirstByte(raw, f.crc.bit);
  }

  lemma TakenFrame(rate: Rate, buf: seq<Sample>, floor: Sample)
    requires |buf| >= Window(rate) && MoveAt(rate, buf, floor).Take?
    ensures var m := MoveAt(rate, buf, floor);
            && PreambleSamples(rate) + SamplesForBits(rate, 8 * FrameBytes(m.frame.df)) <= |buf|
            && var raw := RawBytes(rate, buf, m.frame.df);
               (m.frame.crc, m.frame.bytes) == if HasCleanCrc(m.frame.df) then Diagnose(raw, 1) else (Failed, raw)
  {
    SizesOrdered(rate);
    hide Diagnose, SlicedBit, SlicedBits, PackBytes, FromFirstByte, PrefixByte, PreambleScore, SamplesForBits, Confidences;
  }

  lemma CorrectedIsFlip(rate: Rate, buf: seq<Sample>, floor: Sample)
    requires |buf| >= Window(rate) && MoveAt(rate, buf, floor).Take?
    requires MoveAt(rate, buf, floor).frame.crc.Corrected?
    ensures var m := MoveAt(rate, buf, floor);
            && PreambleSamples(rate) + SamplesForBits(rate, 8 * FrameBytes(m.frame.df)) <= |buf|
            && m.frame.crc.bit < 8 * FrameBytes(m.frame.df) && IsClean(m.frame.bytes)
            && m.frame.bytes == FlipBit(RawBytes(rate, buf, m.frame.df), m.frame.crc.bit)
  {
    hide MoveAt, Diagnose, RawBytes, IsClean, FlipBit;
    TakenFrame(rate, buf, floor);
    var f := MoveAt(rate, buf, floor).frame;
    CorrectionIsSound(RawBytes(rate, buf, f.df), 1);
  }

  lemma FlipInFirstByte(raw: seq<byte>, bit: nat)
    requires |raw| > 0 && bit < 8 * |raw|
    ensures FromFirstByte(FlipBit(raw, bit)[0]) != FromFirstByte(raw[0]) <==> bit < 5
  {
    hide FromFirstByte, FlipBit;
    var a, b := raw[0], FlipBit(raw, bit)[0];
    FlipBitFlips(raw, bit);
    FirstByteBits(raw);
    FirstByteBits(FlipBit(raw, bit));
    DfByTopBits(a, b);
    var before, after := FrameBits(raw), FrameBits(FlipBit(raw, bit));
    if bit < 5 {
      assert ByteBits(b)[..5][bit] == !ByteBits(a)[..5][bit];
    } else {
      assert ByteBits(b)[..5] == ByteBits(a)[..5];
    }
  }

  // --- A whole frame ----------------------------------------------------------------------------

  lemma TakesIf(rate: Rate, buf: seq<Sample>, floor: Sample, df: DownlinkFormat, p: nat, five: nat, size: nat)
    requires |buf| >= Window(rate) && p == PreambleSamples(rate) && five == SamplesForBits(rate, 5)
    requires size == SamplesForBits(rate, 8 * FrameBytes(df)) && five <= size && p + size <= |buf|
    requires ClearsThreshold(PreambleScore(rate, buf[..p]), floor) && !df.Reserved?
    requires FromFirstByte(PrefixByte(rate, buf[p..p + five])) == df
    ensures var least := Aggregate(Confidences(rate, buf[p..p + five], 5));
            MoveAt(rate, buf, floor) == Take(p + size, SliceFrame(rate, buf[p..p + size], df, least))
  {
    SizesOrdered(rate);
    hide PreambleScore, PrefixByte, FromFirstByte, SamplesForBits, PreambleSamples, SliceFrame, Confidences;
  }

  lemma SlicedFrameBytes(rate: Rate, payload: seq<Sample>, df: DownlinkFormat, least: byte, sent: seq<byte>)
    requires |sent| == FrameBytes(df) && SlicedBits(rate, payload, 8 * |sent|) == FrameBits(sent)
    ensures var f := SliceFrame(rate, payload, df, least);
            && f.df == df
            && (HasCleanCrc(df) && IsClean(sent) ==> f.bytes == sent && f.crc == Clean)
            && (!HasCleanCrc(df) ==> f.bytes == sent && f.crc == Failed)
  {
    hide SlicedBits, Confidences, PackBytes, FrameBits;
    RepackedBytes(sent);
  }

  lemma PayloadFormat(rate: Rate, payload: seq<Sample>, five: nat, n: nat, sent: seq<byte>)
    requires five == SamplesForBits(rate, 5) <= |payload| && |sent| > 0 && n == 8 * |sent|
    requires SlicedBits(rate, payload, n) == FrameBits(sent)
    ensures FromFirstByte(PrefixByte(rate, payload[..five])) == FromFirstByte(sent[0])
  {
    hide SamplesForBits, PrefixByte, FromFirstByte, SlicedBits, PackBytes, FrameBits;
    PrefixOfFrame(rate, payload, n);
    RepackedBytes(sent);
  }

  lemma RepackedBytes(sent: seq<byte>)
    ensures PackBytes(FrameBits(sent)) == sent
  {
    hide PackBytes, FrameBits;
    PackBytesBits(FrameBits(sent));
    FrameBitsInjective(PackBytes(FrameBits(sent)), sent);
  }

  /** Bytes that a clean parity or an address-XORed format lets through unchanged. */
  predicate IsSendable(sent: seq<byte>) {
    |sent| > 0 &&
    var df := FromFirstByte(sent[0]);
    !df.Reserved? && |sent| == FrameBytes(df) && (HasCleanCrc(df) ==> IsClean(sent))
  }

  /** The move that takes `sent` whole: its own bytes and format, clean if it was clean. */
  predicate TakesWhole(m: Move, step: nat, sent: seq<byte>)
    requires IsSendable(sent)
  {
    var df := FromFirstByte(sent[0]);
    && m.Take? && m.step == step && m.frame.bytes == sent && m.frame.df == df
    && m.frame.crc == if HasCleanCrc(df) then Clean else Failed
  }

  /** At any rate, behind a preamble that clears the threshold, what slices to a sendable frame is taken whole. */
  lemma SlicedFrameIsTaken(rate: Rate, buf: seq<Sample>, floor: Sample, sent: seq<byte>, p: nat, size: nat)
    requires p == PreambleSamples(rate) && size == SamplesForBits(rate, 8 * |sent|) && Window(rate) <= |buf|
    requires p + size <= |buf| && ClearsThreshold(PreambleScore(rate, buf[..p]), floor) && IsSendable(sent)
    requires SlicedBits(rate, buf[p..p + size], 8 * |sent|) == FrameBits(sent)
    ensures TakesWhole(MoveAt(rate, buf, floor), p + size, sent)
  {
    var df, five := FromFirstByte(sent[0]), SamplesForBits(rate, 5);
    SamplesGrow(rate, 5, 8 * |sent|);
    assert buf[p..p + size][..five] == buf[p..p + five];
    hide SamplesForBits, PreambleSamples, PreambleScore, PrefixByte, FromFirstByte, SliceFrame, MoveAt, TakesWhole;
    hide SlicedBits, FrameBits, Confidences, FrameBytes, IsClean, Window;
    PayloadFormat(rate, buf[p..p + size], five, 8 * |sent|, sent);
    TakesIf(rate, buf, floor, df, p, five, size);
    TakenWhole(rate, buf[p..p + size], Aggregate(Confidences(rate, buf[p..p + five], 5)), p + size, sent);
  }

  lemma TakenWhole(rate: Rate, payload: seq<Sample>, least: byte, step: nat, sent: seq<byte>)
    requires IsSendable(sent) && SlicedBits(rate, payload, 8 * |sent|) == FrameBits(sent)
    ensures TakesWhole(Take(step, SliceFrame(rate, payload, FromFirstByte(sent[0]), least)), step, sent)
  {
    hide SlicedBits, FrameBits, FromFirstByte, FrameBytes, SliceFrame, IsClean;
    SlicedFrameBytes(rate, payload, FromFirstByte(sent[0]), least, sent);
  }

  /**
   At any sample rate, an ideal pulse-position waveform behind a preamble that clears the threshold
   is taken whole, for any offset, floor and noise that let the pulse stand out.
   */
  lemma IdealFrameIsTaken(rate: Rate, buf: seq<Sample>, threshold: Sample, sent: seq<byte>, chips: Chips,
                          offset: int, floor: real, h: real, noise: real)
    requires Window(rate) <= |buf| && IsSendable(sent)
    requires var p, size := PreambleSamples(rate), SamplesForBits(rate, 8 * |sent|);
             && p + size <= |buf| && ClearsThreshold(PreambleScore(rate, buf[..p]), threshold)
             && Receives(rate, buf[p..p + size], chips, offset, floor, h, noise)
    requires Modulates(chips, FrameBits(sent)) && StandsOut(rate, offset, h, noise)
    ensures TakesWhole(MoveAt(rate, buf, threshold), PreambleSamples(rate) + SamplesForBits(rate, 8 * |sent|), sent)
  {
    hide SamplesForBits, PreambleSamples, PreambleScore, Receives, Modulates, StandsOut, MoveAt, TakesWhole, IsSendable;
    hide SlicedBits, FrameBits, Window;
    var p, size := PreambleSamples(rate), SamplesForBits(rate, 8 * |sent|);
    WaveformIsSliced(rate, buf[p..p + size], FrameBits(sent), chips, offset, floor, h, noise);
    SlicedFrameIsTaken(rate, buf, threshold, sent, p, size);
  }

  // --- At 2 MS/s --------------------------------------------------------------------------------

  /** The first of each bit's two samples is the brighter one exactly when the bit is one. */
  predicate CarriesBits(samples: seq<Sample>, bits: Bits) {
    |samples| == 2 * |bits| && forall k: nat | k < |bits| :: (samples[2 * k] > samples[2 * k + 1]) == bits[k]
  }

  lemma CarriedBitsAreSliced(rate: Rate, samples: seq<Sample>, bits: Bits)
    requires rate == 2_000_000 && CarriesBits(samples, bits)
    ensures SlicedBits(rate, samples, |bits|) == bits
  {
    hide SlicedBit;
    forall k: nat | k < |bits|
      ensures SlicedBits(rate, samples, |bits|)[k] == bits[k]
    {
      SliceAtTwoMegasamples(samples, k);
      assert (samples[2 * k] > samples[2 * k + 1]) == bits[k];
    }
  }

  /**
   At 2 MS/s no heights matter: behind a preamble that clears the threshold, a frame whose every bit
   has its brighter half on the right side is taken whole.
   */
  lemma TransmittedFrameIsTaken(rate: Rate, buf: seq<Sample>, floor: Sample, sent: seq<byte>)
    requires rate == 2_000_000 && 128 <= |buf| && IsSendable(sent) && 16 + 16 * |sent| <= |buf|
    requires ClearsThreshold(PreambleScore(rate, buf[..16]), floor)
    requires CarriesBits(buf[16..16 + 16 * |sent|], FrameBits(sent))
    ensures Window(rate) == 128 && TakesWhole(MoveAt(rate, buf, floor), 16 + 16 * |sent|, sent)
  {
    SizesAtTwoMegasamples(rate, 56);
    SizesAtTwoMegasamples(rate, 8 * |sent|);
    hide SamplesForBits, PreambleSamples, PreambleScore, MoveAt, TakesWhole, IsSendable, SlicedBits, FrameBits;
    CarriedBitsAreSliced(rate, buf[16..16 + 16 * |sent|], FrameBits(sent));
    SlicedFrameIsTaken(rate, buf, floor, sent, 16, 16 * |sent|);
  }
}
