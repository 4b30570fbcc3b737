/**
 The streaming frame detector on its generic path: every rate from 2 MS/s up except 2.4 MS/s.
 A buffer is the carry-over of the previous call followed by the new samples.
 */
module FrameDetector {
  import opened Gf2
  import opened BitValue
  import opened Crc24
  import opened Downlink
  import opened NoiseFloors
  import opened GenericSlicer

  // --- Sizes -----------------------------------------------------------------------------

  const SHORT_FRAME_BITS := 56
  const LONG_FRAME_BITS := 112

  /** Samples in the shortest thing worth looking at: a preamble and a short frame. */
  function Window(rate: Rate): nat {
    PreambleSamples(rate) + SamplesForBits(rate, SHORT_FRAME_BITS)
  }

  /** Samples in a preamble and a long frame, rounded up to a multiple of 64. */
  function CarrySamplesFor(rate: Rate): nat {
    CeilDiv(PreambleSamples(rate) + SamplesForBits(rate, LONG_FRAME_BITS), 64) * 64
  }

  lemma SizesOrdered(rate: Rate)
    ensures SamplesForBits(rate, 5) <= SamplesForBits(rate, SHORT_FRAME_BITS) <= SamplesForBits(rate, LONG_FRAME_BITS)
    ensures 0 < Window(rate) <= PreambleSamples(rate) + SamplesForBits(rate, LONG_FRAME_BITS) <= CarrySamplesFor(rate)
  {
    SamplesGrow(rate, 5, SHORT_FRAME_BITS);
    SamplesGrow(rate, SHORT_FRAME_BITS, LONG_FRAME_BITS);
  }

  // --- One position ------------------------------------------------------------------------

  /** What the scan does at a position: move on, move on with a frame, or wait for more samples. */
  datatype Move = Skip(step: nat) | Take(step: nat, frame: Frame) | Wait

  /** The first byte as the DF prefix slicer sees it: five bits, the rest zero. */
  function PrefixByte(rate: Rate, samples: seq<Sample>): byte {
    PackByte(SlicedBits(rate, samples, 5) + Zeros(3))
  }

  function SliceFrame(rate: Rate, payload: seq<Sample>, df: DownlinkFormat, prefixConfidence: byte): Frame {
    var n := 8 * FrameBytes(df);
    var raw := PackBytes(SlicedBits(rate, payload, n));
    var (crc, bytes) := if HasCleanCrc(df) then Diagnose(raw, 1) else (Failed, raw);
    var c := Aggregate(Confidences(rate, payload, n));
    Frame(bytes, df, crc, if c <= prefixConfidence then c else prefixConfidence)
  }

  /** The move at the start of `buf`, with the floor already updated by its first sample. */
  function MoveAt(rate: Rate, buf: seq<Sample>, floor: Sample): (m: Move)
    requires |buf| >= Window(rate)
    ensures m.Skip? || m.Take? ==> 0 < m.step <= |buf|
    ensures m.Wait? ==> |buf| < CarrySamplesFor(rate)
  {
    SizesOrdered(rate);
    var p := PreambleSamples(rate);
    if !ClearsThreshold(PreambleScore(rate, buf[..p]), floor) then Skip(1)
    else
      var prefix := buf[p..p + SamplesForBits(rate, 5)];
      var df := FromFirstByte(PrefixByte(rate, prefix));
      if df.Reserved? then Skip(p)
      else
        var size := SamplesForBits(rate, 8 * FrameBytes(df));
        if p + size > |buf| then Wait
        else Take(p + size, SliceFrame(rate, buf[p..p + size], df, Aggregate(Confidences(rate, prefix, 5))))
  }

  // --- A whole buffer ------------------------------------------------------------------------

  /** What a scan leaves: frames, floor accumulator, unconsumed suffix, and whether it stopped at the break. */
  datatype Left = Left(frames: seq<Frame>, acc: nat, rest: seq<Sample>, stopped: bool)

  function Surfaced(frame: Frame, min: byte): seq<Frame> {
    if frame.confidence >= min then [frame] else []
  }

  /** The callback's list once a sliced frame has met the confidence filter. */
  function Surface(frames: seq<Frame>, frame: Frame, min: byte): seq<Frame> {
    if frame.confidence >= min then frames + [frame] else frames
  }

  function FloorOf(acc: nat): Sample {
    var f := Floor(acc, DEFAULT_SHIFT);
    if f < 65535 then f else 65535
  }

  function Prepend(frames: seq<Frame>, l: Left): Left {
    l.(frames := frames + l.frames)
  }

  function Scan(rate: Rate, min: byte, buf: seq<Sample>, acc: nat): Left
    decreases |buf|
  {
    SizesOrdered(rate);
    if |buf| < Window(rate) then Left([], acc, buf, false)
    else
      var next := Next(acc, DEFAULT_SHIFT, buf[0]);
      match MoveAt(rate, buf, FloorOf(next))
      case Skip(step) => Scan(rate, min, buf[step..], next)
      case Take(step, frame) => Prepend(Surfaced(frame, min), Scan(rate, min, buf[step..], next))
      case Wait => Left([], next, buf, true)
  }

  // --- The code --------------------------------------------------------------------------------

  class FrameDetector {
    const rate: Rate
    const tables: Tables
    const floor: NoiseFloor
    const carry: array<Sample>
    var carryLen: nat
    var minConfidence: byte

    ghost predicate Valid()
      reads this, floor
    {
      && rate != 2_400_000
      && tables.Valid()
      && floor.Valid() && floor.shift == DEFAULT_SHIFT
      && carry.Length == CarrySamplesFor(rate) && carryLen <= carry.Length
    }

    constructor (sampleRate: Rate)
      requires sampleRate != 2_400_000
      ensures Valid() && fresh(carry) && fresh(floor) && rate == sampleRate
      ensures carryLen == 0 && minConfidence == 0 && floor.acc == 0
    {
      rate := sampleRate;
      tables := new Tables();
      floor := new NoiseFloor(0, DEFAULT_SHIFT);
      carry := new Sample[CarrySamplesFor(sampleRate)](_ => 0);
      carryLen, minConfidence := 0, 0;
    }

    /** Reads the downlink format from the first five bits, with the least confidence of the five. */
    method SliceDfPrefix(samples: seq<Sample>) returns (df: DownlinkFormat, conf: byte)
      requires |samples| == SamplesForBits(rate, 5)
      ensures df == FromFirstByte(PrefixByte(rate, samples))
      ensures conf == Aggregate(Confidences(rate, samples, 5))
    {
      var bits, confidences := new bool[5], new byte[5];
      SliceBitsCfg(rate, samples, bits, confidences);
      var acc: Bits := Zeros(8);
      for k := 0 to 5
        invariant |acc| == 8 && acc[..k] == bits[..k]
        invariant forall i :: k <= i < 8 ==> !acc[i]
      {
        if bits[k] {
          acc := acc[k := true];
        }
      }
      assert bits[..5] == bits[..];
      assert acc == acc[..5] + acc[5..];
      assert acc == SlicedBits(rate, samples, 5) + Zeros(3);
      df := FromFirstByte(PackByte(acc));
      conf := AggregateConfidence(confidences[..]);
    }

    /** Slices, packs and checks a whole frame. */
    method SliceWhole(payload: seq<Sample>, df: DownlinkFormat, prefixConfidence: byte) returns (frame: Frame)
      requires tables.Valid() && |payload| == SamplesForBits(rate, 8 * FrameBytes(df))
      ensures frame == SliceFrame(rate, payload, df, prefixConfidence)
    {
      hide Diagnose, FrameBits, SlicedBit, Aggregate, PackBytes, SamplesForBits;
      var n := FrameBytes(df);
      var bits, conf, bytes := new bool[8 * n], new byte[8 * n], new byte[n];
      SliceBitsCfg(rate, payload, bits, conf);
      PackBitsMsb(bits, bytes);
      ghost var raw := PackBytes(SlicedBits(rate, payload, 8 * n));
      PackBytesBits(SlicedBits(rate, payload, 8 * n));
      FrameBitsInjective(bytes[..], raw);
      var crc := Failed;
      if HasCleanCrc(df) {
        crc := tables.CheckWithDepth(bytes, 1);
      }
      var aggregate := AggregateConfidence(conf[..]);
      frame := Frame(bytes[..], df, crc, if aggregate <= prefixConfidence then aggregate else prefixConfidence);
    }

    /** What happens at sample `i`, with the floor at `f`. */
    method TryAt(buf: seq<Sample>, i: nat, f: Sample) returns (m: Move)
      requires tables.Valid() && i + Window(rate) <= |buf|
      ensures m == MoveAt(rate, buf[i..], f)
    {
      SizesOrdered(rate);
      hide SliceFrame, PrefixByte, SamplesForBits, CarrySamplesFor, FromFirstByte, PreambleScore, Confidences;
      ghost var rest := buf[i..];
      var p := PreambleSamples(rate);
      assert buf[i..i + p] == rest[..p];
      var score := PreambleScoreCfg(rate, buf[i..i + p]);
      if !ClearsThreshold(score, f) {
        return Skip(1);
      }
      var payloadStart := i + p;
      var dfSamples := buf[payloadStart..payloadStart + SamplesForBits(rate, 5)];
      assert dfSamples == rest[p..p + SamplesForBits(rate, 5)];
      var df, dfConf := SliceDfPrefix(dfSamples);
      if df.Reserved? {
        return Skip(p);
      }
      var size := SamplesForBits(rate, 8 * FrameBytes(df));
      if payloadStart + size > |buf| {
        return Wait;
      }
      var payload := buf[payloadStart..payloadStart + size];
      assert payload == rest[p..p + size];
      var frame := SliceWhole(payload, df, dfConf);
      m := Take(p + size, frame);
    }

    /** One round of the loop: updates the floor by sample `i` and makes the move there. */
    method Advance(buf: seq<Sample>, i: nat, sofar: seq<Frame>) returns (frames: seq<Frame>, next: nat, stopped: bool)
      requires Valid() && i + Window(rate) <= |buf|
      modifies floor`acc
      ensures Valid() && next <= |buf| && (stopped || i < next)
      ensures Resume(rate, minConfidence, sofar, buf, i, old(floor.acc), false)
           == Resume(rate, minConfidence, frames, buf, next, floor.acc, stopped)
    {
      SizesOrdered(rate);
      hide Resume, MoveAt, Next, Window, Surface;
      ResumeStep(rate, minConfidence, sofar, buf, i, floor.acc);
      var f := floor.Update(buf[i]);
      var m := TryAt(buf, i, f);
      match m {
        case Skip(step) =>
          frames, next, stopped := sofar, i + step, false;
        case Take(step, frame) =>
          frames, next, stopped := Surface(sofar, frame, minConfidence), i + step, false;
        case Wait =>
          frames, next, stopped := sofar, i, true;
      }
    }

    /** Walks the buffer until the window no longer fits, or a long frame is incomplete. */
    method Walk(buf: seq<Sample>) returns (frames: seq<Frame>, i: nat, stopped: bool)
      requires Valid()
      modifies floor`acc
      ensures Valid() && i <= |buf|
      ensures Scan(rate, minConfidence, buf, old(floor.acc)) == Left(frames, floor.acc, buf[i..], stopped)
    {
      frames, i, stopped := [], 0, false;
      assert buf[0..] == buf;
      ghost var target := Resume(rate, minConfidence, [], buf, 0, floor.acc, false);
      assert target == Scan(rate, minConfidence, buf, floor.acc);
      hide Resume, Scan, Window;
      while !stopped && i + Window(rate) <= |buf|
        invariant i <= |buf| && Valid()
        invariant target == Resume(rate, minConfidence, frames, buf, i, floor.acc, stopped)
        decreases !stopped, |buf| - i
      {
        frames, i, stopped := Advance(buf, i, frames);
      }
      ResumeEnd(rate, minConfidence, frames, buf, i, floor.acc, stopped);
    }

    /** Keeps the unconsumed tail, or as much of its end as the carry buffer holds. */
    method StashTail(buf: seq<Sample>, i: nat)
      requires i <= |buf|
      modifies this`carryLen, carry
      ensures carryLen <= carry.Length
      ensures |buf| - i <= carry.Length ==> carry[..carryLen] == buf[i..]
    {
      var n := |buf|;
      var tailLen := n - i;
      var retain := if tailLen <= carry.Length then tailLen else carry.Length;
      var copyFrom := n - retain;
      forall k | 0 <= k < retain {
        carry[k] := buf[copyFrom + k];
      }
      carryLen := retain;
    }

    /**
     Consumes a chunk of magnitudes. The carry afterwards is exactly what the scan left
     unconsumed: it always fits, so nothing is cut off.
     */
    method Process(samples: seq<Sample>) returns (frames: seq<Frame>)
      requires Valid()
      modifies this`carryLen, carry, floor`acc
      ensures Valid()
      ensures var l := Scan(rate, minConfidence, old(carry[..carryLen]) + samples, old(floor.acc));
              frames == l.frames && floor.acc == l.acc && carry[..carryLen] == l.rest
    {
      var buf := carry[..carryLen] + samples;
      var i, stopped;
      RestFits(rate, minConfidence, buf, floor.acc);
      frames, i, stopped := Walk(buf);
      StashTail(buf, i);
    }
  }

  /** Whatever a scan leaves is shorter than the carry buffer. */
  lemma {:induction false} RestFits(rate: Rate, min: byte, buf: seq<Sample>, acc: nat)
    ensures |Scan(rate, min, buf, acc).rest| <= CarrySamplesFor(rate)
    decreases |buf|
  {
    SizesOrdered(rate);
    hide MoveAt, CarrySamplesFor, Window;
    if |buf| >= Window(rate) {
      var next := Next(acc, DEFAULT_SHIFT, buf[0]);
      var m := MoveAt(rate, buf, FloorOf(next));
      if !m.Wait? {
        RestFits(rate, min, buf[m.step..], next);
      }
    }
  }

  /** The outcome of a walk that stands at sample `i` with these frames behind it. */
  function Resume(rate: Rate, min: byte, frames: seq<Frame>, buf: seq<Sample>, i: nat, acc: nat, stopped: bool): Left
    requires i <= |buf|
  {
    if stopped then Left(frames, acc, buf[i..], true) else Prepend(frames, Scan(rate, min, buf[i..], acc))
  }

  lemma ResumeEnd(rate: Rate, min: byte, frames: seq<Frame>, buf: seq<Sample>, i: nat, acc: nat, stopped: bool)
    requires i <= |buf| && (stopped || i + Window(rate) > |buf|)
    ensures Resume(rate, min, frames, buf, i, acc, stopped) == Left(frames, acc, buf[i..], stopped)
  {
  }

  lemma ResumeStep(rate: Rate, min: byte, frames: seq<Frame>, buf: seq<Sample>, i: nat, acc: nat)
    requires i + Window(rate) <= |buf|
    ensures var next := Next(acc, DEFAULT_SHIFT, buf[i]);
            var m := MoveAt(rate, buf[i..], FloorOf(next));
            var now := Resume(rate, min, frames, buf, i, acc, false);
            && (m.Skip? ==> now == Resume(rate, min, frames, buf, i + m.step, next, false))
            && (m.Take? ==> now == Resume(rate, min, Surface(frames, m.frame, min), buf, i + m.step, next, false))
            && (m.Wait? ==> now == Resume(rate, min, frames, buf, i, next, true))
  {
    SizesOrdered(rate);
    hide MoveAt;
    var next := Next(acc, DEFAULT_SHIFT, buf[i]);
    var m := MoveAt(rate, buf[i..], FloorOf(next));
    if !m.Wait? {
      assert buf[i..][m.step..] == buf[i + m.step..];
    }
    if m.Take? {
      var tail := Scan(rate, min, buf[i + m.step..], next).frames;
      assert frames + (Surfaced(m.frame, min) + tail) == Surface(frames, m.frame, min) + tail;
    }
  }
}
