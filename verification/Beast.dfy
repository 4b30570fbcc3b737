/**
 The Beast binary format: a marker byte, then mode, timestamp, signal and frame bytes with
 every marker byte among them doubled; and a parser that shows nothing is lost.
 */
module Beast {
  import opened Wrappers
  import opened BitValue
  import opened Crc24
  import opened Downlink

  const MARKER: byte := 0x1A
  const SHORT_MODE: byte := 0x32
  const LONG_MODE: byte := 0x33

  datatype BeastMessage = BeastMessage(mode: byte, timestamp: nat, signal: byte, data: seq<byte>)

  // --- Encoding ------------------------------------------------------------------------------

  function Escape(b: byte): seq<byte> {
    if b == MARKER then [b, MARKER] else [b]
  }

  function Escaped(bytes: seq<byte>): seq<byte> {
    if |bytes| == 0 then [] else Escaped(bytes[..|bytes| - 1]) + Escape(bytes[|bytes| - 1])
  }

  /** Six bytes, big end first. */
  function TimestampBytes(ts: nat): (b: seq<byte>)
    ensures |b| == 6
  {
    [ts / 0x100_0000_0000 % 256, ts / 0x1_0000_0000 % 256, ts / 0x100_0000 % 256,
     ts / 0x1_0000 % 256, ts / 0x100 % 256, ts % 256]
  }

  function Header(mode: byte, ts: nat, signal: byte): (h: seq<byte>)
    ensures |h| == 8
  {
    [mode] + TimestampBytes(ts) + [signal]
  }

  function ModeOf(n: nat): Option<byte> {
    if n == SHORT_FRAME_BYTES then Some(SHORT_MODE) else if n == LONG_FRAME_BYTES then Some(LONG_MODE) else None
  }

  /** What one frame adds to the output; nothing for a length that has no mode. */
  function Encode(frame: Frame, ts: nat): seq<byte> {
    match ModeOf(|frame.bytes|)
    case None => []
    case Some(mode) => [MARKER] + (Escaped(Header(mode, ts, frame.confidence)) + Escaped(frame.bytes))
  }

  method PushEscaped(out: seq<byte>, bytes: seq<byte>) returns (r: seq<byte>)
    ensures r == out + Escaped(bytes)
  {
    r := out;
    for k := 0 to |bytes|
      invariant r == out + Escaped(bytes[..k])
    {
      assert bytes[..k + 1][..k] == bytes[..k];
      r := r + [bytes[k]];
      if bytes[k] == MARKER {
        r := r + [MARKER];
      }
    }
    assert bytes[..|bytes|] == bytes;
  }

  method EncodeBeastFrame(frame: Frame, ts: nat, out: seq<byte>) returns (r: seq<byte>)
    ensures r == out + Encode(frame, ts)
  {
    r := out;
    var mode: byte;
    if |frame.bytes| == 7 {
      mode := SHORT_MODE;
    } else if |frame.bytes| == 14 {
      mode := LONG_MODE;
    } else {
      return;
    }
    r := r + [MARKER];
    r := PushEscaped(r, Header(mode, ts, frame.confidence));
    r := PushEscaped(r, frame.bytes);
  }

  /** A 48-bit counter of 12 MHz ticks. */
  function MlatTimestamp(nanos: nat): nat {
    nanos * 12 / 1000 % 0x1_0000_0000_0000
  }

  /** The first nanosecond of the second lap: 271 days, 11 hours, 37 minutes and 28 seconds in. */
  const ROLLOVER: nat := 23_456_248_059_221_334

  /** The counter shows the true number of ticks exactly until it rolls over, and there it starts again at zero. */
  lemma TimestampIsExactIff(nanos: nat)
    ensures MlatTimestamp(nanos) == nanos * 12 / 1000 <==> nanos < ROLLOVER
    ensures nanos == ROLLOVER ==> MlatTimestamp(nanos) == 0
  {
    var ticks := nanos * 12 / 1000;
    assert ticks < 0x1_0000_0000_0000 <==> nanos < ROLLOVER;
  }

  /** So it never runs backwards between two times of one lap. */
  lemma TimestampIsMonotone(a: nat, b: nat)
    requires a <= b < ROLLOVER
    ensures MlatTimestamp(a) <= MlatTimestamp(b)
  {
    TimestampIsExactIff(a);
    TimestampIsExactIff(b);
    hide MlatTimestamp;
    assert a * 12 / 1000 <= b * 12 / 1000;
  }

  // --- Parsing -------------------------------------------------------------------------------

  datatype Taken = Taken(bytes: seq<byte>, rest: seq<byte>)

  /** Reads `n` bytes, undoing the doubling. */
  function Take(s: seq<byte>, n: nat): (t: Option<Taken>)
    ensures t.Some? ==> |t.value.bytes| == n && |t.value.rest| <= |s| - n
  {
    if n == 0 then Some(Taken([], s))
    else if |s| == 0 || (s[0] == MARKER && (|s| == 1 || s[1] != MARKER)) then None
    else
      match Take(if s[0] == MARKER then s[2..] else s[1..], n - 1)
      case None => None
      case Some(t) => Some(Taken([s[0]] + t.bytes, t.rest))
  }

  function ReadTimestamp(b: seq<byte>): nat
    requires |b| == 6
  {
    0x100_0000_0000 * (b[0] as int) + 0x1_0000_0000 * (b[1] as int) + 0x100_0000 * (b[2] as int)
    + 0x1_0000 * (b[3] as int) + 0x100 * (b[4] as int) + b[5]
  }

  datatype Parsed = Parsed(message: BeastMessage, rest: seq<byte>)

  function DataLength(mode: byte): Option<nat> {
    if mode == SHORT_MODE then Some(SHORT_FRAME_BYTES) else if mode == LONG_MODE then Some(LONG_FRAME_BYTES) else None
  }

  function ParseOne(s: seq<byte>): (p: Option<Parsed>)
    ensures p.Some? ==> |p.value.rest| < |s|
  {
    if |s| == 0 || s[0] != MARKER then None
    else
      match Take(s[1..], 8)
      case None => None
      case Some(h) =>
        if DataLength(h.bytes[0]).None? then None
        else
          match Take(h.rest, DataLength(h.bytes[0]).value)
          case None => None
          case Some(d) =>
            Some(Parsed(BeastMessage(h.bytes[0], ReadTimestamp(h.bytes[1..7]), h.bytes[7], d.bytes), d.rest))
  }

  /** Parses messages until the input is used up. */
  function ParseAll(s: seq<byte>): Option<seq<BeastMessage>>
    decreases |s|
  {
    if |s| == 0 then Some([])
    else
      match ParseOne(s)
      case None => None
      case Some(p) =>
        match ParseAll(p.rest)
        case None => None
        case Some(messages) => Some([p.message] + messages)
  }

  // --- Nothing is lost -------------------------------------------------------------------------

  lemma EscapedSnoc(init: seq<byte>, b: byte)
    ensures Escaped(init + [b]) == Escaped(init) + Escape(b)
    ensures Escaped([]) == []
  {
    assert (init + [b])[..|init|] == init;
  }

  lemma {:induction false} EscapedCons(b: byte, bytes: seq<byte>)
    ensures Escaped([b] + bytes) == Escape(b) + Escaped(bytes)
  {
    hide Escaped, Escape;
    if |bytes| == 0 {
      EscapedSnoc([], b);
      assert bytes == [] && [b] + bytes == [] + [b];
    } else {
      var init, last := bytes[..|bytes| - 1], bytes[|bytes| - 1];
      EscapedCons(b, init);
      EscapedSnoc(init, last);
      EscapedSnoc([b] + init, last);
      assert bytes == init + [last] && [b] + bytes == ([b] + init) + [last];
    }
  }

  /** Reading one escaped byte. */
  lemma TakeOne(b: byte, more: seq<byte>, n: nat)
    ensures Take(Escape(b) + more, n + 1) ==
            match Take(more, n)
            case None => None
            case Some(t) => Some(Taken([b] + t.bytes, t.rest))
  {
    var s := Escape(b) + more;
    assert s[0] == b && (if b == MARKER then s[2..] else s[1..]) == more;
  }

  lemma TakeNone(none: seq<byte>, rest: seq<byte>)
    requires |none| == 0
    ensures Take(Escaped(none) + rest, 0) == Some(Taken(none, rest))
  {
    assert Escaped(none) + rest == rest;
  }

  /** Escaped bytes read back, whatever follows them. */
  lemma {:induction false} TakeEscaped(bytes: seq<byte>, rest: seq<byte>)
    ensures Take(Escaped(bytes) + rest, |bytes|) == Some(Taken(bytes, rest))
  {
    hide Take, Escape, Escaped;
    if |bytes| == 0 {
      TakeNone(bytes, rest);
    } else {
      var b, tail := bytes[0], bytes[1..];
      assert bytes == [b] + tail;
      EscapedCons(b, tail);
      TakeEscaped(tail, rest);
      TakeOne(b, Escaped(tail) + rest, |tail|);
      assert Escaped(bytes) + rest == Escape(b) + (Escaped(tail) + rest);
    }
  }

  /** The bytes are the remainders of dividing by 256 again and again. */
  lemma ByDivision(ts: nat)
    ensures var (a, b, c) := (ts / 256, ts / 256 / 256, ts / 256 / 256 / 256);
            TimestampBytes(ts) == [c / 256 / 256 % 256, c / 256 % 256, c % 256, b % 256, a % 256, ts % 256]
  {
    var a := ts / 256;
    var b := a / 256;
    var c := b / 256;
    var d := c / 256;
    var e := d / 256;
    assert ts / 0x1_0000 == b && ts / 0x100_0000 == c && ts / 0x1_0000_0000 == d && ts / 0x100_0000_0000 == e;
  }

  lemma TimestampReadsBack(ts: nat)
    requires ts < 0x1_0000_0000_0000
    ensures ReadTimestamp(TimestampBytes(ts)) == ts
  {
    ByDivision(ts);
    hide TimestampBytes;
  }

  function MessageOf(frame: Frame, ts: nat): BeastMessage
    requires IsSendable(frame)
  {
    BeastMessage(ModeOf(|frame.bytes|).value, ts, frame.confidence, frame.bytes)
  }

  predicate IsSendable(frame: Frame) {
    ModeOf(|frame.bytes|).Some?
  }

  lemma ParseOneEncoded(frame: Frame, ts: nat, rest: seq<byte>)
    requires IsSendable(frame) && ts < 0x1_0000_0000_0000
    ensures ParseOne(Encode(frame, ts) + rest) == Some(Parsed(MessageOf(frame, ts), rest))
  {
    var mode := ModeOf(|frame.bytes|).value;
    var header := Header(mode, ts, frame.confidence);
    var s := Encode(frame, ts) + rest;
    var body := Escaped(frame.bytes) + rest;
    assert s[1..] == Escaped(header) + body;
    TakeEscaped(header, body);
    TakeEscaped(frame.bytes, rest);
    TimestampReadsBack(ts);
    hide Escaped, Take, TimestampBytes, ReadTimestamp;
    assert header[1..7] == TimestampBytes(ts);
  }

  lemma EscapedNone()
    ensures Escaped([]) == []
  {
  }

  lemma {:induction false} EscapedConcat(a: seq<byte>, b: seq<byte>)
    ensures Escaped(a + b) == Escaped(a) + Escaped(b)
  {
    hide Escaped, Escape;
    EscapedNone();
    if |b| == 0 {
      assert a + b == a && b == [];
    } else {
      var init, last := b[..|b| - 1], b[|b| - 1];
      EscapedConcat(a, init);
      EscapedSnoc(a + init, last);
      EscapedSnoc(init, last);
      assert a + b == (a + init) + [last] && b == init + [last];
    }
  }

  /** Exactly the marker is doubled. */
  lemma OneEscaped(b: byte)
    ensures Escaped([b]) == if b == 0x1A then [0x1A, 0x1A] else [b]
  {
    EscapedSnoc([], b);
    assert [] + [b] == [b];
  }

  lemma TimestampIsBigEndian(ts: nat)
    ensures Value(FrameBits(TimestampBytes(ts))) == ts % 0x1_0000_0000_0000
  {
    var low := ts % 0x1_0000_0000_0000;
    LowBytes(ts);
    TimestampReadsBack(low);
    hide TimestampBytes, FrameBits, Value;
    SixBytes(TimestampBytes(ts));
  }

  lemma SixBytes(b: seq<byte>)
    requires |b| == 6
    ensures Value(FrameBits(b)) == ReadTimestamp(b)
  {
    hide FrameBits, Value;
    FrameValue([], b[0]);
    FrameValue(b[..1], b[1]);
    FrameValue(b[..2], b[2]);
    FrameValue(b[..3], b[3]);
    FrameValue(b[..4], b[4]);
    FrameValue(b[..5], b[5]);
    assert b[..1] == [] + [b[0]] && b[..2] == b[..1] + [b[1]] && b[..3] == b[..2] + [b[2]];
    assert b[..4] == b[..3] + [b[3]] && b[..5] == b[..4] + [b[4]] && b == b[..5] + [b[5]];
  }

  lemma DropLap(q: nat, low: nat, m: nat)
    ensures (256 * (q * m) + low) / 256 == q * m + low / 256 && (256 * (q * m) + low) % 256 == low % 256
  {
    var x := q * m;
    assert (256 * x + low) / 256 == x + low / 256;
  }

  /** The counter's low 48 bits decide its bytes. */
  lemma LowBytes(ts: nat)
    ensures TimestampBytes(ts % 0x1_0000_0000_0000) == TimestampBytes(ts)
  {
    hide TimestampBytes;
    var q, low := ts / 0x1_0000_0000_0000, ts % 0x1_0000_0000_0000;
    ByDivision(ts);
    ByDivision(low);
    DropLap(q, low, 0x100_0000_0000);
    DropLap(q, low / 256, 0x1_0000_0000);
    DropLap(q, low / 256 / 256, 0x100_0000);
    DropLap(q, low / 256 / 256 / 256, 0x1_0000);
    DropLap(q, low / 256 / 256 / 256 / 256, 0x100);
    DropLap(q, low / 256 / 256 / 256 / 256 / 256, 1);
    assert ts == 256 * (q * 0x100_0000_0000) + low;
  }

  /**
   A message, byte by byte before the doubling: 1A, then 32 for a short or 33 for a long frame, the low
   48 bits of the timestamp with the high byte first, the confidence, and the frame. Frames of any other
   length give nothing.
   */
  lemma EncodedBytes(frame: Frame, ts: nat) returns (header: seq<byte>)
    ensures |frame.bytes| != 7 && |frame.bytes| != 14 ==> Encode(frame, ts) == []
    ensures |header| == 8
    ensures |frame.bytes| == 7 || |frame.bytes| == 14 ==>
              && Encode(frame, ts) == [0x1A] + Escaped(header + frame.bytes)
              && header[0] == (if |frame.bytes| == 7 then 0x32 else 0x33)
              && Value(FrameBits(header[1..7])) == ts % 0x1_0000_0000_0000 && header[7] == frame.confidence
  {
    var mode := if |frame.bytes| == 7 then SHORT_MODE else LONG_MODE;
    header := Header(mode, ts, frame.confidence);
    EscapedConcat(header, frame.bytes);
    TimestampIsBigEndian(ts);
    hide Escaped, TimestampBytes, Value, FrameBits;
    assert header[1..7] == TimestampBytes(ts);
  }

  /** A frame and the timestamp it was sent with. */
  datatype Sent = Sent(frame: Frame, ts: nat)

  predicate AllSendable(sent: seq<Sent>) {
    forall k :: 0 <= k < |sent| ==> IsSendable(sent[k].frame) && sent[k].ts < 0x1_0000_0000_0000
  }

  function EncodeAll(sent: seq<Sent>): seq<byte> {
    if |sent| == 0 then [] else Encode(sent[0].frame, sent[0].ts) + EncodeAll(sent[1..])
  }

  function Messages(sent: seq<Sent>): seq<BeastMessage>
    requires AllSendable(sent)
  {
    seq(|sent|, k requires 0 <= k < |sent| => MessageOf(sent[k].frame, sent[k].ts))
  }

  lemma MessagesCons(sent: seq<Sent>)
    requires AllSendable(sent)
    ensures |sent| == 0 ==> Messages(sent) == []
    ensures |sent| > 0 ==>
              && AllSendable(sent[1..])
              && Messages(sent) == [MessageOf(sent[0].frame, sent[0].ts)] + Messages(sent[1..])
  {
    hide MessageOf;
  }

  lemma EncodeAllCons(sent: seq<Sent>)
    requires AllSendable(sent) && |sent| > 0
    ensures EncodeAll(sent) == Encode(sent[0].frame, sent[0].ts) + EncodeAll(sent[1..]) && |EncodeAll(sent)| > 0
  {
  }

  /** For every list of frames, the concatenated encoding parses back to the same list. */
  lemma {:induction false} ParseAllEncoded(sent: seq<Sent>)
    requires AllSendable(sent)
    ensures ParseAll(EncodeAll(sent)) == Some(Messages(sent))
  {
    MessagesCons(sent);
    hide Messages, AllSendable;
    if |sent| > 0 {
      ParseAllEncoded(sent[1..]);
      EncodeAllCons(sent);
      assert IsSendable(sent[0].frame) && sent[0].ts < 0x1_0000_0000_0000 by {
        FirstIsSendable(sent);
      }
      hide EncodeAll, ParseOne, Encode, MessageOf;
      ParseOneEncoded(sent[0].frame, sent[0].ts, EncodeAll(sent[1..]));
    }
  }

  lemma FirstIsSendable(sent: seq<Sent>)
    requires AllSendable(sent) && |sent| > 0
    ensures IsSendable(sent[0].frame) && sent[0].ts < 0x1_0000_0000_0000
  {
  }

  /** Two lists with the same encoding carry the same messages, one for one. */
  lemma EncodingIsUnique(a: seq<Sent>, b: seq<Sent>)
    requires AllSendable(a) && AllSendable(b) && EncodeAll(a) == EncodeAll(b)
    ensures Messages(a) == Messages(b)
  {
    ParseAllEncoded(a);
    ParseAllEncoded(b);
  }
}
