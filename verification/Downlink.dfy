/** Mode S downlink formats, the high five bits of the first byte, and demodulated frames. */
module Downlink {
  import opened BitValue
  import opened Crc24

  datatype DownlinkFormat =
    | ShortAcas
    | AltitudeReply
    | IdentityReply
    | AllCallReply
    | LongAcas
    | ExtendedSquitter
    | TisB
    | CommBAltitude
    | CommBIdentity
    | Reserved(raw: nat)

  /** A demodulated frame: its bytes, 7 or 14 of them when it comes from a demodulator. */
  datatype Frame = Frame(bytes: seq<byte>, df: DownlinkFormat, crc: CrcOutcome, confidence: byte)

  function FromFirstByte(b: byte): DownlinkFormat {
    match b / 8
    case 0 => ShortAcas
    case 4 => AltitudeReply
    case 5 => IdentityReply
    case 11 => AllCallReply
    case 16 => LongAcas
    case 17 => ExtendedSquitter
    case 18 => TisB
    case 20 => CommBAltitude
    case 21 => CommBIdentity
    case other => Reserved(other)
  }

  function RawValue(df: DownlinkFormat): nat {
    match df
    case ShortAcas => 0
    case AltitudeReply => 4
    case IdentityReply => 5
    case AllCallReply => 11
    case LongAcas => 16
    case ExtendedSquitter => 17
    case TisB => 18
    case CommBAltitude => 20
    case CommBIdentity => 21
    case Reserved(v) => v
  }

  /** Bit 16 of the code decides the length. */
  function FrameBytes(df: DownlinkFormat): (n: nat)
    ensures n == SHORT_FRAME_BYTES || n == LONG_FRAME_BYTES
  {
    if RawValue(df) / 16 % 2 == 1 then LONG_FRAME_BYTES else SHORT_FRAME_BYTES
  }

  /** Whether a good frame has a zero syndrome; the others XOR their parity with an address. */
  predicate HasCleanCrc(df: DownlinkFormat) {
    df.AllCallReply? || df.ExtendedSquitter? || df.TisB?
  }

  /** Formats the code has no name for. */
  predicate IsUnknown(format: nat) {
    format !in {0, 4, 5, 11, 16, 17, 18, 20, 21}
  }

  /** The format keeps the five bits it was read from, and the first of them decides the length. */
  lemma FormatOfByte(b: byte)
    ensures RawValue(FromFirstByte(b)) == b / 8
    ensures FrameBytes(FromFirstByte(b)) == LONG_FRAME_BYTES <==> b >= 128
  {
  }

  /** The checked formats are 11, 17 and 18; nine formats are known, and the rest are reserved. */
  lemma FormatsByNumber(b: byte)
    ensures HasCleanCrc(FromFirstByte(b)) <==> b / 8 in {11, 17, 18}
    ensures FromFirstByte(b).Reserved? <==> IsUnknown(b / 8)
  {
  }
}
