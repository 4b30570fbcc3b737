/**
 Packing fields into a message field, most significant first, and the proof that the decoders
 undo it.
 */
module MessageFields {
  import opened Wrappers
  import opened Gf2
  import opened BitValue
  import opened Cpr
  import opened Messages

  /** A value and the number of bits it is sent in. */
  datatype Slot = Slot(value: nat, width: nat)

  predicate Fits(s: Slot) {
    s.value < Pow2(s.width)
  }

  predicate AllFit(slots: seq<Slot>) {
    forall k :: 0 <= k < |slots| ==> Fits(slots[k])
  }

  /** The bit index at which slot `k` begins. */
  function Offset(slots: seq<Slot>, k: nat): nat
    requires k <= |slots|
  {
    if k == 0 then 0 else Offset(slots, k - 1) + slots[k - 1].width
  }

  function PackUpTo(slots: seq<Slot>, k: nat): (b: Bits)
    requires k <= |slots|
    ensures |b| == Offset(slots, k)
  {
    if k == 0 then [] else PackUpTo(slots, k - 1) + BitsOf(slots[k - 1].value, slots[k - 1].width)
  }

  lemma {:induction false} PackPrefix(slots: seq<Slot>, j: nat, k: nat)
    requires j <= k <= |slots|
    ensures Offset(slots, j) <= Offset(slots, k)
    ensures PackUpTo(slots, k)[..Offset(slots, j)] == PackUpTo(slots, j)
  {
    if j < k {
      PackPrefix(slots, j, k - 1);
    }
  }

  /** Every slot reads back as what was packed into it. */
  lemma SlotReadsBack(slots: seq<Slot>, k: nat)
    requires k < |slots| && Fits(slots[k])
    ensures Offset(slots, k) <= Offset(slots, k + 1) <= Offset(slots, |slots|)
    ensures FieldOf(PackUpTo(slots, |slots|), Offset(slots, k), Offset(slots, k + 1)) == slots[k].value
  {
    PackPrefix(slots, k + 1, |slots|);
    PackPrefix(slots, k, k + 1);
    hide Value, Pow2, BitsOf;
    var all, from, to := PackUpTo(slots, |slots|), Offset(slots, k), Offset(slots, k + 1);
    var field := BitsOf(slots[k].value, slots[k].width);
    assert PackUpTo(slots, k + 1)[from..to] == field;
    assert all[from..to] == all[..to][from..to];
    ValueOfBitsOf(slots[k].value, slots[k].width);
  }

  predicate IsMeLayout(slots: seq<Slot>) {
    Offset(slots, |slots|) == 56 && AllFit(slots)
  }

  function Pack(slots: seq<Slot>): (me: Me)
    requires IsMeLayout(slots)
  {
    PackBytes(PackUpTo(slots, |slots|))
  }

  lemma PackedField(slots: seq<Slot>, k: nat, pos: nat, len: nat)
    requires IsMeLayout(slots) && k < |slots| && slots[k].width == len && 1 <= len <= 32
    requires pos == Offset(slots, k) + 1
    ensures pos - 1 + len <= 56
    ensures BitField(Pack(slots), pos, len) == slots[k].value
  {
    SlotReadsBack(slots, k);
    hide FieldOf, PackUpTo, Offset, AllFit, FrameBits, PackBytes;
    PackBytesBits(PackUpTo(slots, |slots|));
  }

  lemma PackedBit(slots: seq<Slot>, k: nat, pos: nat)
    requires IsMeLayout(slots) && k < |slots| && slots[k].width == 1 && pos == Offset(slots, k) + 1
    ensures pos <= 56
    ensures BitFlag(Pack(slots), pos) == (slots[k].value == 1)
  {
    PackedField(slots, k, pos, 1);
    hide FrameBits, Pack;
    OneBit(FrameBits(Pack(slots)), pos - 1);
  }

  lemma OneBit(a: Bits, i: nat)
    requires i < |a|
    ensures FieldOf(a, i, i + 1) == if a[i] then 1 else 0
  {
    assert a[i..i + 1][..0] == [];
    assert a[i..i + 1] == [a[i]];
  }

  lemma FirstByte(me: Me)
    ensures me[0] / 8 == BitField(me, 1, 5) && me[0] % 8 == BitField(me, 6, 3)
  {
    hide FrameBits, Value, Pow2;
    BitsOfFirstByte(me);
    Pow2Values();
  }

  lemma BitsOfFirstByte(me: Me)
    ensures BitField(me, 1, 5) == Masked(me[0], 3, 5) && BitField(me, 6, 3) == Masked(me[0], 0, 3)
    ensures Masked(me[0], 3, 5) == me[0] / 8 && Masked(me[0], 0, 3) == me[0] % 8
  {
    FrameBitsSlice(me, 0, 1);
    FrameBitsOne(me[0]);
    ByteValue(me[0]);
    assert me[0..1] == [me[0]];
    Pow2Values();
    MaskedByte(me[0]);
    hide FrameBits, Value, Pow2, IsPart, FieldOf, Masked;
    FieldOfPart(FrameBits(me), FrameBits(me[0..1]), 0, 5, 0);
    FieldOfPart(FrameBits(me), FrameBits(me[0..1]), 5, 8, 0);
  }

  lemma MaskedByte(b: byte)
    ensures Masked(b, 3, 5) == b / 8 && Masked(b, 0, 3) == b % 8
  {
    Pow2Values();
  }

  lemma EightOffsets(s: seq<Slot>)
    requires |s| >= 8
    ensures Offset(s, 0) == 0
    ensures Offset(s, 1) == s[0].width && Offset(s, 2) == Offset(s, 1) + s[1].width
    ensures Offset(s, 3) == Offset(s, 2) + s[2].width && Offset(s, 4) == Offset(s, 3) + s[3].width
    ensures Offset(s, 5) == Offset(s, 4) + s[4].width && Offset(s, 6) == Offset(s, 5) + s[5].width
    ensures Offset(s, 7) == Offset(s, 6) + s[6].width && Offset(s, 8) == Offset(s, 7) + s[7].width
  {
  }

  // --- Airborne ----------------------------------------------------------------------------

  function AirborneSlots(tc: nat, status: nat, nic: nat, ac12: nat, t: bool, cpr: CprPosition): seq<Slot> {
    [Slot(tc, 5), Slot(status, 2), Slot(nic, 1), Slot(ac12, 12), Slot(Flag(t), 1), Slot(Flag(cpr.odd), 1),
     Slot(cpr.latCpr, 17), Slot(cpr.lonCpr, 17)]
  }

  /** The airborne decoder undoes the layout, for every content of the fields. */
  lemma AirborneRoundTrip(tc: nat, status: nat, nic: nat, ac12: nat, t: bool, cpr: CprPosition)
    requires tc < 32 && status < 4 && nic < 2 && ac12 < 4096
    ensures var slots := AirborneSlots(tc, status, nic, ac12, t, cpr);
            IsMeLayout(slots) && DecodeAirborne(Pack(slots)) == AirbornePosition(DecodeAltitude(ac12, tc), cpr)
  {
    var slots := AirborneSlots(tc, status, nic, ac12, t, cpr);
    AirborneOffsets(tc, status, nic, ac12, t, cpr);
    hide Offset, Fits, Pack, BitField, BitFlag, AllFit;
    PackedField(slots, 0, 1, 5);
    PackedField(slots, 3, 9, 12);
    PackedBit(slots, 5, 22);
    PackedField(slots, 6, 23, 17);
    PackedField(slots, 7, 40, 17);
  }

  lemma AirborneOffsets(tc: nat, status: nat, nic: nat, ac12: nat, t: bool, cpr: CprPosition)
    requires tc < 32 && status < 4 && nic < 2 && ac12 < 4096
    ensures var s := AirborneSlots(tc, status, nic, ac12, t, cpr);
            && IsMeLayout(s)
            && Offset(s, 0) == 0 && Offset(s, 3) == 8 && Offset(s, 5) == 21 && Offset(s, 6) == 22 && Offset(s, 7) == 39
  {
    Pow2Values();
    var s := AirborneSlots(tc, status, nic, ac12, t, cpr);
    EightOffsets(s);
    hide Pow2, Offset;
  }

  /** The altitude code of `n` times 25 feet above -1000. */
  function AltitudeCode(n: nat): nat {
    n / 16 * 32 + 16 + n % 16
  }

  lemma AltitudeRoundTrip(n: nat, tc: nat)
    requires n < 2048 && 9 <= tc <= 18
    ensures AltitudeCode(n) < 4096 && DecodeAltitude(AltitudeCode(n), tc) == BaroFeet(25 * n - 1000)
  {
    var q, r := n / 16, n % 16;
    var code := 32 * q + 16 + r;
    assert code / 16 == 2 * q + 1 && code % 16 == r;
    assert code / 32 == q;
  }

  // --- Surface -----------------------------------------------------------------------------

  function SurfaceSlots(tc: nat, movement: nat, track: Option<nat>, t: bool, cpr: CprPosition): seq<Slot> {
    [Slot(tc, 5), Slot(movement, 7), Slot(Flag(track.Some?), 1), Slot(if track.Some? then track.value else 0, 7),
     Slot(Flag(t), 1), Slot(Flag(cpr.odd), 1), Slot(cpr.latCpr, 17), Slot(cpr.lonCpr, 17)]
  }

  /** The wider steps join up: of two codes for a speed the greater has the greater speed. */
  lemma SpeedsIncrease(a: nat, b: nat)
    requires 1 <= a < b <= 124
    ensures SurfaceSpeed(a).Some? && SurfaceSpeed(b).Some? && SurfaceSpeed(a).value < SurfaceSpeed(b).value
  {
  }

  /** The track that a seven-bit field carries, in degrees. */
  function TrackOf(track: Option<nat>): Option<real> {
    if track.Some? then Some(TrackDegrees(track.value)) else None
  }

  /** Codes 1 to 124 stand for a speed each, the others for none; tracks are as many as their codes. */
  lemma SurfaceCodesAreDistinct(a: nat, b: nat)
    ensures SurfaceSpeed(a).Some? <==> 1 <= a <= 124
    ensures SurfaceSpeed(a).Some? && SurfaceSpeed(a) == SurfaceSpeed(b) ==> a == b
    ensures TrackDegrees(a) == TrackDegrees(b) ==> a == b
  {
    if 1 <= a < b <= 124 {
      SpeedsIncrease(a, b);
    } else if 1 <= b < a <= 124 {
      SpeedsIncrease(b, a);
    }
  }

  /** The surface decoder undoes the layout: the speed in knots, the track in degrees, the position. */
  lemma SurfaceRoundTrip(tc: nat, movement: nat, track: Option<nat>, t: bool, cpr: CprPosition)
    requires tc < 32 && movement < 128 && (track.Some? ==> track.value < 128)
    ensures var slots := SurfaceSlots(tc, movement, track, t, cpr);
            && IsMeLayout(slots)
            && DecodeSurface(Pack(slots)) == SurfacePosition(SurfaceSpeed(movement), TrackOf(track), cpr)
  {
    var slots := SurfaceSlots(tc, movement, track, t, cpr);
    SurfaceOffsets(tc, movement, track, t, cpr);
    hide Offset, Fits, Pack, BitField, BitFlag, AllFit, SurfaceSpeed;
    PackedField(slots, 1, 6, 7);
    PackedBit(slots, 2, 13);
    PackedField(slots, 3, 14, 7);
    PackedBit(slots, 5, 22);
    PackedField(slots, 6, 23, 17);
    PackedField(slots, 7, 40, 17);
  }

  lemma SurfaceOffsets(tc: nat, movement: nat, track: Option<nat>, t: bool, cpr: CprPosition)
    requires tc < 32 && movement < 128 && (track.Some? ==> track.value < 128)
    ensures var s := SurfaceSlots(tc, movement, track, t, cpr);
            && IsMeLayout(s)
            && Offset(s, 1) == 5 && Offset(s, 2) == 12 && Offset(s, 3) == 13 && Offset(s, 5) == 21
            && Offset(s, 6) == 22 && Offset(s, 7) == 39
  {
    Pow2Values();
    var s := SurfaceSlots(tc, movement, track, t, cpr);
    EightOffsets(s);
    hide Pow2, Offset;
  }

  // --- Identification ------------------------------------------------------------------------

  predicate IsCallsignChar(c: char) {
    'A' <= c <= 'Z' || '0' <= c <= '9' || c == ' '
  }

  function CallsignCode(c: char): (code: nat)
    requires IsCallsignChar(c)
    ensures code < 64
  {
    if 'A' <= c <= 'Z' then c as int - 64 else c as int
  }

  lemma CallsignCharInverse(c: char)
    requires IsCallsignChar(c)
    ensures CallsignChar(CallsignCode(c)) == c
  {
  }

  predicate IsCallsign(s: string) {
    |s| <= 8 && forall k :: 0 <= k < |s| ==> IsCallsignChar(s[k])
  }

  function Spaces(n: nat): (t: string)
    ensures |t| == n && forall k :: 0 <= k < n ==> t[k] == ' '
  {
    seq(n, _ => ' ')
  }

  /** A callsign filled up to eight characters with spaces. */
  function PadTo8(s: string): (t: string)
    requires IsCallsign(s)
    ensures |t| == 8 && IsCallsign(t)
  {
    s + Spaces(8 - |s|)
  }

  function CallsignSlots(tc: nat, category: nat, s: string): (slots: seq<Slot>)
    requires |s| == 8 && IsCallsign(s)
    ensures |slots| == 10
  {
    [Slot(tc, 5), Slot(category, 3)] + seq(8, k requires 0 <= k < 8 => Slot(CallsignCode(s[k]), 6))
  }

  lemma {:induction false} CallsignOffsets(tc: nat, category: nat, s: string, k: nat)
    requires |s| == 8 && IsCallsign(s) && k <= 8
    ensures Offset(CallsignSlots(tc, category, s), k + 2) == 8 + 6 * k
    ensures Offset(CallsignSlots(tc, category, s), 0) == 0 && Offset(CallsignSlots(tc, category, s), 1) == 5
  {
    var slots := CallsignSlots(tc, category, s);
    if k == 0 {
      assert Offset(slots, 2) == Offset(slots, 1) + slots[1].width;
    } else {
      CallsignOffsets(tc, category, s, k - 1);
      assert slots[k + 1].width == 6;
    }
  }

  /** Stripping removes exactly the padding that was added, and any the callsign itself ends in. */
  lemma {:induction false} StripPadding(s: string, n: nat)
    ensures Strip(s + Spaces(n)) == Strip(s)
  {
    var padded := s + Spaces(n);
    if n == 0 {
      assert padded == s;
    } else {
      assert padded[..|padded| - 1] == s + Spaces(n - 1);
      StripPadding(s, n - 1);
    }
  }

  /** A callsign comes back without its trailing spaces, with its category. */
  lemma CallsignRoundTrip(tc: nat, category: nat, s: string)
    requires tc < 32 && category < 8 && IsCallsign(s)
    ensures var slots := CallsignSlots(tc, category, PadTo8(s));
            IsMeLayout(slots) && IdentificationOf(Pack(slots)) == Identification(Strip(s), tc, category)
  {
    hide Pack, Letters, CallsignSlots, Strip, IsMeLayout, PadTo8, IdentificationOf;
    var padded := PadTo8(s);
    CallsignLayout(tc, category, padded);
    LettersReadBack(tc, category, padded);
    CategoryReadsBack(tc, category, padded);
    IdentificationFrom(Pack(CallsignSlots(tc, category, padded)), tc, category, s);
  }

  lemma IdentificationFrom(me: Me, tc: nat, category: nat, s: string)
    requires IsCallsign(s) && Letters(me) == PadTo8(s) && me[0] / 8 == tc && me[0] % 8 == category
    ensures IdentificationOf(me) == Identification(Strip(s), tc, category)
  {
    hide Letters, Strip;
    StripPadding(s, 8 - |s|);
  }

  /** A callsign that does not end in a space comes back whole. */
  lemma WholeCallsign(s: string)
    requires IsCallsign(s) && |s| > 0 && s[|s| - 1] != ' '
    ensures Strip(s) == s
  {
    assert IsCallsignChar(s[|s| - 1]);
  }

  lemma CallsignLayout(tc: nat, category: nat, s: string)
    requires tc < 32 && category < 8 && |s| == 8 && IsCallsign(s)
    ensures IsMeLayout(CallsignSlots(tc, category, s))
  {
    CallsignOffsets(tc, category, s, 8);
    Pow2Values();
    hide Pow2, Offset, CallsignCode;
  }

  lemma CategoryReadsBack(tc: nat, category: nat, s: string)
    requires |s| == 8 && IsCallsign(s) && IsMeLayout(CallsignSlots(tc, category, s))
    ensures var me := Pack(CallsignSlots(tc, category, s)); me[0] / 8 == tc && me[0] % 8 == category
  {
    var slots := CallsignSlots(tc, category, s);
    CallsignOffsets(tc, category, s, 0);
    hide Offset, Pack, BitField, IsMeLayout;
    PackedField(slots, 0, 1, 5);
    PackedField(slots, 1, 6, 3);
    FirstByte(Pack(slots));
  }

  lemma LettersReadBack(tc: nat, category: nat, s: string)
    requires |s| == 8 && IsCallsign(s) && IsMeLayout(CallsignSlots(tc, category, s))
    ensures Letters(Pack(CallsignSlots(tc, category, s))) == s
  {
    hide Offset, Pack, BitField, CallsignCode, CallsignChar;
    var slots := CallsignSlots(tc, category, s);
    forall k | 0 <= k < 8
      ensures Letters(Pack(slots))[k] == s[k]
    {
      CallsignOffsets(tc, category, s, k);
      assert slots[k + 2] == Slot(CallsignCode(s[k]), 6);
      PackedField(slots, k + 2, 9 + 6 * k, 6);
      CallsignCharInverse(s[k]);
    }
  }
}
