/**
 The velocity message, from the sender's side: components in knots, heading and airspeed, and climb
 packed into a message field, and the proof that the decoder gives them back. Last, what the single
 codes of altitude, track and surface speed stand for.
 */
module VelocityFields {
  import opened Wrappers
  import opened BitValue
  import opened Cpr
  import opened Messages
  import opened MessageFields

  // --- Layout ------------------------------------------------------------------------------

  /** A magnitude as it is sent: plus one, and zero for none. */
  function MagnitudeCode(v: Option<int>): nat {
    match v
    case None => 0
    case Some(x) => (if x < 0 then -x else x) + 1
  }

  /** The sign bit goes with the value; with none, or zero, it may be either. */
  predicate SignFits(v: Option<int>, negative: bool) {
    v.Some? ==> (v.value < 0 ==> negative) && (v.value > 0 ==> !negative)
  }

  /** What follows the two main fields: source of the climb, its sign, its 64-foot steps, ten more bits. */
  datatype Climb = Climb(gnss: bool, down: bool, steps: Option<int>, tail: nat)

  predicate IsClimb(c: Climb) {
    SignFits(c.steps, c.down) && MagnitudeCode(c.steps) < 512 && c.tail < 1024
  }

  /** Feet per minute. */
  function ClimbRate(c: Climb): Option<int> {
    if c.steps.Some? then Some(64 * c.steps.value) else None
  }

  function ClimbSource(c: Climb): VerticalRateSource {
    if c.gnss then Gnss else Baro
  }

  /** One layout for all subtypes: two fields of a bit and ten bits, then the climb. */
  function VelocitySlots(subtype: nat, flags: nat, a: bool, first: nat, b: bool, second: nat, c: Climb): (s: seq<Slot>)
    ensures |s| == 11
  {
    [Slot(19, 5), Slot(subtype, 3), Slot(flags, 5), Slot(Flag(a), 1), Slot(first, 10), Slot(Flag(b), 1),
     Slot(second, 10), Slot(Flag(c.gnss), 1), Slot(Flag(c.down), 1), Slot(MagnitudeCode(c.steps), 9), Slot(c.tail, 10)]
  }

  lemma VelocityOffsets(subtype: nat, flags: nat, a: bool, first: nat, b: bool, second: nat, c: Climb)
    requires subtype < 8 && flags < 32 && first < 1024 && second < 1024 && IsClimb(c)
    ensures var s := VelocitySlots(subtype, flags, a, first, b, second, c);
            && IsMeLayout(s) && Offset(s, 0) == 0 && Offset(s, 1) == 5 && Offset(s, 3) == 13 && Offset(s, 4) == 14
            && Offset(s, 5) == 24 && Offset(s, 6) == 25 && Offset(s, 7) == 35 && Offset(s, 8) == 36 && Offset(s, 9) == 37
  {
    Pow2Values();
    var s := VelocitySlots(subtype, flags, a, first, b, second, c);
    EightOffsets(s);
    assert Offset(s, 9) == Offset(s, 8) + s[8].width && Offset(s, 10) == Offset(s, 9) + s[9].width;
    assert Offset(s, 11) == Offset(s, 10) + s[10].width;
    hide Pow2, Offset;
  }

  /** What the packed field reads back as, position by position. */
  predicate ReadsBack(me: Me, subtype: nat, a: bool, first: nat, b: bool, second: nat, c: Climb) {
    && BitField(me, 1, 5) == 19 && BitField(me, 6, 3) == subtype
    && BitFlag(me, 14) == a && BitField(me, 15, 10) == first && BitFlag(me, 25) == b && BitField(me, 26, 10) == second
    && BitFlag(me, 36) == c.gnss && BitFlag(me, 37) == c.down && BitField(me, 38, 9) == MagnitudeCode(c.steps)
  }

  lemma VelocityReadsBack(subtype: nat, flags: nat, a: bool, first: nat, b: bool, second: nat, c: Climb)
    requires subtype < 8 && flags < 32 && first < 1024 && second < 1024 && IsClimb(c)
    ensures var s := VelocitySlots(subtype, flags, a, first, b, second, c);
            IsMeLayout(s) && ReadsBack(Pack(s), subtype, a, first, b, second, c)
  {
    var s := VelocitySlots(subtype, flags, a, first, b, second, c);
    VelocityOffsets(subtype, flags, a, first, b, second, c);
    hide Offset, Fits, Pack, BitField, BitFlag, AllFit, MagnitudeCode, IsClimb;
    PackedField(s, 0, 1, 5);
    PackedField(s, 1, 6, 3);
    PackedBit(s, 3, 14);
    PackedField(s, 4, 15, 10);
    PackedBit(s, 5, 25);
    PackedField(s, 6, 26, 10);
    PackedBit(s, 7, 36);
    PackedBit(s, 8, 37);
    PackedField(s, 9, 38, 9);
  }

  // --- Round trips -----------------------------------------------------------------------------

  lemma SignedMagnitude(v: Option<int>, negative: bool)
    requires SignFits(v, negative)
    ensures Signed(negative, Magnitude(MagnitudeCode(v))) == if v.Some? then v.value else 0
    ensures v.Some? ==> MagnitudeCode(v) > 0 && Signed(negative, (MagnitudeCode(v) - 1) * 64) == 64 * v.value
  {
  }

  /** Knots per step: the supersonic subtypes 2 and 4 send quarters. */
  function KnotsPerStep(subtype: nat): nat {
    if subtype == 2 || subtype == 4 then 4 else 1
  }

  /** A component that is not sent counts as zero. */
  function StepsOf(v: Option<int>): int {
    if v.Some? then v.value else 0
  }

  /** Ground velocity comes back: east and north in knots, west and south negative, with the climb. */
  lemma GroundRoundTrip(subtype: nat, flags: nat, west: bool, east: Option<int>, south: bool, north: Option<int>, c: Climb)
    requires subtype in {1, 2} && flags < 32 && IsClimb(c)
    requires SignFits(east, west) && MagnitudeCode(east) < 1024 && SignFits(north, south) && MagnitudeCode(north) < 1024
    ensures var s := VelocitySlots(subtype, flags, west, MagnitudeCode(east), south, MagnitudeCode(north), c);
            var k := KnotsPerStep(subtype);
            && IsMeLayout(s)
            && DecodeVelocity(Pack(s))
               == Ok(Velocity(Ground(StepsOf(east) * k, StepsOf(north) * k), ClimbRate(c), ClimbSource(c)))
  {
    VelocityReadsBack(subtype, flags, west, MagnitudeCode(east), south, MagnitudeCode(north), c);
    SignedMagnitude(east, west);
    SignedMagnitude(north, south);
    SignedMagnitude(c.steps, c.down);
    hide Pack, BitField, BitFlag, VelocitySlots, IsMeLayout, Signed, Magnitude;
  }

  /** Airspeed comes back, with the heading if its bit is set and its reference from the type bit. */
  lemma AirspeedRoundTrip(subtype: nat, flags: nat, valid: bool, heading: nat, trueSpeed: bool, speed: Option<int>, c: Climb)
    requires subtype in {3, 4} && flags < 32 && IsClimb(c) && heading < 1024
    requires (speed.Some? ==> speed.value >= 0) && MagnitudeCode(speed) < 1024
    ensures var s := VelocitySlots(subtype, flags, valid, heading, trueSpeed, MagnitudeCode(speed), c);
            && IsMeLayout(s)
            && DecodeVelocity(Pack(s))
               == Ok(Velocity(Airspeed(StepsOf(speed) * KnotsPerStep(subtype), if valid then Some(heading) else None,
                                       !trueSpeed),
                              ClimbRate(c), ClimbSource(c)))
  {
    VelocityReadsBack(subtype, flags, valid, heading, trueSpeed, MagnitudeCode(speed), c);
    SignedMagnitude(speed, false);
    SignedMagnitude(c.steps, c.down);
    hide Pack, BitField, BitFlag, VelocitySlots, IsMeLayout;
  }

  /** Every other subtype is refused, by its number. */
  lemma OtherSubtypes(me: Me)
    ensures DecodeVelocity(me).Ok? <==> 1 <= BitField(me, 6, 3) <= 4
    ensures DecodeVelocity(me).Err? ==> DecodeVelocity(me) == Err(UnsupportedVelocitySubtype(BitField(me, 6, 3)))
  {
    hide BitField, BitFlag;
  }

  // --- Single codes ----------------------------------------------------------------------------

  /**
   The altitude code: zero for none; metres in type codes 20 to 22, as whole feet rounded down; else
   25-foot steps if bit 8 from the top is set, and without it the code itself as 100-foot steps.
   */
  lemma AltitudeOfCode(ac12: nat, tc: nat)
    requires ac12 < 4096
    ensures DecodeAltitude(ac12, tc) == Unavailable <==> ac12 == 0
    ensures ac12 > 0 && tc in {20, 21, 22} ==>
              var a := DecodeAltitude(ac12, tc);
              a.GnssFeet? && a.feet as real <= ac12 as real * 3.28084 < (a.feet + 1) as real
    ensures ac12 > 0 && tc !in {20, 21, 22} && ac12 / 16 % 2 == 0 ==>
              DecodeAltitude(ac12, tc) == BaroGillhamFeet(100 * ac12 - 1000)
    ensures ac12 > 0 && tc !in {20, 21, 22} && ac12 / 16 % 2 == 1 ==>
              exists n: nat | n < 2048 :: ac12 == AltitudeCode(n) && DecodeAltitude(ac12, tc) == BaroFeet(25 * n - 1000)
  {
    if ac12 > 0 && tc in {20, 21, 22} {
      MetresToFeet(ac12);
    } else if ac12 > 0 && ac12 / 16 % 2 == 1 {
      var n := ac12 / 32 * 16 + ac12 % 16;
      CodeOfSteps(ac12);
      assert ac12 == AltitudeCode(n);
    }
  }

  lemma MetresToFeet(m: nat)
    ensures var f := m * 328084 / 100000; f as real <= m as real * 3.28084 < (f + 1) as real
  {
    var f := m * 328084 / 100000;
    assert 100000 * f <= m * 328084 < 100000 * (f + 1);
    assert (m * 328084) as real == m as real * 328084.0;
    assert (100000 * f) as real == 100000.0 * f as real;
  }

  lemma CodeOfSteps(ac12: nat)
    requires ac12 < 4096 && ac12 / 16 % 2 == 1
    ensures var n := ac12 / 32 * 16 + ac12 % 16; n < 2048 && AltitudeCode(n) == ac12
  {
    var q, r := ac12 / 32, ac12 % 16;
    assert ac12 / 16 == 2 * q + 1;
    assert (16 * q + r) / 16 == q && (16 * q + r) % 16 == r;
  }

  /** A track code counts 128ths of a turn. */
  lemma TrackIsFraction(raw: nat)
    ensures 128.0 * TrackDegrees(raw) == 360.0 * raw as real
  {
  }

  /** How far apart neighbouring surface speeds are, by the lower of them, in knots. */
  function SpeedStep(knots: real): real {
    if knots < 1.0 then 0.125
    else if knots < 2.0 then 0.25
    else if knots < 15.0 then 0.5
    else if knots < 70.0 then 1.0
    else if knots < 100.0 then 2.0
    else 5.0
  }

  /** From standstill at code 1, each code adds the step of the speed reached, up to 175 knots at code 124. */
  lemma SpeedGrowsByStep(code: nat)
    requires 1 <= code < 124
    ensures SurfaceSpeed(1) == Some(0.0) && SurfaceSpeed(124) == Some(175.0)
    ensures SurfaceSpeed(code).Some?
    ensures SurfaceSpeed(code + 1) == Some(SurfaceSpeed(code).value + SpeedStep(SurfaceSpeed(code).value))
  {
  }

  /** The characters: letters from code 1, digits and space at their ASCII codes, underscore for all others. */
  lemma CharacterOfCode(code: nat)
    requires code < 64
    ensures CallsignChar(code) == '_' <==> !(1 <= code <= 26 || code == 32 || 48 <= code <= 57)
    ensures CallsignChar(code) != '_' ==> IsCallsignChar(CallsignChar(code)) && CallsignCode(CallsignChar(code)) == code
  {
  }
}
