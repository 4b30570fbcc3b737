/**
 From bytes to the aircraft table: whose frame a checked frame is, by the bits of its address field,
 and what is stored for that aircraft when the frame carries a packed callsign, position or velocity.
 */
module SquitterIngest {
  import opened Wrappers
  import opened Gf2
  import opened BitValue
  import opened Cpr
  import opened Crc24
  import opened Downlink
  import opened Messages
  import opened MessageFields
  import opened VelocityFields
  import opened Tracker
  import opened TrackerRuns
  import opened Pairing

  // --- Whose frame it is ----------------------------------------------------------------------

  /** Extended squitters and all-call replies, of their length or more. */
  predicate CarriesAddress(frame: Frame) {
    || ((frame.df.ExtendedSquitter? || frame.df.TisB?) && |frame.bytes| >= 14)
    || (frame.df.AllCallReply? && |frame.bytes| >= 7)
  }

  lemma AddressField(bytes: seq<byte>)
    requires |bytes| >= 4
    ensures |FrameBits(bytes)| >= 32 && Value(FrameBits(bytes)[8..32]) == IcaoFromBytes(bytes[1..4])
  {
    hide FrameBits, Value;
    FrameBitsSlice(bytes, 1, 4);
    IcaoIsValue(bytes[1..4]);
  }

  /**
   A checked frame is of the aircraft whose address stands in its bits 8 to 31, high bit first, if it
   is a squitter or an all-call reply of full length, and of nobody otherwise.
   */
  lemma CheckedFrameNamesItsAddress(t: Table, frame: Frame, at: Instant)
    requires !frame.crc.Failed?
    ensures ResolveIcao(t, frame, at).Some? <==> CarriesAddress(frame)
    ensures CarriesAddress(frame) ==>
              |FrameBits(frame.bytes)| >= 32
              && ResolveIcao(t, frame, at).value.icao == Value(FrameBits(frame.bytes)[8..32])
  {
    hide FrameBits, Value, DecodePayload;
    if CarriesAddress(frame) {
      AddressField(frame.bytes);
    }
  }

  /** A squitter's fourteen bytes: format and capability, address, message field, parity. */
  function SquitterBytes(first: byte, a: Icao, me: Me, parity: seq<byte>): (b: seq<byte>)
    requires |parity| == 3
    ensures |b| == 14
  {
    [first] + IcaoBytes(a) + me + parity
  }

  lemma SquitterParts(first: byte, a: Icao, me: Me, parity: seq<byte>)
    requires |parity| == 3
    ensures var b := SquitterBytes(first, a, me, parity);
            b[0] == first && b[1..4] == IcaoBytes(a) && b[4] == me[0] && b[4..11] == me
  {
  }

  /** A checked DF 17 or 18 frame of aircraft `a` with this message field. */
  predicate IsSquitter(frame: Frame, first: byte, a: Icao, me: Me, parity: seq<byte>) {
    && !frame.crc.Failed? && (frame.df.ExtendedSquitter? || frame.df.TisB?)
    && |parity| == 3 && frame.bytes == SquitterBytes(first, a, me, parity)
  }

  lemma SquitterResolves(t: Table, frame: Frame, at: Instant, first: byte, a: Icao, me: Me, parity: seq<byte>)
    requires IsSquitter(frame, first, a, me, parity)
    ensures ResolveIcao(t, frame, at)
         == Some(Resolved(a, Some(SquitterMessage(Squitter(a, me[0] / 8, DecodePayload(me), first % 8)))))
  {
    SquitterParts(first, a, me, parity);
    IcaoBytesInverse(a, IcaoBytes(a));
    hide DecodePayload, IcaoFromBytes, IcaoBytes, SquitterBytes;
  }

  // --- What becomes of the table -----------------------------------------------------------------

  function Last(t: Table): Aircraft
    requires |t| > 0
  {
    t[|t| - 1]
  }

  lemma TouchedIs(s: State, icao: Icao, at: Instant)
    ensures var t := Touch(s, icao, at).0; |t| > 0 && Last(t) == AircraftFor(s.table, icao, at)
  {
    hide EvictIfNeeded;
  }

  /** The frame's aircraft ends last, updated from its entry before, or from a fresh one. */
  lemma IngestUpdatesLast(s: State, frame: Frame, at: Instant, r: Resolved)
    requires ResolveIcao(s.table, frame, at) == Some(r)
    ensures var t := Ingest(s, frame, at).0.table;
            |t| > 0 && Last(t) == Update(AircraftFor(s.table, r.icao, at), frame, r.message, at, s.reference).aircraft
  {
    hide ResolveIcao, Touch, Update;
    TouchedIs(s, r.icao, at);
  }

  /** The entry of `a` before and after a checked squitter: seen at `at`, with one more message counted. */
  predicate BecomesLast(s: State, frame: Frame, at: Instant, a: Icao, was: Aircraft, now: Aircraft) {
    var t := Ingest(s, frame, at).0.table;
    && was == AircraftFor(s.table, a, at) && |t| > 0 && now == Last(t)
    && now.icao == a && now.lastSeen == at
    && now.counters.messagesTotal == was.counters.messagesTotal + 1
    && now.counters.crcClean == was.counters.crcClean + (if frame.crc.Clean? then 1 else 0)
    && now.counters.crcCorrected == was.counters.crcCorrected + (if frame.crc.Corrected? then 1 else 0)
    && now.counters.crcAddressRecovered == was.counters.crcAddressRecovered
  }

  lemma SquitterApplies(s: State, frame: Frame, at: Instant, first: byte, a: Icao, me: Me, parity: seq<byte>)
    returns (was: Aircraft, counted: Aircraft, now: Aircraft)
    requires IsSquitter(frame, first, a, me, parity)
    ensures BecomesLast(s, frame, at, a, was, now)
    ensures counted == was.(lastSeen := at, counters := now.counters)
    ensures now == ApplySquitter(counted, Squitter(a, me[0] / 8, DecodePayload(me), first % 8), at, s.reference).aircraft
  {
    var es := Squitter(a, me[0] / 8, DecodePayload(me), first % 8);
    SquitterResolves(s.table, frame, at, first, a, me, parity);
    IngestUpdatesLast(s, frame, at, Resolved(a, Some(SquitterMessage(es))));
    hide IsSquitter, ResolveIcao, Ingest, ApplySquitter, DecodePayload, AircraftFor;
    was := AircraftFor(s.table, a, at);
    counted := CountFrame(was, frame, at).aircraft;
    now := Last(Ingest(s, frame, at).0.table);
    ApplyKeepsIdentity(counted, SquitterMessage(es), at, s.reference);
    assert now == ApplySquitter(counted, es, at, s.reference).aircraft;
    assert !frame.crc.Failed? by {
      SquitterIsChecked(frame, first, a, me, parity);
    }
  }

  lemma SquitterIsChecked(frame: Frame, first: byte, a: Icao, me: Me, parity: seq<byte>)
    requires IsSquitter(frame, first, a, me, parity)
    ensures !frame.crc.Failed?
  {
  }

  // --- Dispatch by type code -----------------------------------------------------------------------

  lemma TypeCodeOf(slots: seq<Slot>)
    requires IsMeLayout(slots) && |slots| > 0 && slots[0].width == 5
    ensures Pack(slots)[0] / 8 == slots[0].value
  {
    hide Pack, BitField;
    assert Offset(slots, 0) == 0;
    PackedField(slots, 0, 1, 5);
    FirstByte(Pack(slots));
  }

  /** A squitter of type codes 1 to 4 stores its packed callsign and category, and nothing else. */
  lemma CallsignIsStored(s: State, frame: Frame, at: Instant, first: byte, a: Icao, parity: seq<byte>,
                         tc: nat, category: nat, callsign: string) returns (was: Aircraft, now: Aircraft)
    requires 1 <= tc <= 4 && category < 8 && IsCallsign(callsign)
             && IsMeLayout(CallsignSlots(tc, category, PadTo8(callsign)))
    requires IsSquitter(frame, first, a, Pack(CallsignSlots(tc, category, PadTo8(callsign))), parity)
    ensures BecomesLast(s, frame, at, a, was, now)
    ensures now == was.(lastSeen := at, counters := now.counters,
                        callsign := Some(Strip(callsign)), category := Some((tc, category)))
  {
    hide Pack, IsSquitter, BecomesLast, CallsignSlots, IdentificationOf, IsMeLayout, Strip, PadTo8;
    var me := Pack(CallsignSlots(tc, category, PadTo8(callsign)));
    CallsignRoundTrip(tc, category, callsign);
    CategoryReadsBack(tc, category, PadTo8(callsign));
    var counted;
    was, counted, now := SquitterApplies(s, frame, at, first, a, me, parity);
  }

  /** The speed in whole knots and the track of a surface message, a missing part as zero; none if both are missing. */
  function TaxiSent(movement: nat, track: Option<nat>): Option<Velocity> {
    var speed := SurfaceSpeed(movement);
    if speed.None? && track.None? then None
    else Some(Velocity(Taxi(if speed.Some? then WholeKnots(speed.value) else 0,
                            if track.Some? then TrackDegrees(track.value) else 0.0), None, Baro))
  }

  /** Whole knots are the nearest, halves upwards. */
  lemma KnotsAreNearest(speed: real)
    requires speed >= 0.0
    ensures var k := WholeKnots(speed) as real; k - 0.5 <= speed < k + 0.5
  {
  }

  /** A squitter of type codes 5 to 8 stores its packed speed and track, and its position near the reference. */
  lemma SurfaceIsStored(s: State, frame: Frame, at: Instant, first: byte, a: Icao, parity: seq<byte>,
                        tc: nat, movement: nat, track: Option<nat>, t: bool, cpr: CprPosition)
    returns (was: Aircraft, now: Aircraft)
    requires 5 <= tc <= 8 && movement < 128 && (track.Some? ==> track.value < 128)
             && IsMeLayout(SurfaceSlots(tc, movement, track, t, cpr))
    requires IsSquitter(frame, first, a, Pack(SurfaceSlots(tc, movement, track, t, cpr)), parity)
    ensures BecomesLast(s, frame, at, a, was, now)
    ensures now.callsign == was.callsign && now.category == was.category
            && now.cprEven == was.cprEven && now.cprOdd == was.cprOdd
    ensures now.velocity == if TaxiSent(movement, track).Some? then TaxiSent(movement, track) else was.velocity
    ensures now.position == if s.reference.None? then was.position
                            else Some(TimedPosition(at, LocalDecodeSurface(cpr, s.reference.value), Unavailable, Surface))
  {
    var slots := SurfaceSlots(tc, movement, track, t, cpr);
    hide Pack, IsSquitter, BecomesLast, DecodeSurface, IsMeLayout, SurfaceSpeed, LocalDecodeSurface, WholeKnots;
    SurfaceRoundTrip(tc, movement, track, t, cpr);
    TypeCodeOf(slots);
    var counted;
    was, counted, now := SquitterApplies(s, frame, at, first, a, Pack(slots), parity);
  }

  /** A squitter of type code 19 stores its velocity; subtypes other than 1 to 4 store nothing. */
  lemma VelocityIsStored(s: State, frame: Frame, at: Instant, first: byte, a: Icao, me: Me, parity: seq<byte>)
    returns (was: Aircraft, now: Aircraft)
    requires IsSquitter(frame, first, a, me, parity) && me[0] / 8 == 19
    ensures BecomesLast(s, frame, at, a, was, now)
    ensures var v := DecodeVelocity(me);
            now == was.(lastSeen := at, counters := now.counters,
                        velocity := if v.Ok? then Some(v.value) else was.velocity)
  {
    hide IsSquitter, BecomesLast, DecodeVelocity;
    var counted;
    was, counted, now := SquitterApplies(s, frame, at, first, a, me, parity);
  }

  /** So the ground velocity sent is the one stored. */
  lemma GroundVelocityIsStored(s: State, frame: Frame, at: Instant, first: byte, a: Icao, parity: seq<byte>,
                               subtype: nat, flags: nat, west: bool, east: Option<int>, south: bool, north: Option<int>,
                               c: Climb) returns (was: Aircraft, now: Aircraft)
    requires subtype in {1, 2} && flags < 32 && IsClimb(c)
    requires SignFits(east, west) && MagnitudeCode(east) < 1024 && SignFits(north, south) && MagnitudeCode(north) < 1024
    requires var slots := VelocitySlots(subtype, flags, west, MagnitudeCode(east), south, MagnitudeCode(north), c);
             IsMeLayout(slots) && IsSquitter(frame, first, a, Pack(slots), parity)
    ensures BecomesLast(s, frame, at, a, was, now)
    ensures var k := if subtype == 2 then 4 else 1;
            now.velocity == Some(Velocity(Ground(StepsOf(east) * k, StepsOf(north) * k), ClimbRate(c), ClimbSource(c)))
  {
    var slots := VelocitySlots(subtype, flags, west, MagnitudeCode(east), south, MagnitudeCode(north), c);
    hide Pack, IsSquitter, BecomesLast, DecodeVelocity, IsMeLayout, IsClimb, SignFits, MagnitudeCode;
    GroundRoundTrip(subtype, flags, west, east, south, north, c);
    TypeCodeOf(slots);
    was, now := VelocityIsStored(s, frame, at, first, a, Pack(slots), parity);
  }

  /** The type codes of airborne positions. */
  predicate IsAirborneCode(tc: nat) {
    9 <= tc <= 18 || 20 <= tc <= 22
  }

  /** The slot of the fragment's own parity. */
  function OwnSlot(a: Aircraft, odd: bool): Option<TimedCpr> {
    if odd then a.cprOdd else a.cprEven
  }

  /** The fragment stands alone in its slot, with the position next to the reference if there is one. */
  predicate StandsAlone(was: Aircraft, now: Aircraft, at: Instant, cpr: CprPosition, altitude: Altitude,
                        reference: Option<LatLon>) {
    && OwnSlot(now, cpr.odd) == Some(TimedCpr(at, cpr)) && OtherSlot(now, cpr.odd).None?
    && now.position == if reference.None? then was.position
                       else Some(TimedPosition(at, LocalDecode(cpr, reference.value), altitude, Local))
  }

  /** The fragment has completed a pair with `other` that decodes to `fix`. */
  predicate CompletesPair(now: Aircraft, at: Instant, cpr: CprPosition, other: TimedCpr, fix: LatLon, altitude: Altitude) {
    && OwnSlot(now, cpr.odd) == Some(TimedCpr(at, cpr)) && OtherSlot(now, cpr.odd) == Some(other)
    && now.position == Some(TimedPosition(at, fix, altitude, Global))
  }

  /**
   What a fragment that arrives later than any other leaves. It stands alone if there is no other, or
   the other is more than ten seconds old, or their zones differ; it completes the pair if that decodes;
   and a pair out of latitude range is dropped whole, with the position left as it was.
   */
  predicate LeavesBehind(was: Aircraft, now: Aircraft, at: Instant, cpr: CprPosition, altitude: Altitude,
                         reference: Option<LatLon>) {
    match OtherSlot(was, cpr.odd)
    case None => StandsAlone(was, now, at, cpr, altitude, reference)
    case Some(other) =>
      if !Near(at, other.at) then StandsAlone(was, now, at, cpr, altitude, reference)
      else match PairWith(cpr, other.cpr, cpr.odd)
        case Ok(fix) => CompletesPair(now, at, cpr, other, fix, altitude)
        case Err(LatitudeZoneMismatch) => StandsAlone(was, now, at, cpr, altitude, reference)
        case Err(_) => OwnSlot(now, cpr.odd).None? && OtherSlot(now, cpr.odd).None? && now.position == was.position
  }

  /** The other slot's fragment, if any, is older than this time. */
  predicate OthersAreOlder(a: Aircraft, odd: bool, at: Instant) {
    OtherSlot(a, odd).Some? ==> OtherSlot(a, odd).value.at < at
  }

  lemma FragmentLeaves(a: Aircraft, at: Instant, cpr: CprPosition, altitude: Altitude, reference: Option<LatLon>)
    requires OthersAreOlder(a, cpr.odd, at)
    ensures var now := ResolvePosition(StoreFragment(a, at, cpr), at, altitude, reference).aircraft;
            && now.callsign == a.callsign && now.category == a.category && now.velocity == a.velocity
            && LeavesBehind(a, now, at, cpr, altitude, reference)
  {
    FragmentTouches(a, at, cpr, altitude, reference);
    hide GlobalDecode, LocalDecode;
    if cpr.odd {
      OddFragmentLeaves(a, at, cpr, altitude, reference);
    } else {
      EvenFragmentLeaves(a, at, cpr, altitude, reference);
    }
    hide LeavesBehind, ResolvePosition, StoreFragment;
  }

  lemma OddFragmentLeaves(a: Aircraft, at: Instant, cpr: CprPosition, altitude: Altitude, reference: Option<LatLon>)
    requires OthersAreOlder(a, true, at) && cpr.odd
    ensures LeavesBehind(a, ResolvePosition(StoreFragment(a, at, cpr), at, altitude, reference).aircraft, at, cpr,
                         altitude, reference)
  {
    hide GlobalDecode, LocalDecode;
  }

  lemma EvenFragmentLeaves(a: Aircraft, at: Instant, cpr: CprPosition, altitude: Altitude, reference: Option<LatLon>)
    requires OthersAreOlder(a, false, at) && !cpr.odd
    ensures LeavesBehind(a, ResolvePosition(StoreFragment(a, at, cpr), at, altitude, reference).aircraft, at, cpr,
                         altitude, reference)
  {
    hide GlobalDecode, LocalDecode;
  }

  /**
   A squitter of an airborne type code stores its packed fragment and altitude: alone in its slot, or as
   the later half of a pair, with the position each gives.
   */
  lemma AirborneIsStored(s: State, frame: Frame, at: Instant, first: byte, a: Icao, parity: seq<byte>,
                         tc: nat, status: nat, nic: nat, ac12: nat, t: bool, cpr: CprPosition)
    returns (was: Aircraft, now: Aircraft)
    requires IsAirborneCode(tc) && status < 4 && nic < 2 && ac12 < 4096
             && IsMeLayout(AirborneSlots(tc, status, nic, ac12, t, cpr))
    requires IsSquitter(frame, first, a, Pack(AirborneSlots(tc, status, nic, ac12, t, cpr)), parity)
    ensures BecomesLast(s, frame, at, a, was, now)
    ensures now.callsign == was.callsign && now.category == was.category && now.velocity == was.velocity
    ensures OthersAreOlder(was, cpr.odd, at) ==>
              LeavesBehind(was, now, at, cpr, DecodeAltitude(ac12, tc), s.reference)
  {
    var slots := AirborneSlots(tc, status, nic, ac12, t, cpr);
    hide Pack, IsSquitter, BecomesLast, DecodeAirborne, IsMeLayout, LocalDecode, GlobalDecode, DecodeAltitude;
    hide ResolvePosition;
    AirborneRoundTrip(tc, status, nic, ac12, t, cpr);
    TypeCodeOf(slots);
    var counted;
    was, counted, now := SquitterApplies(s, frame, at, first, a, Pack(slots), parity);
    FragmentTouches(counted, at, cpr, DecodeAltitude(ac12, tc), s.reference);
    if OthersAreOlder(was, cpr.odd, at) {
      FragmentLeaves(counted, at, cpr, DecodeAltitude(ac12, tc), s.reference);
      CountedIsWas(was, counted, now, at, cpr, DecodeAltitude(ac12, tc), s.reference);
    }
  }

  lemma FragmentTouches(a: Aircraft, at: Instant, cpr: CprPosition, altitude: Altitude, reference: Option<LatLon>)
    ensures var now := ResolvePosition(StoreFragment(a, at, cpr), at, altitude, reference).aircraft;
            now.callsign == a.callsign && now.category == a.category && now.velocity == a.velocity
  {
    hide GlobalDecode, LocalDecode;
  }

  /** Counting a frame does not touch what a fragment depends on. */
  lemma CountedIsWas(was: Aircraft, counted: Aircraft, now: Aircraft, at: Instant, cpr: CprPosition,
                     altitude: Altitude, reference: Option<LatLon>)
    requires counted.position == was.position && counted.cprEven == was.cprEven && counted.cprOdd == was.cprOdd
    ensures LeavesBehind(was, now, at, cpr, altitude, reference) == LeavesBehind(counted, now, at, cpr, altitude, reference)
  {
    hide GlobalDecode, LocalDecode;
  }

  // --- Events and the table ------------------------------------------------------------------------

  /** The entry holds what the event tells, as of this time. */
  predicate Tells(e: StateEvent, now: Aircraft, at: Instant) {
    match e
    case Positioned(icao, pos, altitude, source) =>
      now.icao == icao && now.position == Some(TimedPosition(at, pos, altitude, source))
    case Moving(icao, velocity) => now.icao == icao && now.velocity == Some(velocity)
    case Identified(icao, callsign) => now.icao == icao && now.callsign == Some(callsign)
    case Acquired(icao) => now.icao == icao
    case AddressRecovered(icao, _) => now.icao == icao
    case Lost(_) => true
    case Orphan(_) => true
  }

  lemma SquitterTells(a: Aircraft, es: Squitter, at: Instant, reference: Option<LatLon>)
    requires es.icao == a.icao
    ensures var u := ApplySquitter(a, es, at, reference); forall e | e in u.events :: Tells(e, u.aircraft, at)
  {
    hide GlobalDecode, LocalDecode, LocalDecodeSurface, TaxiVelocity;
  }

  lemma UpdateTells(a: Aircraft, frame: Frame, m: Option<Message>, at: Instant, reference: Option<LatLon>)
    requires m.Some? ==> IcaoOf(m.value) == Some(a.icao)
    ensures var u := Update(a, frame, m, at, reference); forall e | e in u.events :: Tells(e, u.aircraft, at)
  {
    hide ApplySquitter;
    UpdateKeepsIdentity(a, frame, m, at, reference);
    if m.Some? && m.value.SquitterMessage? {
      SquitterTells(CountFrame(a, frame, at).aircraft, m.value.es, at, reference);
    }
  }

  /** Every event of an ingest is true of the entry at the back: it holds that value, as of that time. */
  lemma EventsTellTheTable(s: State, frame: Frame, at: Instant, e: StateEvent)
    requires e in Ingest(s, frame, at).1
    ensures e.Orphan? || e.Lost? || (|Ingest(s, frame, at).0.table| > 0 && Tells(e, Last(Ingest(s, frame, at).0.table), at))
  {
    hide ResolveIcao, Update, EvictIfNeeded, Tells;
    if ResolveIcao(s.table, frame, at).Some? {
      var r := ResolveIcao(s.table, frame, at).value;
      ResolvedIcao(s.table, frame, at);
      var (t, touched) := Touch(s, r.icao, at);
      var u := Update(Last(t), frame, r.message, at, s.reference);
      UpdateTells(Last(t), frame, r.message, at, s.reference);
      if e in u.events {
        assert Tells(e, u.aircraft, at);
      } else {
        assert e in touched;
        TouchTells(s, r.icao, at, e, frame, r.message);
      }
    }
  }

  lemma TouchTells(s: State, icao: Icao, at: Instant, e: StateEvent, frame: Frame, m: Option<Message>)
    requires e in Touch(s, icao, at).1
    ensures |Touch(s, icao, at).0| > 0
    ensures e.Lost? || Tells(e, Update(Last(Touch(s, icao, at).0), frame, m, at, s.reference).aircraft, at)
  {
    var t := Touch(s, icao, at).0;
    UpdateKeepsIdentity(Last(t), frame, m, at, s.reference);
    EvictionOnlyLoses(s.table, s.capacity, at);
    hide EvictIfNeeded, Update;
  }

  /**
   A frame with a failed parity that resolves to an aircraft emits exactly one event, the recovery of
   that address, and changes nothing of the aircraft but the time and the two counters.
   */
  lemma RecoveredFrame(s: State, frame: Frame, at: Instant)
    requires frame.crc.Failed? && ResolveIcao(s.table, frame, at).Some?
    ensures var icao := ResolveIcao(s.table, frame, at).value.icao;
            var was := AircraftFor(s.table, icao, at);
            var (u, events) := Ingest(s, frame, at);
            && Has(s.table, icao) && events == [AddressRecovered(icao, frame.df)]
            && |u.table| > 0
            && Last(u.table) == was.(lastSeen := at, counters := was.counters.(
                 messagesTotal := was.counters.messagesTotal + 1,
                 crcAddressRecovered := was.counters.crcAddressRecovered + 1))
  {
    FailedIsKnown(s.table, frame, at);
    var r := ResolveIcao(s.table, frame, at).value;
    FailedHasNoMessage(s.table, frame, at);
    hide ResolveIcao;
    IngestUpdatesLast(s, frame, at, r);
  }

  lemma FailedHasNoMessage(t: Table, frame: Frame, at: Instant)
    requires frame.crc.Failed? && ResolveIcao(t, frame, at).Some?
    ensures ResolveIcao(t, frame, at).value.message.None?
  {
    hide Crc, ScanBack;
  }
}
