/**
 The CPR pairing slots over every run: each holds only its own parity, two filled slots are a
 fresh pair that decodes, and which fragment a position event comes from.
 */
module Pairing {
  import opened Wrappers
  import opened Cpr
  import opened Downlink
  import opened Messages
  import opened Tracker
  import opened TrackerRuns

  predicate ParityOk(a: Aircraft) {
    && (a.cprEven.Some? ==> !a.cprEven.value.cpr.odd)
    && (a.cprOdd.Some? ==> a.cprOdd.value.cpr.odd)
  }

  /** At most ten seconds between two times. */
  predicate Near(x: Instant, y: Instant) {
    x <= y + 10_000_000_000 && y <= x + 10_000_000_000
  }

  /** Two filled slots are at most 10 s apart and decode globally. */
  predicate PairDecodes(a: Aircraft) {
    a.cprEven.Some? && a.cprOdd.Some? ==>
      var e, o := a.cprEven.value, a.cprOdd.value;
      Near(e.at, o.at) && GlobalDecode(e.cpr, o.cpr, o.at >= e.at).Ok?
  }

  predicate NotAfter(slot: Option<TimedCpr>, now: Instant) {
    slot.Some? ==> slot.value.at <= now
  }

  predicate SlotsOk(a: Aircraft, now: Instant) {
    ParityOk(a) && PairDecodes(a) && NotAfter(a.cprEven, now) && NotAfter(a.cprOdd, now)
  }

  predicate AllSlotsOk(t: Table, now: Instant) {
    forall i :: 0 <= i < |t| ==> SlotsOk(t[i], now)
  }

  /** With slots of the right parity, a global decode never reports a parity mismatch. */
  lemma ParityMismatchIsUnreachable(a: Aircraft, at: Instant, cpr: CprPosition, recentOdd: bool)
    requires ParityOk(a)
    ensures var b := StoreFragment(a, at, cpr);
            b.cprEven.Some? && b.cprOdd.Some? ==>
              GlobalDecode(b.cprEven.value.cpr, b.cprOdd.value.cpr, recentOdd) != Err(ParityMismatch)
  {
    hide PairLat, PairLon, Nl;
  }

  /** After a pair has failed at most one slot is left, so the choice between two never arises. */
  lemma FailedPairLeavesOneSlot(a: Aircraft)
    requires PairFix(a).None?
    ensures AfterPair(a).cprEven.None? || AfterPair(a).cprOdd.None?
    ensures ParityOk(a) ==> ParityOk(AfterPair(a))
  {
    hide GlobalDecode;
  }

  lemma ResolveKeepsSlots(a: Aircraft, at: Instant, altitude: Altitude, reference: Option<LatLon>, now: Instant)
    requires ParityOk(a) && NotAfter(a.cprEven, now) && NotAfter(a.cprOdd, now)
    ensures SlotsOk(ResolvePosition(a, at, altitude, reference).aircraft, now)
  {
    hide GlobalDecode, LocalDecode;
    if PairFix(a).None? {
      FailedPairLeavesOneSlot(a);
    }
  }

  lemma ApplyKeepsSlots(a: Aircraft, es: Squitter, at: Instant, reference: Option<LatLon>, now: Instant)
    requires SlotsOk(a, now) && now <= at
    ensures SlotsOk(ApplySquitter(a, es, at, reference).aircraft, at)
  {
    hide GlobalDecode, LocalDecode, LocalDecodeSurface, ResolvePosition;
    match es.payload
    case AirbornePayload(p) =>
      ResolveKeepsSlots(StoreFragment(a, at, p.cpr), at, p.altitude, reference, at);
    case _ =>
  }

  lemma UpdateKeepsSlots(a: Aircraft, frame: Frame, m: Option<Message>, at: Instant, reference: Option<LatLon>, now: Instant)
    requires SlotsOk(a, now) && now <= at
    ensures SlotsOk(Update(a, frame, m, at, reference).aircraft, at)
  {
    hide GlobalDecode, ApplySquitter;
    if m.Some? && m.value.SquitterMessage? {
      ApplyKeepsSlots(CountFrame(a, frame, at).aircraft, m.value.es, at, reference, now);
    }
  }

  lemma TouchKeepsSlots(s: State, icao: Icao, at: Instant, now: Instant)
    requires AllSlotsOk(s.table, now) && Sorted(s.table) && now <= at
    ensures AllSlotsOk(Touch(s, icao, at).0, at)
  {
    assert PairDecodes(Fresh(icao, at));
    hide PairDecodes;
    if !Has(s.table, icao) {
      var k := EvictIfNeededDrops(s.table, s.capacity, at);
    }
  }

  lemma StepKeepsSlots(s: State, now: Instant, step: Step)
    requires AllSlotsOk(s.table, now) && Sorted(s.table) && now <= step.at
    ensures AllSlotsOk(Do(s, step).0.table, step.at)
  {
    hide SlotsOk, Update, ResolveIcao, Touch;
    match step
    case Receive(frame, at) =>
      SlotsStayOk(s.table, now, at);
      match ResolveIcao(s.table, frame, at) {
        case None =>
        case Some(r) =>
          TouchKeepsSlots(s, r.icao, at, now);
          var t := Touch(s, r.icao, at).0;
          UpdateKeepsSlots(t[|t| - 1], frame, r.message, at, s.reference, at);
      }
    case Timer(at) =>
      SlotsStayOk(s.table, now, at);
      var k := EvictStaleExact(s.table, at);
  }

  lemma SlotsStayOk(t: Table, now: Instant, at: Instant)
    requires AllSlotsOk(t, now) && now <= at
    ensures AllSlotsOk(t, at)
  {
    hide PairDecodes;
  }

  /**
   In every run whose clock never goes back, every slot holds its own parity and no fragment from
   the future, and two filled slots are at most 10 s apart and decode globally.
   */
  lemma {:induction false} EveryRunPairs(capacity: nat, reference: Option<LatLon>, steps: seq<Step>)
    requires ClockNeverGoesBack(steps)
    ensures var r := RunOf(capacity, reference, steps); AllSlotsOk(r.state.table, r.clock)
  {
    if |steps| > 0 {
      var n := |steps| - 1;
      EveryRunPairs(capacity, reference, steps[..n]);
      EveryRun(capacity, reference, steps[..n], 0);
      var before := RunOf(capacity, reference, steps[..n]);
      hide Do, AllSlotsOk, LogMatches;
      StepKeepsSlots(before.state, before.clock, steps[n]);
    }
  }

  // --- Which fragment a position comes from -----------------------------------------------------

  /** The slot of the other parity than the fragment that arrived. */
  function OtherSlot(a: Aircraft, odd: bool): Option<TimedCpr> {
    if odd then a.cprEven else a.cprOdd
  }

  /** The pair of an arrived fragment and the other slot, decoded with `recentOdd`. */
  function PairWith(cpr: CprPosition, other: CprPosition, recentOdd: bool): Result<LatLon, CprError> {
    if cpr.odd then GlobalDecode(other, cpr, recentOdd) else GlobalDecode(cpr, other, recentOdd)
  }

  /** The events due when `chosen` counts as the most recent fragment of the pair. */
  function Due(a: Aircraft, at: Instant, cpr: CprPosition, chosen: CprPosition, altitude: Altitude, reference: LatLon):
    seq<StateEvent>
  {
    var local := [Positioned(a.icao, LocalDecode(chosen, reference), altitude, Local)];
    match OtherSlot(a, cpr.odd)
    case None => local
    case Some(other) =>
      if !Near(at, other.at) then local
      else match PairWith(cpr, other.cpr, chosen.odd)
        case Ok(pos) => [Positioned(a.icao, pos, altitude, Global)]
        case Err(LatitudeZoneMismatch) => local
        case Err(_) => []
  }

  /** The fragment that the code takes as most recent: at equal times, the odd one. */
  function Chosen(a: Aircraft, at: Instant, cpr: CprPosition): CprPosition {
    match OtherSlot(a, cpr.odd)
    case Some(other) => if other.at == at && !cpr.odd then other.cpr else cpr
    case None => cpr
  }

  /**
   With a reference, an airborne position emits exactly one position event, unless the pair was out
   of latitude range; it comes from the arrived fragment, except that an even fragment loses to
   an odd one with the same time.
   */
  lemma PositionComesFromChosen(a: Aircraft, at: Instant, cpr: CprPosition, altitude: Altitude, reference: LatLon)
    requires ParityOk(a) && NotAfter(OtherSlot(a, cpr.odd), at)
    ensures ResolvePosition(StoreFragment(a, at, cpr), at, altitude, Some(reference)).events
         == Due(a, at, cpr, Chosen(a, at, cpr), altitude, reference)
  {
    hide GlobalDecode, LocalDecode;
  }

  /** The arrived fragment is the one used exactly when no odd fragment of the same time awaits an even one. */
  lemma ArrivedIsChosenIff(a: Aircraft, at: Instant, cpr: CprPosition)
    requires ParityOk(a)
    ensures Chosen(a, at, cpr) == cpr <==>
            !(!cpr.odd && a.cprOdd.Some? && a.cprOdd.value.at == at)
  {
  }

  lemma {:induction false} AirborneFrame(s: State, frame: Frame, at: Instant, es: Squitter) returns (before: seq<StateEvent>)
    requires ResolveIcao(s.table, frame, at) == Some(Resolved(es.icao, Some(SquitterMessage(es))))
    requires es.payload.AirbornePayload?
    ensures var a := AircraftFor(s.table, es.icao, at);
            var p := es.payload.airborne;
            var b := StoreFragment(CountFrame(a, frame, at).aircraft, at, p.cpr);
            Ingest(s, frame, at).1 == before + ResolvePosition(b, at, p.altitude, s.reference).events
    ensures forall k :: 0 <= k < |before| ==> !before[k].Positioned?
  {
    hide ResolveIcao, ResolvePosition, EvictIfNeeded;
    var (t, touched) := Touch(s, es.icao, at);
    var a := t[|t| - 1];
    before := touched + CountFrame(a, frame, at).events;
    EvictionOnlyLoses(s.table, s.capacity, at);
  }

  /** The entry of an address, or a fresh one. */
  function AircraftFor(t: Table, icao: Icao, at: Instant): (a: Aircraft)
    ensures a.icao == icao
  {
    if Has(t, icao) then t[IndexOf(t, icao)] else Fresh(icao, at)
  }

  lemma EvictionOnlyLoses(t: Table, capacity: nat, now: Instant)
    ensures forall k :: 0 <= k < |EvictIfNeeded(t, capacity, now).1| ==> EvictIfNeeded(t, capacity, now).1[k].Lost?
  {
    StaleOnlyLoses(t, now);
    if |t| > 0 {
      StaleOnlyLoses(t[1..], now);
    }
  }

  lemma {:induction false} StaleOnlyLoses(t: Table, now: Instant)
    ensures forall k :: 0 <= k < |EvictStale(t, now).1| ==> EvictStale(t, now).1[k].Lost?
  {
    if |t| > 0 && IsStale(t[0], now) {
      StaleOnlyLoses(t[1..], now);
    }
  }

  /**
   In every run with strictly increasing times and a reference set, each airborne position frame
   emits exactly one position event, decoded from the fragment it carries, unless the pair it
   completes was out of latitude range.
   */
  lemma AirbornePositionInRun(capacity: nat, reference: LatLon, steps: seq<Step>, frame: Frame, at: Instant, es: Squitter)
    returns (before: seq<StateEvent>)
    requires ClockNeverGoesBack(steps) && RunOf(capacity, Some(reference), steps).clock < at
    requires var t := RunOf(capacity, Some(reference), steps).state.table;
             ResolveIcao(t, frame, at) == Some(Resolved(es.icao, Some(SquitterMessage(es))))
    requires es.payload.AirbornePayload?
    ensures var s := RunOf(capacity, Some(reference), steps).state;
            var p := es.payload.airborne;
            Ingest(s, frame, at).1
              == before + Due(AircraftFor(s.table, es.icao, at), at, p.cpr, p.cpr, p.altitude, reference)
    ensures forall k :: 0 <= k < |before| ==> !before[k].Positioned?
  {
    var r := RunOf(capacity, Some(reference), steps);
    var s, p := r.state, es.payload.airborne;
    EveryRunPairs(capacity, Some(reference), steps);
    EveryRun(capacity, Some(reference), steps, 0);
    before := AirborneFrame(s, frame, at, es);
    var a := AircraftFor(s.table, es.icao, at);
    assert SlotsOk(a, r.clock);
    hide RunOf, Ingest, ResolveIcao, GlobalDecode, LocalDecode, ResolvePosition, StoreFragment, LogMatches, Inv;
    PositionComesFromChosen(CountFrame(a, frame, at).aircraft, at, p.cpr, p.altitude, reference);
    CountingKeepsSlots(a, frame, at, p.cpr, p.altitude, reference);
  }

  lemma CountingKeepsSlots(a: Aircraft, frame: Frame, at: Instant, cpr: CprPosition, altitude: Altitude, reference: LatLon)
    ensures var c := CountFrame(a, frame, at).aircraft;
            && c.icao == a.icao && c.cprEven == a.cprEven && c.cprOdd == a.cprOdd
            && Chosen(c, at, cpr) == Chosen(a, at, cpr)
            && (forall chosen :: Due(c, at, cpr, chosen, altitude, reference) == Due(a, at, cpr, chosen, altitude, reference))
  {
    hide GlobalDecode, LocalDecode;
  }

  /** An even and an odd fragment near the pole, where there is one longitude zone. */
  const POLAR_EVEN := CprPosition(98304, 0, false)
  const POLAR_ODD := CprPosition(66082, 0, true)

  lemma PolarPair()
    ensures PairLat(POLAR_EVEN, POLAR_ODD, false) == 88.5
    ensures 88.0 < PairLat(POLAR_EVEN, POLAR_ODD, true) < 88.5
  {
    assert LatIndexJ(POLAR_EVEN, POLAR_ODD) == 14;
    assert CprMod(14.0, 60.0) == 14.0;
    assert CprMod(14.0, 59.0) == 14.0;
  }

  lemma PolarDecode(recentOdd: bool)
    ensures var r := GlobalDecode(POLAR_EVEN, POLAR_ODD, recentOdd);
            r.Ok? && r.value.lat == PairLat(POLAR_EVEN, POLAR_ODD, recentOdd)
  {
    PolarPair();
    hide PairLat, PairLon;
  }

  /**
   Strictly increasing times are needed: with equal ones, an even fragment that completes a pair
   yields the position of the odd fragment, not its own.
   */
  lemma EvenLosesAtEqualTimes(icao: Icao, at: Instant, altitude: Altitude, reference: LatLon)
    ensures var a := Fresh(icao, at).(cprOdd := Some(TimedCpr(at, POLAR_ODD)));
            && SlotsOk(a, at)
            && ResolvePosition(StoreFragment(a, at, POLAR_EVEN), at, altitude, Some(reference)).events
               != Due(a, at, POLAR_EVEN, POLAR_EVEN, altitude, reference)
  {
    PolarPair();
    PolarDecode(false);
    PolarDecode(true);
    hide GlobalDecode, LocalDecode, PairLat;
  }
}
