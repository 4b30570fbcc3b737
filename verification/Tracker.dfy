/**
 The state tracker: per-aircraft state, the table ordered from least to most recently seen,
 and what one frame does to it. Times are nanoseconds on the caller's clock.
 */
module Tracker {
  import opened Wrappers
  import opened Cpr
  import opened Crc24Register
  import opened Crc24
  import opened Downlink
  import opened Messages

  type Instant = nat

  const SECOND := 1_000_000_000
  const CPR_PAIR_WINDOW := 10 * SECOND
  const ACTIVE_ICAO_WINDOW := 60 * SECOND
  const STALE_AFTER := 300 * SECOND

  /** Time from `earlier` to `later`, zero if the clock went back. */
  function Since(later: Instant, earlier: Instant): nat {
    if later >= earlier then later - earlier else 0
  }

  datatype PositionSource = Global | Local | Surface

  datatype TimedPosition = TimedPosition(at: Instant, pos: LatLon, altitude: Altitude, source: PositionSource)

  datatype TimedCpr = TimedCpr(at: Instant, cpr: CprPosition)

  datatype Counters = Counters(messagesTotal: nat, crcClean: nat, crcCorrected: nat, crcAddressRecovered: nat)

  const ZERO_COUNTERS := Counters(0, 0, 0, 0)

  datatype Aircraft = Aircraft(
    icao: Icao,
    callsign: Option<string>,
    category: Option<(nat, nat)>,
    position: Option<TimedPosition>,
    velocity: Option<Velocity>,
    counters: Counters,
    lastSeen: Instant,
    cprEven: Option<TimedCpr>,
    cprOdd: Option<TimedCpr>)

  datatype StateEvent =
    | Acquired(icao: Icao)
    | Identified(icao: Icao, callsign: string)
    | Positioned(icao: Icao, pos: LatLon, altitude: Altitude, source: PositionSource)
    | Moving(icao: Icao, velocity: Velocity)
    | Lost(icao: Icao)
    | AddressRecovered(icao: Icao, df: DownlinkFormat)
    | Orphan(df: DownlinkFormat)

  type Table = seq<Aircraft>

  datatype State = State(table: Table, capacity: nat, reference: Option<LatLon>)

  // --- The linked map ----------------------------------------------------------------------

  predicate Has(t: Table, icao: Icao) {
    exists k :: 0 <= k < |t| && t[k].icao == icao
  }

  /** Where an address stands in the table. */
  function IndexOf(t: Table, icao: Icao): (k: nat)
    requires Has(t, icao)
    ensures k < |t| && t[k].icao == icao
  {
    if t[0].icao == icao then 0 else HasInRest(t, icao); 1 + IndexOf(t[1..], icao)
  }

  lemma HasInRest(t: Table, icao: Icao)
    requires Has(t, icao) && t[0].icao != icao
    ensures Has(t[1..], icao)
  {
    var k :| 0 <= k < |t| && t[k].icao == icao;
    assert t[1..][k - 1].icao == icao;
  }

  /** Moves an entry to the most recently used end. */
  function ToBack(t: Table, icao: Icao): (u: Table)
    requires Has(t, icao)
    ensures |u| == |t|
  {
    var k := IndexOf(t, icao);
    t[..k] + t[k + 1..] + [t[k]]
  }

  function Fresh(icao: Icao, at: Instant): Aircraft {
    Aircraft(icao, None, None, None, None, ZERO_COUNTERS, at, None, None)
  }

  // --- Eviction ----------------------------------------------------------------------------

  predicate IsStale(a: Aircraft, now: Instant) {
    Since(now, a.lastSeen) > STALE_AFTER
  }

  /** Drops entries from the front until one is fresh. */
  function EvictStale(t: Table, now: Instant): (r: (Table, seq<StateEvent>))
    ensures |r.0| <= |t|
  {
    if |t| == 0 || !IsStale(t[0], now) then (t, [])
    else
      var (rest, events) := EvictStale(t[1..], now);
      (rest, [Lost(t[0].icao)] + events)
  }

  /** Makes room when the table is full: the oldest entry goes, and with it any stale ones. */
  function EvictIfNeeded(t: Table, capacity: nat, now: Instant): (r: (Table, seq<StateEvent>))
    ensures |r.0| <= |t|
  {
    if |t| < capacity then (t, [])
    else if |t| == 0 then EvictStale(t, now)
    else
      var (rest, events) := EvictStale(t[1..], now);
      (rest, [Lost(t[0].icao)] + events)
  }

  // --- Whose frame is it? ------------------------------------------------------------------

  /** The checksum of an address's three bytes: the syndrome its replies show. */
  function AddressKey(icao: Icao): Register {
    Crc(IcaoBytes(icao))
  }

  predicate IsActive(a: Aircraft, at: Instant) {
    Since(at, a.lastSeen) < ACTIVE_ICAO_WINDOW
  }

  /** The scan from the most recent entry back, which gives up at the first inactive one. */
  function ScanBack(t: Table, syndrome: Register, at: Instant): Option<Icao> {
    if |t| == 0 then None
    else
      var a := t[|t| - 1];
      if !IsActive(a, at) then None
      else if AddressKey(a.icao) == syndrome then Some(a.icao)
      else ScanBack(t[..|t| - 1], syndrome, at)
  }

  function IcaoOf(m: Message): Option<Icao> {
    match m
    case SquitterMessage(es) => Some(es.icao)
    case AllCall(icao) => Some(icao)
    case SurveillanceReply(_) => None
    case Other(_) => None
  }

  datatype Resolved = Resolved(icao: Icao, message: Option<Message>)

  function ResolveIcao(t: Table, frame: Frame, at: Instant): Option<Resolved> {
    if !frame.crc.Failed? then
      match Decode(frame)
      case Err(_) => None
      case Ok(m) =>
        match IcaoOf(m)
        case None => None
        case Some(icao) => Some(Resolved(icao, Some(m)))
    else if |frame.bytes| != SHORT_FRAME_BYTES && |frame.bytes| != LONG_FRAME_BYTES then None
    else if Crc(frame.bytes) == ZERO then None
    else
      match ScanBack(t, Crc(frame.bytes), at)
      case None => None
      case Some(icao) => Some(Resolved(icao, None))
  }

  // --- What a message does to an aircraft --------------------------------------------------

  /** An aircraft and the events its update emitted. */
  datatype Updated = Updated(aircraft: Aircraft, events: seq<StateEvent>)

  function Locate(a: Aircraft, at: Instant, pos: LatLon, altitude: Altitude, source: PositionSource): Updated {
    Updated(a.(position := Some(TimedPosition(at, pos, altitude, source))),
            [Positioned(a.icao, pos, altitude, source)])
  }

  /** Time between the two halves. */
  function Gap(e: TimedCpr, o: TimedCpr): nat {
    if e.at >= o.at then e.at - o.at else o.at - e.at
  }

  function DropOlder(a: Aircraft, e: TimedCpr, o: TimedCpr): Aircraft {
    if o.at >= e.at then a.(cprEven := None) else a.(cprOdd := None)
  }

  /** The halves left once a pair has failed to give a position, or there was no pair. */
  function AfterPair(a: Aircraft): Aircraft {
    if a.cprEven.None? || a.cprOdd.None? then a
    else
      var e, o := a.cprEven.value, a.cprOdd.value;
      if Gap(e, o) > CPR_PAIR_WINDOW then DropOlder(a, e, o)
      else match GlobalDecode(e.cpr, o.cpr, o.at >= e.at)
        case Ok(_) => a
        case Err(LatitudeZoneMismatch) => DropOlder(a, e, o)
        case Err(_) => a.(cprEven := None, cprOdd := None)
  }

  /** The global fix that a fresh pair gives. */
  function PairFix(a: Aircraft): Option<LatLon> {
    if a.cprEven.None? || a.cprOdd.None? then None
    else
      var e, o := a.cprEven.value, a.cprOdd.value;
      if Gap(e, o) > CPR_PAIR_WINDOW then None
      else match GlobalDecode(e.cpr, o.cpr, o.at >= e.at)
        case Ok(pos) => Some(pos)
        case Err(_) => None
  }

  /** The fragment for a local decode: the fresher, or the only one. */
  function FreshestFragment(a: Aircraft): Option<TimedCpr> {
    match (a.cprEven, a.cprOdd)
    case (Some(e), Some(o)) => Some(if e.at >= o.at then e else o)
    case (Some(e), None) => Some(e)
    case (None, Some(o)) => Some(o)
    case (None, None) => None
  }

  function ResolvePosition(a: Aircraft, at: Instant, altitude: Altitude, reference: Option<LatLon>): Updated {
    match PairFix(a)
    case Some(pos) => Locate(a, at, pos, altitude, Global)
    case None =>
      var b := AfterPair(a);
      if reference.None? || FreshestFragment(b).None? then Updated(b, [])
      else Locate(b, at, LocalDecode(FreshestFragment(b).value.cpr, reference.value), altitude, Local)
  }

  function StoreFragment(a: Aircraft, at: Instant, cpr: CprPosition): Aircraft {
    if cpr.odd then a.(cprOdd := Some(TimedCpr(at, cpr))) else a.(cprEven := Some(TimedCpr(at, cpr)))
  }

  /** Speed to the nearest knot, halves upwards; a negative one would become zero. */
  function WholeKnots(speed: real): nat {
    if speed < 0.0 then 0 else (speed + 0.5).Floor
  }

  /** A part that the message does not give counts as zero. */
  function TaxiVelocity(p: SurfacePosition): Velocity {
    Velocity(Taxi(if p.groundSpeedKt.Some? then WholeKnots(p.groundSpeedKt.value) else 0,
                  if p.trackDeg.Some? then p.trackDeg.value else 0.0), None, Baro)
  }

  function ResolveSurface(a: Aircraft, at: Instant, p: SurfacePosition, reference: Option<LatLon>): Updated {
    var moving := p.groundSpeedKt.Some? || p.trackDeg.Some?;
    var b := if moving then a.(velocity := Some(TaxiVelocity(p))) else a;
    var events := if moving then [Moving(a.icao, TaxiVelocity(p))] else [];
    if reference.None? then Updated(b, events)
    else
      var u := Locate(b, at, LocalDecodeSurface(p.cpr, reference.value), Unavailable, Surface);
      Updated(u.aircraft, events + u.events)
  }

  function ApplySquitter(a: Aircraft, es: Squitter, at: Instant, reference: Option<LatLon>): Updated {
    match es.payload
    case IdentificationPayload(id) =>
      Updated(a.(callsign := Some(id.callsign), category := Some((id.categorySet, id.category))),
              if a.callsign != Some(id.callsign) then [Identified(es.icao, id.callsign)] else [])
    case AirbornePayload(p) => ResolvePosition(StoreFragment(a, at, p.cpr), at, p.altitude, reference)
    case SurfacePayload(p) => ResolveSurface(a, at, p, reference)
    case VelocityPayload(v) => Updated(a.(velocity := Some(v)), [Moving(es.icao, v)])
    case RawPayload(_) => Updated(a, [])
  }

  function ApplyMessage(a: Aircraft, m: Message, at: Instant, reference: Option<LatLon>): Updated {
    if m.SquitterMessage? then ApplySquitter(a, m.es, at, reference) else Updated(a, [])
  }

  /** Counts a frame for its aircraft. */
  function CountFrame(a: Aircraft, frame: Frame, at: Instant): Updated {
    var c := a.counters.(messagesTotal := a.counters.messagesTotal + 1);
    match frame.crc
    case Clean => Updated(a.(lastSeen := at, counters := c.(crcClean := c.crcClean + 1)), [])
    case Corrected(_) => Updated(a.(lastSeen := at, counters := c.(crcCorrected := c.crcCorrected + 1)), [])
    case Failed =>
      Updated(a.(lastSeen := at, counters := c.(crcAddressRecovered := c.crcAddressRecovered + 1)),
              [AddressRecovered(a.icao, frame.df)])
  }

  function Update(a: Aircraft, frame: Frame, message: Option<Message>, at: Instant, reference: Option<LatLon>): Updated {
    var counted := CountFrame(a, frame, at);
    match message
    case None => counted
    case Some(m) =>
      var applied := ApplyMessage(counted.aircraft, m, at, reference);
      Updated(applied.aircraft, counted.events + applied.events)
  }

  // --- One frame -----------------------------------------------------------------------------

  /** The table with the frame's aircraft at the back, and the events that took. */
  function Touch(s: State, icao: Icao, at: Instant): (r: (Table, seq<StateEvent>))
    ensures |r.0| > 0 && r.0[|r.0| - 1].icao == icao
  {
    if Has(s.table, icao) then (ToBack(s.table, icao), [])
    else
      var (kept, lost) := EvictIfNeeded(s.table, s.capacity, at);
      (kept + [Fresh(icao, at)], lost + [Acquired(icao)])
  }

  function Ingest(s: State, frame: Frame, at: Instant): (State, seq<StateEvent>) {
    match ResolveIcao(s.table, frame, at)
    case None => (s, [Orphan(frame.df)])
    case Some(r) =>
      var (t, touched) := Touch(s, r.icao, at);
      var n := |t| - 1;
      var u := Update(t[n], frame, r.message, at, s.reference);
      (s.(table := t[..n] + [u.aircraft]), touched + u.events)
  }
}
