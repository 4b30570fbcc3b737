/**
 The tracker object: its methods update the table in place, one step at a time, and are proved
 to do what the functions of module Tracker say.
 */
module StateTrackers {
  import opened Wrappers
  import opened Cpr
  import opened Crc24Register
  import opened Crc24
  import opened Downlink
  import opened Messages
  import opened Tracker

  /** Tries a global fix from a fresh pair, then a local one from the freshest fragment. */
  method TryResolvePosition(before: Aircraft, at: Instant, altitude: Altitude, reference: Option<LatLon>)
    returns (aircraft: Aircraft, out: seq<StateEvent>)
    ensures Updated(aircraft, out) == ResolvePosition(before, at, altitude, reference)
  {
    hide GlobalDecode, LocalDecode;
    aircraft, out := before, [];
    if aircraft.cprEven.Some? && aircraft.cprOdd.Some? {
      var e, o := aircraft.cprEven.value, aircraft.cprOdd.value;
      var gap := Since(if e.at >= o.at then e.at else o.at, if e.at >= o.at then o.at else e.at);
      if gap <= CPR_PAIR_WINDOW {
        var mostRecentOdd := o.at >= e.at;
        match GlobalDecode(e.cpr, o.cpr, mostRecentOdd) {
          case Ok(pos) =>
            aircraft := aircraft.(position := Some(TimedPosition(at, pos, altitude, Global)));
            out := [Positioned(aircraft.icao, pos, altitude, Global)];
            return;
          case Err(LatitudeZoneMismatch) =>
            if o.at >= e.at {
              aircraft := aircraft.(cprEven := None);
            } else {
              aircraft := aircraft.(cprOdd := None);
            }
          case Err(_) =>
            aircraft := aircraft.(cprEven := None, cprOdd := None);
        }
      } else {
        if o.at >= e.at {
          aircraft := aircraft.(cprEven := None);
        } else {
          aircraft := aircraft.(cprOdd := None);
        }
      }
    }
    if reference.None? {
      return;
    }
    var fragment := FreshestFragment(aircraft);
    if fragment.None? {
      return;
    }
    var pos := LocalDecode(fragment.value.cpr, reference.value);
    aircraft := aircraft.(position := Some(TimedPosition(at, pos, altitude, Local)));
    out := [Positioned(aircraft.icao, pos, altitude, Local)];
  }

  method TryResolveSurface(before: Aircraft, at: Instant, p: SurfacePosition, reference: Option<LatLon>)
    returns (aircraft: Aircraft, out: seq<StateEvent>)
    ensures Updated(aircraft, out) == ResolveSurface(before, at, p, reference)
  {
    hide LocalDecodeSurface;
    aircraft, out := before, [];
    if p.groundSpeedKt.Some? || p.trackDeg.Some? {
      var velocity := TaxiVelocity(p);
      aircraft := aircraft.(velocity := Some(velocity));
      out := out + [Moving(aircraft.icao, velocity)];
    }
    if reference.None? {
      return;
    }
    var pos := LocalDecodeSurface(p.cpr, reference.value);
    aircraft := aircraft.(position := Some(TimedPosition(at, pos, Unavailable, Surface)));
    out := out + [Positioned(aircraft.icao, pos, Unavailable, Surface)];
  }

  method ApplyExtendedSquitter(before: Aircraft, es: Squitter, at: Instant, reference: Option<LatLon>)
    returns (aircraft: Aircraft, out: seq<StateEvent>)
    ensures Updated(aircraft, out) == ApplySquitter(before, es, at, reference)
  {
    hide ResolvePosition, ResolveSurface;
    aircraft, out := before, [];
    match es.payload {
      case IdentificationPayload(id) =>
        var changed := aircraft.callsign != Some(id.callsign);
        aircraft := aircraft.(callsign := Some(id.callsign));
        aircraft := aircraft.(category := Some((id.categorySet, id.category)));
        if changed {
          out := [Identified(es.icao, id.callsign)];
        }
      case AirbornePayload(p) =>
        var fragment := TimedCpr(at, p.cpr);
        if p.cpr.odd {
          aircraft := aircraft.(cprOdd := Some(fragment));
        } else {
          aircraft := aircraft.(cprEven := Some(fragment));
        }
        aircraft, out := TryResolvePosition(aircraft, at, p.altitude, reference);
      case SurfacePayload(p) =>
        aircraft, out := TryResolveSurface(aircraft, at, p, reference);
      case VelocityPayload(v) =>
        aircraft := aircraft.(velocity := Some(v));
        out := [Moving(es.icao, v)];
      case RawPayload(_) =>
    }
  }

  class StateTracker {
    var byIcao: Table
    const capacity: nat
    var reference: Option<LatLon>
    const tables: Tables

    ghost function Abstract(): State
      reads this
    {
      State(byIcao, capacity, reference)
    }

    ghost predicate Valid() {
      tables.Valid()
    }

    constructor (cap: nat)
      ensures Valid() && Abstract() == State([], cap, None)
    {
      byIcao, capacity, reference := [], cap, None;
      tables := new Tables();
    }

    method SetReference(pos: LatLon)
      modifies this`reference
      ensures Abstract() == old(Abstract()).(reference := Some(pos))
    {
      reference := Some(pos);
    }

    /** Scans the table, most recent entry first, for the address behind a syndrome. */
    method FindBySyndrome(syndrome: Register, at: Instant) returns (r: Option<Icao>)
      requires Valid()
      ensures r == ScanBack(byIcao, syndrome, at)
    {
      hide IsActive, Crc;
      var k := |byIcao|;
      assert byIcao[..k] == byIcao;
      while k > 0
        invariant k <= |byIcao| && ScanBack(byIcao, syndrome, at) == ScanBack(byIcao[..k], syndrome, at)
      {
        assert byIcao[..k][..k - 1] == byIcao[..k - 1];
        var a := byIcao[k - 1];
        if !IsActive(a, at) {
          return None;
        }
        var key := ComputeCrc24(tables.table, IcaoBytes(a.icao));
        if key == syndrome {
          return Some(a.icao);
        }
        k := k - 1;
      }
      r := None;
    }

    method Resolve(frame: Frame, at: Instant) returns (r: Option<Resolved>)
      requires Valid()
      ensures r == ResolveIcao(byIcao, frame, at)
    {
      hide Decode, ScanBack, Crc;
      if !frame.crc.Failed? {
        var decoded := Decode(frame);
        if decoded.Err? {
          return None;
        }
        var icao := IcaoOf(decoded.value);
        if icao.None? {
          return None;
        }
        return Some(Resolved(icao.value, Some(decoded.value)));
      }
      var n := |frame.bytes|;
      if n != SHORT_FRAME_BYTES && n != LONG_FRAME_BYTES {
        return None;
      }
      var syndrome := ComputeCrc24(tables.table, frame.bytes);
      if syndrome == ZERO {
        return None;
      }
      var icao := FindBySyndrome(syndrome, at);
      r := if icao.Some? then Some(Resolved(icao.value, None)) else None;
    }

    /** Drops aircraft not heard for five minutes, from the front while they are stale. */
    method EvictStaleAircraft(now: Instant) returns (out: seq<StateEvent>)
      modifies this`byIcao
      ensures byIcao == EvictStale(old(byIcao), now).0 && out == EvictStale(old(byIcao), now).1
    {
      hide IsStale;
      out := [];
      ghost var all := EvictStale(byIcao, now);
      while |byIcao| > 0
        invariant all.0 == EvictStale(byIcao, now).0
        invariant all.1 == out + EvictStale(byIcao, now).1
        decreases |byIcao|
      {
        if !IsStale(byIcao[0], now) {
          break;
        }
        var icao := byIcao[0].icao;
        byIcao := byIcao[1..];
        out := out + [Lost(icao)];
      }
    }

    method EvictIfFull(now: Instant) returns (out: seq<StateEvent>)
      modifies this`byIcao
      ensures byIcao == EvictIfNeeded(old(byIcao), capacity, now).0
      ensures out == EvictIfNeeded(old(byIcao), capacity, now).1
    {
      hide EvictStale;
      out := [];
      if |byIcao| < capacity {
        return;
      }
      if |byIcao| > 0 {
        out := [Lost(byIcao[0].icao)];
        byIcao := byIcao[1..];
      }
      var stale := EvictStaleAircraft(now);
      out := out + stale;
    }

    /** Brings the frame's aircraft to the back of the table, acquiring it if it is new. */
    method TouchAircraft(icao: Icao, at: Instant) returns (out: seq<StateEvent>)
      modifies this`byIcao
      ensures |byIcao| > 0 && byIcao == Touch(old(Abstract()), icao, at).0
      ensures out == Touch(old(Abstract()), icao, at).1
    {
      hide EvictIfNeeded, Has;
      out := [];
      var k := Lookup(icao);
      if k.None? {
        out := EvictIfFull(at);
        byIcao := byIcao + [Fresh(icao, at)];
        out := out + [Acquired(icao)];
      } else {
        var i := k.value;
        byIcao := byIcao[..i] + byIcao[i + 1..] + [byIcao[i]];
      }
    }

    /** The place of an address in the table. */
    method Lookup(icao: Icao) returns (r: Option<nat>)
      ensures r.Some? <==> Has(byIcao, icao)
      ensures r.Some? ==> Has(byIcao, icao) && r.value == IndexOf(byIcao, icao)
    {
      for k := 0 to |byIcao|
        invariant forall i :: 0 <= i < k ==> byIcao[i].icao != icao
      {
        if byIcao[k].icao == icao {
          FirstIsIndex(byIcao, icao, k);
          return Some(k);
        }
      }
      r := None;
    }

    /** Ingests one frame received at `at`. */
    method IngestFrame(frame: Frame, at: Instant) returns (out: seq<StateEvent>)
      requires Valid()
      modifies this`byIcao
      ensures Valid() && Abstract() == Ingest(old(Abstract()), frame, at).0
      ensures out == Ingest(old(Abstract()), frame, at).1
    {
      hide ResolveIcao, Touch, ApplySquitter;
      var resolved := Resolve(frame, at);
      if resolved.None? {
        return [Orphan(frame.df)];
      }
      out := TouchAircraft(resolved.value.icao, at);
      var last := |byIcao| - 1;
      var aircraft := byIcao[last];
      aircraft := aircraft.(lastSeen := at);
      var c := aircraft.counters;
      c := c.(messagesTotal := c.messagesTotal + 1);
      ghost var counted := CountFrame(aircraft, frame, at);
      var events: seq<StateEvent> := [];
      match frame.crc {
        case Clean =>
          c := c.(crcClean := c.crcClean + 1);
        case Corrected(_) =>
          c := c.(crcCorrected := c.crcCorrected + 1);
        case Failed =>
          c := c.(crcAddressRecovered := c.crcAddressRecovered + 1);
          events := [AddressRecovered(aircraft.icao, frame.df)];
      }
      aircraft := aircraft.(counters := c);
      assert counted == Updated(aircraft, events);
      if resolved.value.message.Some? && resolved.value.message.value.SquitterMessage? {
        var more;
        aircraft, more := ApplyExtendedSquitter(aircraft, resolved.value.message.value.es, at, reference);
        events := events + more;
      }
      byIcao := byIcao[..last] + [aircraft];
      out := out + events;
    }
  }

  lemma {:induction false} FirstIsIndex(t: Table, icao: Icao, k: nat)
    requires k < |t| && t[k].icao == icao && forall i :: 0 <= i < k ==> t[i].icao != icao
    ensures Has(t, icao) && IndexOf(t, icao) == k
  {
    if k > 0 {
      FirstIsIndex(t[1..], icao, k - 1);
    }
  }
}
