/**
 The snapshot map that HTTP readers see: a cache of the tracker, refreshed event by event after
 each frame has been ingested.
 */
module Snapshot {
  import opened Wrappers
  import opened Cpr
  import opened Crc24
  import opened Downlink
  import opened Messages
  import opened Tracker
  import opened TrackerRuns

  datatype SnapshotPosition =
    SnapshotPosition(pos: LatLon, altFt: Option<int>, altSource: Option<string>, source: PositionSource)

  datatype AircraftSnapshot = AircraftSnapshot(
    icao: Icao,
    callsign: Option<string>,
    category: Option<(nat, nat)>,
    position: Option<SnapshotPosition>,
    velocity: Option<Velocity>,
    counters: Counters)

  type SnapshotMap = map<Icao, AircraftSnapshot>

  function Feet(a: Altitude): Option<int> {
    if a.Unavailable? then None else Some(a.feet)
  }

  function SourceTag(a: Altitude): Option<string> {
    match a
    case BaroFeet(_) => Some("baro")
    case BaroGillhamFeet(_) => Some("baro")
    case GnssFeet(_) => Some("gnss")
    case Unavailable => None
  }

  function SnapshotPositionOf(p: Option<TimedPosition>): Option<SnapshotPosition> {
    match p
    case None => None
    case Some(q) => Some(SnapshotPosition(q.pos, Feet(q.altitude), SourceTag(q.altitude), q.source))
  }

  function SnapshotFrom(a: Aircraft): AircraftSnapshot {
    AircraftSnapshot(a.icao, a.callsign, a.category, SnapshotPositionOf(a.position), a.velocity, a.counters)
  }

  function EventIcao(e: StateEvent): Option<Icao> {
    if e.Orphan? then None else Some(e.icao)
  }

  /** Overwrites the entry of the event's aircraft with its current state, or deletes it if lost. */
  function Refresh(m: SnapshotMap, t: Table, e: StateEvent): SnapshotMap {
    match EventIcao(e)
    case None => m
    case Some(icao) =>
      if e.Lost? then m - {icao}
      else if Has(t, icao) then m[icao := SnapshotFrom(t[IndexOf(t, icao)])]
      else m
  }

  function RefreshAll(m: SnapshotMap, t: Table, events: seq<StateEvent>): SnapshotMap {
    if |events| == 0 then m
    else Refresh(RefreshAll(m, t, events[..|events| - 1]), t, events[|events| - 1])
  }

  /** The shared map and the decoder's side of it. */
  class SnapshotCache {
    var snapshot: SnapshotMap

    constructor ()
      ensures snapshot == map[]
    {
      snapshot := map[];
    }

    method UpdateSnapshot(t: Table, e: StateEvent)
      modifies this
      ensures snapshot == Refresh(old(snapshot), t, e)
    {
      if e.Orphan? {
        return;
      }
      if e.Lost? {
        snapshot := snapshot - {e.icao};
      } else if Has(t, e.icao) {
        snapshot := snapshot[e.icao := SnapshotFrom(t[IndexOf(t, e.icao)])];
      }
    }

    /** Drains the events of one ingest, with the tracker already in its new state. */
    method Drain(t: Table, events: seq<StateEvent>)
      modifies this
      ensures snapshot == RefreshAll(old(snapshot), t, events)
    {
      for k := 0 to |events|
        invariant snapshot == RefreshAll(old(snapshot), t, events[..k])
      {
        assert events[..k + 1][..k] == events[..k];
        UpdateSnapshot(t, events[k]);
      }
      assert events[..|events|] == events;
    }
  }

  // --- Agreement -------------------------------------------------------------------------------

  /** Everything but the counters and the category, whose agreement is treated below. */
  predicate Agrees(s: AircraftSnapshot, a: Aircraft) {
    && s.icao == a.icao && s.callsign == a.callsign
    && s.position == SnapshotPositionOf(a.position) && s.velocity == a.velocity
  }

  /** The map tells one address's state: present with it, absent without it. */
  predicate InStep(m: SnapshotMap, t: Table, icao: Icao) {
    && (icao in m <==> Has(t, icao))
    && (Has(t, icao) ==> Agrees(m[icao], t[IndexOf(t, icao)]))
  }

  lemma RefreshSnoc(m: SnapshotMap, t: Table, events: seq<StateEvent>, e: StateEvent)
    ensures RefreshAll(m, t, events + [e]) == Refresh(RefreshAll(m, t, events), t, e)
  {
    assert (events + [e])[..|events|] == events;
  }

  /** Events about other aircraft leave an entry alone. */
  lemma {:induction false} OthersDoNotMatter(m: SnapshotMap, t: Table, events: seq<StateEvent>, icao: Icao)
    requires forall k :: 0 <= k < |events| ==> EventIcao(events[k]) != Some(icao)
    ensures var u := RefreshAll(m, t, events); (icao in u <==> icao in m) && (icao in m ==> u[icao] == m[icao])
  {
    if |events| > 0 {
      OthersDoNotMatter(m, t, events[..|events| - 1], icao);
    }
  }

  /** Once an event about a tracked aircraft has been drained, its entry is its current state. */
  lemma {:induction false} OneEventSuffices(m: SnapshotMap, t: Table, events: seq<StateEvent>, icao: Icao)
    requires Has(t, icao) && |events| > 0
    requires forall k :: 0 <= k < |events| ==> !events[k].Lost? && !events[k].Orphan? && events[k].icao == icao
    ensures var u := RefreshAll(m, t, events); icao in u && u[icao] == SnapshotFrom(t[IndexOf(t, icao)])
  {
  }

  lemma {:induction false} LostAreRemoved(m: SnapshotMap, t: Table, gone: Table, icao: Icao)
    ensures var u := RefreshAll(m, t, LostOf(gone));
            && (Has(gone, icao) ==> icao !in u)
            && (!Has(gone, icao) ==> (icao in u <==> icao in m) && (icao in m ==> u[icao] == m[icao]))
  {
    if |gone| > 0 {
      var n := |gone| - 1;
      LostAreRemoved(m, t, gone[..n], icao);
      assert LostOf(gone)[..n] == LostOf(gone[..n]);
      HasAppended(gone[..n], gone[n], icao);
      assert gone == gone[..n] + [gone[n]];
    }
  }

  /** Draining two lists in turn. */
  lemma {:induction false} RefreshConcat(m: SnapshotMap, t: Table, a: seq<StateEvent>, b: seq<StateEvent>)
    ensures RefreshAll(m, t, a + b) == RefreshAll(RefreshAll(m, t, a), t, b)
  {
    if |b| == 0 {
      assert a + b == a;
    } else {
      var init, last := b[..|b| - 1], b[|b| - 1];
      RefreshConcat(m, t, a, init);
      RefreshSnoc(m, t, a + init, last);
      assert a + b == (a + init) + [last];
    }
  }

  // --- What an update may change without an event -------------------------------------------------

  predicate AllAbout(events: seq<StateEvent>, icao: Icao) {
    forall k :: 0 <= k < |events| ==> !events[k].Lost? && !events[k].Orphan? && events[k].icao == icao
  }

  /** An update without an event leaves callsign, position and velocity as they were. */
  lemma SilentUpdate(a: Aircraft, es: Squitter, at: Instant, reference: Option<LatLon>)
    requires es.icao == a.icao
    ensures var u := ApplySquitter(a, es, at, reference);
            && AllAbout(u.events, a.icao)
            && (|u.events| == 0 ==>
                  u.aircraft.callsign == a.callsign && u.aircraft.position == a.position && u.aircraft.velocity == a.velocity)
  {
    hide GlobalDecode, LocalDecode, LocalDecodeSurface;
  }

  lemma SilentFrame(a: Aircraft, frame: Frame, m: Option<Message>, at: Instant, reference: Option<LatLon>)
    requires m.Some? ==> IcaoOf(m.value) == Some(a.icao)
    ensures var u := Update(a, frame, m, at, reference);
            && u.aircraft.icao == a.icao && AllAbout(u.events, a.icao)
            && (|u.events| == 0 ==>
                  u.aircraft.callsign == a.callsign && u.aircraft.position == a.position && u.aircraft.velocity == a.velocity)
  {
    hide ApplySquitter;
    UpdateKeepsIdentity(a, frame, m, at, reference);
    if m.Some? && m.value.SquitterMessage? {
      SilentUpdate(CountFrame(a, frame, at).aircraft, m.value.es, at, reference);
    }
  }

  // --- One frame -----------------------------------------------------------------------------------

  lemma {:induction false} EntryIs(t: Table, i: nat)
    requires Unique(t) && i < |t|
    ensures Has(t, t[i].icao) && IndexOf(t, t[i].icao) == i
  {
    assert Has(t, t[i].icao);
    var k := IndexOf(t, t[i].icao);
    assert t[k].icao == t[i].icao;
  }

  /** Moving one aircraft to the back leaves every other entry as it was. */
  lemma OthersStay(t: Table, k: nat, a: Aircraft, icao: Icao)
    requires Unique(t) && k < |t| && t[k].icao == a.icao && icao != a.icao && Has(t, icao)
    ensures var u := MovedToBack(t, k, a); Has(u, icao) && u[IndexOf(u, icao)] == t[IndexOf(t, icao)]
  {
    var u := MovedToBack(t, k, a);
    var i := IndexOf(t, icao);
    HasMoved(t, k, a, icao);
    var j := if i < k then i else i - 1;
    assert u[j] == t[i];
    MoveKeepsUnique(t, k, a);
    EntryIs(u, j);
  }

  lemma MoveKeepsUnique(t: Table, k: nat, a: Aircraft)
    requires Unique(t) && k < |t| && t[k].icao == a.icao
    ensures Unique(MovedToBack(t, k, a))
  {
    var u := MovedToBack(t, k, a);
    assert forall i :: 0 <= i < k ==> u[i] == t[i];
    assert forall i :: k <= i < |t| - 1 ==> u[i] == t[i + 1];
  }

  lemma KnownStaysInStep(m: SnapshotMap, t: Table, k: nat, a: Aircraft, events: seq<StateEvent>, icao: Icao)
    requires Unique(t) && k < |t| && t[k].icao == a.icao && InStep(m, t, icao)
    requires AllAbout(events, a.icao)
    requires |events| == 0 ==> a.callsign == t[k].callsign && a.position == t[k].position && a.velocity == t[k].velocity
    ensures var u := MovedToBack(t, k, a); InStep(RefreshAll(m, u, events), u, icao)
  {
    var u := MovedToBack(t, k, a);
    HasMoved(t, k, a, icao);
    MoveKeepsUnique(t, k, a);
    EntryIs(u, |t| - 1);
    EntryIs(t, k);
    hide Unique, Has, MovedToBack;
    if icao == a.icao {
      if |events| > 0 {
        OneEventSuffices(m, u, events, icao);
      }
    } else {
      OthersDoNotMatter(m, u, events, icao);
      if Has(t, icao) {
        OthersStay(t, k, a, icao);
      }
    }
  }

  lemma InPrefix(t: Table, k: nat, i: nat)
    requires i < k <= |t|
    ensures Has(t[..k], t[i].icao)
  {
    assert t[..k][i] == t[i];
  }

  /** Dropping a prefix and appending a new aircraft. */
  lemma SurvivorsStay(t: Table, k: nat, a: Aircraft, icao: Icao)
    requires Unique(t) && k <= |t| && !Has(t, a.icao) && icao != a.icao
    ensures var u := t[k..] + [a];
            && (Has(u, icao) <==> Has(t, icao) && !Has(t[..k], icao))
            && (Has(u, icao) ==> u[IndexOf(u, icao)] == t[IndexOf(t, icao)])
  {
    var u := t[k..] + [a];
    AppendKeepsUnique(t, k, a);
    if Has(u, icao) {
      var j := IndexOf(u, icao);
      assert u[j] == t[k + j];
      EntryIs(t, k + j);
    }
    if Has(t, icao) && !Has(t[..k], icao) {
      var i := IndexOf(t, icao);
      if i < k {
        InPrefix(t, k, i);
      }
      assert u[i - k] == t[i];
    }
  }

  lemma AppendKeepsUnique(t: Table, k: nat, a: Aircraft)
    requires Unique(t) && k <= |t| && !Has(t, a.icao)
    ensures Unique(t[k..] + [a])
  {
    DroppedIsNotHere(t, k, a.icao);
    DropKeepsShape(t, k);
  }

  lemma NewStaysInStep(m: SnapshotMap, t: Table, k: nat, a: Aircraft, quiet: seq<StateEvent>, icao: Icao)
    requires Unique(t) && k <= |t| && !Has(t, a.icao) && InStep(m, t, icao) && AllAbout(quiet, a.icao)
    ensures var u := t[k..] + [a];
            InStep(RefreshAll(m, u, LostOf(t[..k]) + ([Acquired(a.icao)] + quiet)), u, icao)
  {
    var u := t[k..] + [a];
    var about := [Acquired(a.icao)] + quiet;
    AppendKeepsUnique(t, k, a);
    EntryIs(u, |u| - 1);
    LostAreRemoved(m, u, t[..k], icao);
    RefreshConcat(m, u, LostOf(t[..k]), about);
    hide Unique, Has, LostOf;
    if icao == a.icao {
      OneEventSuffices(RefreshAll(m, u, LostOf(t[..k])), u, about, icao);
    } else {
      OthersDoNotMatter(RefreshAll(m, u, LostOf(t[..k])), u, about, icao);
      SurvivorsStay(t, k, a, icao);
    }
  }

  lemma IngestKnown(s: State, frame: Frame, at: Instant, r: Resolved)
    requires ResolveIcao(s.table, frame, at) == Some(r) && Has(s.table, r.icao)
    ensures var k := IndexOf(s.table, r.icao);
            var u := Update(s.table[k], frame, r.message, at, s.reference);
            var (after, events) := Ingest(s, frame, at);
            after.table == MovedToBack(s.table, k, u.aircraft) && events == u.events
  {
    hide ResolveIcao, Update;
    var t, k := s.table, IndexOf(s.table, r.icao);
    var touched := ToBack(t, r.icao);
    assert touched[..|t| - 1] == t[..k] + t[k + 1..];
  }

  lemma IngestNew(s: State, frame: Frame, at: Instant, r: Resolved) returns (k: nat)
    requires Sorted(s.table) && ResolveIcao(s.table, frame, at) == Some(r) && !Has(s.table, r.icao)
    ensures k <= |s.table|
    ensures var u := Update(Fresh(r.icao, at), frame, r.message, at, s.reference);
            var (after, events) := Ingest(s, frame, at);
            && after.table == s.table[k..] + [u.aircraft]
            && events == LostOf(s.table[..k]) + ([Acquired(r.icao)] + u.events)
  {
    hide ResolveIcao, Update, EvictIfNeeded;
    k := EvictIfNeededDrops(s.table, s.capacity, at);
    var touched := s.table[k..] + [Fresh(r.icao, at)];
    assert touched[..|touched| - 1] == s.table[k..];
    var u := Update(Fresh(r.icao, at), frame, r.message, at, s.reference);
    assert LostOf(s.table[..k]) + ([Acquired(r.icao)] + u.events)
        == (LostOf(s.table[..k]) + [Acquired(r.icao)]) + u.events;
  }

  lemma OrphanChangesNothing(m: SnapshotMap, t: Table, df: DownlinkFormat)
    ensures RefreshAll(m, t, [Orphan(df)]) == m
  {
    var none: seq<StateEvent> := [];
    RefreshSnoc(m, t, none, Orphan(df));
    assert none + [Orphan(df)] == [Orphan(df)];
  }

  /** Draining the events of one ingest keeps the map in step with the tracker, for every address. */
  lemma IngestKeepsStep(m: SnapshotMap, s: State, now: Instant, frame: Frame, at: Instant, icao: Icao)
    requires Inv(s, now) && now <= at && InStep(m, s.table, icao)
    ensures var (after, events) := Ingest(s, frame, at);
            InStep(RefreshAll(m, after.table, events), after.table, icao)
  {
    var t := s.table;
    match ResolveIcao(t, frame, at)
    case None =>
      OrphanChangesNothing(m, t, frame.df);
    case Some(r) =>
      ResolvedIcao(t, frame, at);
      hide ResolveIcao, Update, Ingest, InStep, RefreshAll, MovedToBack;
      if Has(t, r.icao) {
        var k := IndexOf(t, r.icao);
        IngestKnown(s, frame, at, r);
        SilentFrame(t[k], frame, r.message, at, s.reference);
        var u := Update(t[k], frame, r.message, at, s.reference);
        KnownStaysInStep(m, t, k, u.aircraft, u.events, icao);
      } else {
        var k := IngestNew(s, frame, at, r);
        SilentFrame(Fresh(r.icao, at), frame, r.message, at, s.reference);
        var u := Update(Fresh(r.icao, at), frame, r.message, at, s.reference);
        NewStaysInStep(m, t, k, u.aircraft, u.events, icao);
      }
  }

  // --- Whole runs ------------------------------------------------------------------------------------

  /** The decoder loop's view: tracker and snapshot after some received frames, the events drained each time. */
  function SnapshotOf(capacity: nat, reference: Option<LatLon>, steps: seq<Step>): SnapshotMap {
    if |steps| == 0 then map[]
    else
      var m := SnapshotOf(capacity, reference, steps[..|steps| - 1]);
      var (s, events) := Do(RunOf(capacity, reference, steps[..|steps| - 1]).state, steps[|steps| - 1]);
      RefreshAll(m, s.table, events)
  }

  /**
   After every run of received frames whose clock never goes back, the snapshot has exactly the
   tracker's addresses and agrees with it on callsign, position and velocity.
   */
  lemma {:induction false} SnapshotInStep(capacity: nat, reference: Option<LatLon>, steps: seq<Step>, icao: Icao)
    requires ClockNeverGoesBack(steps) && forall k :: 0 <= k < |steps| ==> steps[k].Receive?
    ensures InStep(SnapshotOf(capacity, reference, steps), RunOf(capacity, reference, steps).state.table, icao)
  {
    if |steps| > 0 {
      var n := |steps| - 1;
      SnapshotInStep(capacity, reference, steps[..n], icao);
      EveryRun(capacity, reference, steps[..n], icao);
      var before := RunOf(capacity, reference, steps[..n]);
      hide Ingest, InStep, Inv, LogMatches;
      IngestKeepsStep(SnapshotOf(capacity, reference, steps[..n]), before.state, before.clock, steps[n].frame, steps[n].at, icao);
    }
  }

  /** What a snapshot position shows of a tracked one. */
  predicate Shows(s: SnapshotPosition, p: TimedPosition) {
    && s.pos.lat == p.pos.lat && s.pos.lon == p.pos.lon && s.source == p.source
    && match p.altitude
       case BaroFeet(feet) => s.altFt == Some(feet) && s.altSource == Some("baro")
       case BaroGillhamFeet(feet) => s.altFt == Some(feet) && s.altSource == Some("baro")
       case GnssFeet(feet) => s.altFt == Some(feet) && s.altSource == Some("gnss")
       case Unavailable => s.altFt == None && s.altSource == None
  }

  /**
   After every such run each tracked aircraft is shown under its address: with its callsign and velocity,
   and with its latitude, longitude, feet and their source if it has a position, and without one if not.
   */
  lemma SnapshotShows(capacity: nat, reference: Option<LatLon>, steps: seq<Step>, icao: Icao)
    requires ClockNeverGoesBack(steps) && forall k :: 0 <= k < |steps| ==> steps[k].Receive?
    requires Has(RunOf(capacity, reference, steps).state.table, icao)
    ensures var t, m := RunOf(capacity, reference, steps).state.table, SnapshotOf(capacity, reference, steps);
            var a := t[IndexOf(t, icao)];
            && icao in m && m[icao].icao == icao && m[icao].callsign == a.callsign && m[icao].velocity == a.velocity
            && (m[icao].position.Some? <==> a.position.Some?)
            && (a.position.Some? ==> Shows(m[icao].position.value, a.position.value))
  {
    hide SnapshotOf, RunOf, ClockNeverGoesBack;
    SnapshotInStep(capacity, reference, steps, icao);
  }

  // --- Counters --------------------------------------------------------------------------------------

  /**
   The squitters that change an aircraft without an event: a callsign it already has, an airborne
   position that neither completes a good pair nor can be placed by a reference, a surface position
   with neither speed nor track where there is no reference, and every undecoded payload.
   */
  predicate SaysNothingNew(a: Aircraft, es: Squitter, at: Instant, reference: Option<LatLon>) {
    match es.payload
    case IdentificationPayload(id) => a.callsign == Some(id.callsign)
    case AirbornePayload(p) =>
      var b := StoreFragment(a, at, p.cpr);
      PairFix(b).None? && (reference.None? || FreshestFragment(AfterPair(b)).None?)
    case SurfacePayload(p) => p.groundSpeedKt.None? && p.trackDeg.None? && reference.None?
    case VelocityPayload(_) => false
    case RawPayload(_) => true
  }

  /** A checked frame that is an all-call reply or a squitter with nothing new. */
  predicate IsSilent(a: Aircraft, frame: Frame, m: Option<Message>, at: Instant, reference: Option<LatLon>) {
    && !frame.crc.Failed?
    && (m.Some? && m.value.SquitterMessage? ==> SaysNothingNew(a, m.value.es, at, reference))
  }

  lemma SquitterIsSilentIff(a: Aircraft, counted: Aircraft, es: Squitter, at: Instant, reference: Option<LatLon>)
    requires counted.callsign == a.callsign && counted.cprEven == a.cprEven && counted.cprOdd == a.cprOdd
    ensures |ApplySquitter(counted, es, at, reference).events| == 0 <==> SaysNothingNew(a, es, at, reference)
  {
    hide GlobalDecode, LocalDecode, LocalDecodeSurface;
  }

  /** An update emits no event exactly for the silent frames. */
  lemma SilentIff(a: Aircraft, frame: Frame, m: Option<Message>, at: Instant, reference: Option<LatLon>)
    ensures |Update(a, frame, m, at, reference).events| == 0 <==> IsSilent(a, frame, m, at, reference)
  {
    hide ApplySquitter, SaysNothingNew;
    if m.Some? && m.value.SquitterMessage? {
      SquitterIsSilentIff(a, CountFrame(a, frame, at).aircraft, m.value.es, at, reference);
    }
  }

  /** The snapshot of this address shows the counters the tracker has. */
  predicate CountersAgree(m: SnapshotMap, t: Table, icao: Icao) {
    icao in m && Has(t, icao) && m[icao].counters == t[IndexOf(t, icao)].counters
  }

  /**
   Counters that agreed before a frame of a tracked aircraft agree after it exactly when the frame
   emitted an event, which every frame does but the silent ones.
   */
  lemma CountersAgreeIff(m: SnapshotMap, s: State, frame: Frame, at: Instant, r: Resolved)
    requires Unique(s.table) && ResolveIcao(s.table, frame, at) == Some(r) && CountersAgree(m, s.table, r.icao)
    ensures var (after, events) := Ingest(s, frame, at);
            var a := s.table[IndexOf(s.table, r.icao)];
            && (CountersAgree(RefreshAll(m, after.table, events), after.table, r.icao) <==> |events| > 0)
            && (|events| > 0 <==> !IsSilent(a, frame, r.message, at, s.reference))
  {
    var k := IndexOf(s.table, r.icao);
    IngestKnown(s, frame, at, r);
    ResolvedIcao(s.table, frame, at);
    var u := Update(s.table[k], frame, r.message, at, s.reference);
    UpdateKeepsIdentity(s.table[k], frame, r.message, at, s.reference);
    SilentFrame(s.table[k], frame, r.message, at, s.reference);
    SilentIff(s.table[k], frame, r.message, at, s.reference);
    MoveKeepsUnique(s.table, k, u.aircraft);
    var t := MovedToBack(s.table, k, u.aircraft);
    EntryIs(t, |t| - 1);
    hide Ingest, ResolveIcao, Update, IsSilent, MovedToBack, Has;
    if |u.events| > 0 {
      OneEventSuffices(m, t, u.events, r.icao);
    }
  }

  predicate CategoryAgrees(m: SnapshotMap, t: Table, icao: Icao) {
    icao in m && Has(t, icao) && m[icao].category == t[IndexOf(t, icao)].category
  }

  /** An identification with the callsign the aircraft already has, but another category. */
  predicate OnlyCategoryChanges(a: Aircraft, m: Option<Message>) {
    && m.Some? && m.value.SquitterMessage? && m.value.es.payload.IdentificationPayload?
    && var id := m.value.es.payload.id;
       a.callsign == Some(id.callsign) && a.category != Some((id.categorySet, id.category))
  }

  lemma SilentCategory(a: Aircraft, frame: Frame, m: Option<Message>, at: Instant, reference: Option<LatLon>)
    requires m.Some? ==> !frame.crc.Failed?
    ensures var u := Update(a, frame, m, at, reference);
            |u.events| == 0 && u.aircraft.category != a.category <==> OnlyCategoryChanges(a, m)
  {
    hide GlobalDecode, LocalDecode, LocalDecodeSurface;
  }

  /** Likewise the category, whose only unseen change comes with an unchanged callsign. */
  lemma CategoryAgreesIff(m: SnapshotMap, s: State, frame: Frame, at: Instant, r: Resolved)
    requires Unique(s.table) && ResolveIcao(s.table, frame, at) == Some(r) && CategoryAgrees(m, s.table, r.icao)
    ensures var (after, events) := Ingest(s, frame, at);
            CategoryAgrees(RefreshAll(m, after.table, events), after.table, r.icao)
            <==> !OnlyCategoryChanges(s.table[IndexOf(s.table, r.icao)], r.message)
  {
    var k := IndexOf(s.table, r.icao);
    IngestKnown(s, frame, at, r);
    ResolvedIcao(s.table, frame, at);
    assert r.message.Some? ==> !frame.crc.Failed? by {
      hide Decode, ScanBack, Crc;
    }
    var u := Update(s.table[k], frame, r.message, at, s.reference);
    SilentFrame(s.table[k], frame, r.message, at, s.reference);
    SilentCategory(s.table[k], frame, r.message, at, s.reference);
    MoveKeepsUnique(s.table, k, u.aircraft);
    var t := MovedToBack(s.table, k, u.aircraft);
    EntryIs(t, |t| - 1);
    hide Ingest, ResolveIcao, Update, OnlyCategoryChanges, MovedToBack, Has;
    if |u.events| > 0 {
      OneEventSuffices(m, t, u.events, r.icao);
    }
  }

  /** An address has the same entry in both tables and in both maps. */
  predicate SameEntry(m: SnapshotMap, t: Table, n: SnapshotMap, u: Table, icao: Icao) {
    && Has(t, icao) && Has(u, icao) && u[IndexOf(u, icao)] == t[IndexOf(t, icao)]
    && (icao in m ==> icao in n && n[icao] == m[icao])
  }

  /** Frames of other aircraft, and orphans, leave an entry as it is in the tracker and the snapshot. */
  lemma OthersKeepEntry(m: SnapshotMap, s: State, now: Instant, frame: Frame, at: Instant, icao: Icao)
    requires Inv(s, now) && now <= at
    requires ResolveIcao(s.table, frame, at).Some? ==> ResolveIcao(s.table, frame, at).value.icao != icao
    ensures var (after, events) := Ingest(s, frame, at);
            Has(after.table, icao) ==> SameEntry(m, s.table, RefreshAll(m, after.table, events), after.table, icao)
  {
    var t := s.table;
    match ResolveIcao(t, frame, at)
    case None =>
      OrphanChangesNothing(m, t, frame.df);
    case Some(r) =>
      ResolvedIcao(t, frame, at);
      hide ResolveIcao, Update, Ingest, RefreshAll, SameEntry;
      if Has(t, r.icao) {
        var k := IndexOf(t, r.icao);
        IngestKnown(s, frame, at, r);
        SilentFrame(t[k], frame, r.message, at, s.reference);
        var u := Update(t[k], frame, r.message, at, s.reference);
        MoveKeepsEntry(m, t, k, u.aircraft, u.events, icao);
      } else {
        var k := IngestNew(s, frame, at, r);
        SilentFrame(Fresh(r.icao, at), frame, r.message, at, s.reference);
        var u := Update(Fresh(r.icao, at), frame, r.message, at, s.reference);
        NewKeepsEntry(m, t, k, u.aircraft, u.events, icao);
      }
  }

  lemma MoveKeepsEntry(m: SnapshotMap, t: Table, k: nat, a: Aircraft, events: seq<StateEvent>, icao: Icao)
    requires Unique(t) && k < |t| && t[k].icao == a.icao && icao != a.icao && AllAbout(events, a.icao)
    ensures var u := MovedToBack(t, k, a); Has(u, icao) ==> SameEntry(m, t, RefreshAll(m, u, events), u, icao)
  {
    HasMoved(t, k, a, icao);
    OthersDoNotMatter(m, MovedToBack(t, k, a), events, icao);
    hide Unique, Has, MovedToBack;
    if Has(t, icao) {
      OthersStay(t, k, a, icao);
    }
  }

  lemma NewKeepsEntry(m: SnapshotMap, t: Table, k: nat, a: Aircraft, quiet: seq<StateEvent>, icao: Icao)
    requires Unique(t) && k <= |t| && !Has(t, a.icao) && icao != a.icao && AllAbout(quiet, a.icao)
    ensures var u := t[k..] + [a];
            var after := RefreshAll(m, u, LostOf(t[..k]) + ([Acquired(a.icao)] + quiet));
            Has(u, icao) ==> SameEntry(m, t, after, u, icao)
  {
    var u := t[k..] + [a];
    var about := [Acquired(a.icao)] + quiet;
    LostAreRemoved(m, u, t[..k], icao);
    RefreshConcat(m, u, LostOf(t[..k]), about);
    hide Unique, Has, LostOf;
    SurvivorsStay(t, k, a, icao);
    OthersDoNotMatter(RefreshAll(m, u, LostOf(t[..k])), u, about, icao);
  }

  /** The snapshot's message count is behind the tracker's. */
  predicate CountersLag(m: SnapshotMap, t: Table, icao: Icao) {
    && icao in m && Has(t, icao)
    && m[icao].counters.messagesTotal < t[IndexOf(t, icao)].counters.messagesTotal
  }

  predicate CountersAre(m: SnapshotMap, t: Table, icao: Icao, current: bool) {
    Has(t, icao) ==> if current then CountersAgree(m, t, icao) else CountersLag(m, t, icao)
  }

  /** The last received frame of an address emitted an event. */
  predicate LastFrameSpoke(capacity: nat, reference: Option<LatLon>, steps: seq<Step>, icao: Icao)
    requires forall k :: 0 <= k < |steps| ==> steps[k].Receive?
  {
    |steps| > 0 &&
    var n := |steps| - 1;
    var s := RunOf(capacity, reference, steps[..n]).state;
    match ResolveIcao(s.table, steps[n].frame, steps[n].at)
    case Some(r) =>
      if r.icao == icao then |Ingest(s, steps[n].frame, steps[n].at).1| > 0
      else LastFrameSpoke(capacity, reference, steps[..n], icao)
    case None => LastFrameSpoke(capacity, reference, steps[..n], icao)
  }

  /** A frame of the address itself: counters are current after an event and behind without one. */
  lemma OwnFrameCounters(m: SnapshotMap, s: State, frame: Frame, at: Instant, r: Resolved, current: bool)
    requires Unique(s.table) && Sorted(s.table) && ResolveIcao(s.table, frame, at) == Some(r)
    requires CountersAre(m, s.table, r.icao, current)
    ensures var (after, events) := Ingest(s, frame, at);
            CountersAre(RefreshAll(m, after.table, events), after.table, r.icao, |events| > 0)
  {
    ResolvedIcao(s.table, frame, at);
    hide ResolveIcao, Update, Ingest;
    if Has(s.table, r.icao) {
      var k := IndexOf(s.table, r.icao);
      IngestKnown(s, frame, at, r);
      var u := Update(s.table[k], frame, r.message, at, s.reference);
      UpdateKeepsIdentity(s.table[k], frame, r.message, at, s.reference);
      SilentFrame(s.table[k], frame, r.message, at, s.reference);
      MoveKeepsUnique(s.table, k, u.aircraft);
      var t := MovedToBack(s.table, k, u.aircraft);
      EntryIs(t, |t| - 1);
      hide MovedToBack, Has;
      if |u.events| > 0 {
        OneEventSuffices(m, t, u.events, r.icao);
      }
    } else {
      var k := IngestNew(s, frame, at, r);
      var u := Update(Fresh(r.icao, at), frame, r.message, at, s.reference);
      SilentFrame(Fresh(r.icao, at), frame, r.message, at, s.reference);
      NewIsCurrent(m, s.table, k, u.aircraft, u.events);
    }
  }

  lemma NewIsCurrent(m: SnapshotMap, t: Table, k: nat, a: Aircraft, quiet: seq<StateEvent>)
    requires Unique(t) && k <= |t| && !Has(t, a.icao) && AllAbout(quiet, a.icao)
    ensures var u := t[k..] + [a];
            CountersAgree(RefreshAll(m, u, LostOf(t[..k]) + ([Acquired(a.icao)] + quiet)), u, a.icao)
  {
    var u := t[k..] + [a];
    var about := [Acquired(a.icao)] + quiet;
    AppendKeepsUnique(t, k, a);
    EntryIs(u, |u| - 1);
    RefreshConcat(m, u, LostOf(t[..k]), about);
    hide Unique, Has, LostOf;
    OneEventSuffices(RefreshAll(m, u, LostOf(t[..k])), u, about, a.icao);
  }

  /**
   After every run of received frames whose clock never goes back, the snapshot shows a tracked
   aircraft's counters exactly when its last frame emitted an event; otherwise its count is behind.
   */
  lemma {:induction false} CountersInRuns(capacity: nat, reference: Option<LatLon>, steps: seq<Step>, icao: Icao)
    requires ClockNeverGoesBack(steps) && forall k :: 0 <= k < |steps| ==> steps[k].Receive?
    ensures CountersAre(SnapshotOf(capacity, reference, steps), RunOf(capacity, reference, steps).state.table, icao,
                        LastFrameSpoke(capacity, reference, steps, icao))
  {
    if |steps| > 0 {
      var n := |steps| - 1;
      CountersInRuns(capacity, reference, steps[..n], icao);
      EveryRun(capacity, reference, steps[..n], icao);
      var before := RunOf(capacity, reference, steps[..n]);
      var m := SnapshotOf(capacity, reference, steps[..n]);
      var frame, at := steps[n].frame, steps[n].at;
      hide Ingest, ResolveIcao, LogMatches;
      match ResolveIcao(before.state.table, frame, at)
      case Some(r) =>
        if r.icao == icao {
          OwnFrameCounters(m, before.state, frame, at, r, LastFrameSpoke(capacity, reference, steps[..n], icao));
        } else {
          OthersKeepEntry(m, before.state, before.clock, frame, at, icao);
        }
      case None =>
        OthersKeepEntry(m, before.state, before.clock, frame, at, icao);
    }
  }
}
