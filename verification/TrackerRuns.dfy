/**
 What holds of the tracker over every run whose clock never goes back: the shape of the table,
 exact eviction, whose address a reply resolves to, the life of each address in the event log,
 and the counters.
 */
module TrackerRuns {
  import opened Wrappers
  import opened Gf2
  import opened BitValue
  import opened Cpr
  import opened Crc24Register
  import opened Crc24
  import opened Crc24Errors
  import opened Downlink
  import opened Messages
  import opened Tracker

  // --- The shape of the table ---------------------------------------------------------------

  predicate Unique(t: Table) {
    forall i, j :: 0 <= i < j < |t| ==> t[i].icao != t[j].icao
  }

  /** Least recently seen first. */
  predicate Sorted(t: Table) {
    forall i, j :: 0 <= i < j < |t| ==> t[i].lastSeen <= t[j].lastSeen
  }

  predicate SeenBy(t: Table, now: Instant) {
    forall i :: 0 <= i < |t| ==> t[i].lastSeen <= now
  }

  predicate CountersAddUp(c: Counters) {
    c.messagesTotal == c.crcClean + c.crcCorrected + c.crcAddressRecovered
  }

  predicate AllAddUp(t: Table) {
    forall i :: 0 <= i < |t| ==> CountersAddUp(t[i].counters)
  }

  function RoomFor(capacity: nat): nat {
    if capacity == 0 then 1 else capacity
  }

  predicate Inv(s: State, now: Instant) {
    Unique(s.table) && Sorted(s.table) && SeenBy(s.table, now) && AllAddUp(s.table) && |s.table| <= RoomFor(s.capacity)
  }

  // --- Eviction ------------------------------------------------------------------------------

  function LostOf(t: Table): (events: seq<StateEvent>)
    ensures |events| == |t|
  {
    seq(|t|, i requires 0 <= i < |t| => Lost(t[i].icao))
  }

  /** Last heard more than 300 seconds ago. */
  predicate UnheardFor300s(a: Aircraft, now: Instant) {
    now > a.lastSeen + 300_000_000_000
  }

  /** Last heard less than 60 seconds ago. */
  predicate HeardWithin60s(a: Aircraft, at: Instant) {
    at < a.lastSeen + 60_000_000_000
  }

  /** On a sorted table, `evict_stale` removes exactly the aircraft not heard for 300 s, oldest first. */
  lemma {:induction false} EvictStaleExact(t: Table, now: Instant) returns (k: nat)
    requires Sorted(t)
    ensures k <= |t| && EvictStale(t, now).0 == t[k..] && EvictStale(t, now).1 == LostOf(t[..k])
    ensures forall i :: 0 <= i < |t| ==> (UnheardFor300s(t[i], now) <==> i < k)
  {
    if |t| == 0 || !IsStale(t[0], now) {
      k := 0;
      forall i | 0 <= i < |t|
        ensures !UnheardFor300s(t[i], now)
      {
        assert i > 0 ==> t[0].lastSeen <= t[i].lastSeen;
      }
    } else {
      var rest := EvictStaleExact(t[1..], now);
      k := rest + 1;
      assert t[1..][rest..] == t[k..];
      assert LostOf(t[..k]) == [Lost(t[0].icao)] + LostOf(t[1..][..rest]);
      assert forall i :: 0 < i < |t| ==> t[i] == t[1..][i - 1];
    }
  }

  /** How many entries making room takes from the front of a sorted table. */
  ghost predicate MakesRoom(t: Table, capacity: nat, now: Instant, k: nat) {
    && k <= |t|
    && forall i :: 0 <= i < |t| ==> (i < k <==> |t| >= capacity && (i == 0 || UnheardFor300s(t[i], now)))
  }

  /**
   Below capacity nothing goes. At capacity, on a sorted table, the oldest entry goes and with it
   exactly the stale ones among the rest, oldest first.
   */
  lemma EvictIfNeededDrops(t: Table, capacity: nat, now: Instant) returns (k: nat)
    requires Sorted(t)
    ensures MakesRoom(t, capacity, now, k)
    ensures EvictIfNeeded(t, capacity, now).0 == t[k..] && EvictIfNeeded(t, capacity, now).1 == LostOf(t[..k])
  {
    if |t| < capacity || |t| == 0 {
      k := 0;
    } else {
      var rest := EvictStaleExact(t[1..], now);
      k := rest + 1;
      assert t[1..][rest..] == t[k..];
      assert LostOf(t[..k]) == [Lost(t[0].icao)] + LostOf(t[1..][..rest]);
      assert forall i :: 0 < i < |t| ==> t[i] == t[1..][i - 1];
    }
  }

  lemma DropKeepsShape(t: Table, k: nat)
    requires k <= |t|
    ensures Unique(t) ==> Unique(t[k..])
    ensures Sorted(t) ==> Sorted(t[k..])
    ensures AllAddUp(t) ==> AllAddUp(t[k..])
    ensures forall now :: SeenBy(t, now) ==> SeenBy(t[k..], now)
  {
  }

  // --- Whose frame? --------------------------------------------------------------------------

  /** The entry of an address is in the table and was heard within the last 60 s. */
  predicate HeardRecently(t: Table, icao: Icao, at: Instant) {
    exists i :: 0 <= i < |t| && t[i].icao == icao && HeardWithin60s(t[i], at)
  }

  lemma KeysAreDistinct(a: Icao, b: Icao)
    requires AddressKey(a) == AddressKey(b)
    ensures a == b
  {
    hide Value, BitsOf, FrameBits;
    IcaoRegister(a);
    IcaoRegister(b);
    AddressFromSyndrome(FrameBits(IcaoBytes(a)), FrameBits(IcaoBytes(b)));
    IcaoBytesInverse(a, IcaoBytes(a));
    IcaoBytesInverse(b, IcaoBytes(b));
  }

  /** The three bytes of an address are those of its 24 bits. */
  lemma IcaoRegister(a: Icao)
    ensures WordBytes(FrameBits(IcaoBytes(a))) == IcaoBytes(a)
  {
    hide Value, BitsOf;
    WordBytesBits(FrameBits(IcaoBytes(a)));
    FrameBitsInjective(WordBytes(FrameBits(IcaoBytes(a))), IcaoBytes(a));
  }

  /**
   The scan that stops at the first inactive entry finds what a scan of all active aircraft
   would: it names an address exactly when that address is active and has this syndrome.
   */
  lemma {:induction false} ScanBackIsComplete(t: Table, syndrome: Register, at: Instant, icao: Icao)
    requires Sorted(t)
    ensures ScanBack(t, syndrome, at) == Some(icao) <==>
            HeardRecently(t, icao, at) && AddressKey(icao) == syndrome
  {
    hide AddressKey;
    if |t| > 0 {
      var n := |t| - 1;
      var a := t[n];
      if !IsActive(a, at) {
        assert forall i :: 0 <= i < n ==> t[i].lastSeen <= a.lastSeen;
      } else if AddressKey(a.icao) == syndrome {
        if AddressKey(icao) == syndrome {
          KeysAreDistinct(icao, a.icao);
        }
      } else {
        ScanBackIsComplete(t[..n], syndrome, at, icao);
        if AddressKey(icao) == syndrome {
          HeardInPrefix(t, icao, at, syndrome);
        }
      }
    }
  }

  lemma HeardInPrefix(t: Table, icao: Icao, at: Instant, syndrome: Register)
    requires |t| > 0 && AddressKey(t[|t| - 1].icao) != syndrome && AddressKey(icao) == syndrome
    ensures HeardRecently(t, icao, at) <==> HeardRecently(t[..|t| - 1], icao, at)
  {
    hide AddressKey, HeardWithin60s;
    var n := |t| - 1;
    if HeardRecently(t, icao, at) {
      var i :| 0 <= i < |t| && t[i].icao == icao && HeardWithin60s(t[i], at);
      assert i < n;
      assert t[..n][i] == t[i];
    }
    if HeardRecently(t[..n], icao, at) {
      var i :| 0 <= i < n && t[..n][i].icao == icao && HeardWithin60s(t[..n][i], at);
      assert t[i] == t[..n][i];
    }
  }

  /**
   A reply whose parity was XORed with a nonzero address resolves to that address if it was heard
   within the last 60 s, and to nobody otherwise.
   */
  lemma ReplyResolvesToItsSender(t: Table, frame: Frame, at: Instant, data: seq<byte>, sender: Icao)
    requires Sorted(t) && frame.crc.Failed? && IsFrame(frame.bytes) && sender != 0
    requires frame.bytes == data + WordBytes(Xor(Crc(data), FrameBits(IcaoBytes(sender))))
    ensures ResolveIcao(t, frame, at) ==
            if HeardRecently(t, sender, at) then Some(Resolved(sender, None)) else None
  {
    hide Value, BitsOf, FrameBits, Crc, HeardRecently, ScanBack, WordBytes;
    var key := AddressKey(sender);
    AddressSyndrome(data, FrameBits(IcaoBytes(sender)));
    IcaoRegister(sender);
    assert Crc(frame.bytes) == key;
    NonzeroKey(sender);
    ScanBackIsComplete(t, key, at, sender);
    match ScanBack(t, key, at)
    case None =>
    case Some(other) =>
      ScanBackIsComplete(t, key, at, other);
      KeysAreDistinct(other, sender);
  }

  /**
   A frame with a failed parity is of the aircraft heard within the last 60 s whose address has its
   syndrome for a checksum: if it has 7 or 14 bytes and a syndrome other than zero, and else of nobody.
   */
  lemma FailedResolvesIff(t: Table, frame: Frame, at: Instant, icao: Icao)
    requires Sorted(t) && frame.crc.Failed?
    ensures ResolveIcao(t, frame, at) == Some(Resolved(icao, None)) <==>
            && |frame.bytes| in {7, 14} && Crc(frame.bytes) != ZERO
            && HeardRecently(t, icao, at) && AddressKey(icao) == Crc(frame.bytes)
    ensures ResolveIcao(t, frame, at).Some? ==> ResolveIcao(t, frame, at).value.message.None?
  {
    hide Crc, HeardRecently, ScanBack, AddressKey;
    ScanBackIsComplete(t, Crc(frame.bytes), at, icao);
  }

  lemma NonzeroKey(sender: Icao)
    requires sender != 0
    ensures AddressKey(sender) != ZERO
  {
    hide FrameBits, Crc, Value, BitsOf;
    IcaoRegister(sender);
    ZeroSyndromeIsZeroAddress(FrameBits(IcaoBytes(sender)));
    IcaoBytesInverse(sender, IcaoBytes(sender));
    ValueOfZeros(24);
  }

  // --- What one frame changes ----------------------------------------------------------------

  /** Not about which aircraft are tracked, and not an orphan. */
  predicate IsQuiet(e: StateEvent) {
    !e.Acquired? && !e.Lost? && !e.Orphan?
  }

  predicate AllQuiet(events: seq<StateEvent>) {
    forall k :: 0 <= k < |events| ==> IsQuiet(events[k])
  }

  function CountedBy(c: Counters, crc: CrcOutcome): Counters {
    var d := c.(messagesTotal := c.messagesTotal + 1);
    match crc
    case Clean => d.(crcClean := c.crcClean + 1)
    case Corrected(_) => d.(crcCorrected := c.crcCorrected + 1)
    case Failed => d.(crcAddressRecovered := c.crcAddressRecovered + 1)
  }

  lemma ApplyKeepsIdentity(a: Aircraft, m: Message, at: Instant, reference: Option<LatLon>)
    ensures var u := ApplyMessage(a, m, at, reference);
            && u.aircraft.icao == a.icao && u.aircraft.lastSeen == a.lastSeen
            && u.aircraft.counters == a.counters && AllQuiet(u.events)
  {
    hide GlobalDecode, LocalDecode, LocalDecodeSurface;
  }

  /** The frame's aircraft keeps its address, is seen now, and has this one frame counted. */
  lemma UpdateKeepsIdentity(a: Aircraft, frame: Frame, m: Option<Message>, at: Instant, reference: Option<LatLon>)
    ensures var u := Update(a, frame, m, at, reference);
            && u.aircraft.icao == a.icao && u.aircraft.lastSeen == at
            && u.aircraft.counters == CountedBy(a.counters, frame.crc) && AllQuiet(u.events)
  {
    hide ApplyMessage;
    if m.Some? {
      ApplyKeepsIdentity(CountFrame(a, frame, at).aircraft, m.value, at, reference);
    }
  }

  /** The table once the aircraft at place `k` has been moved to the back and replaced by `a`. */
  function MovedToBack(t: Table, k: nat, a: Aircraft): Table
    requires k < |t|
  {
    t[..k] + t[k + 1..] + [a]
  }

  /** How an ingest came out. */
  datatype Outcome =
    | Orphaned
    | Known(at: nat, now: Aircraft, events: seq<StateEvent>)
    | New(dropped: nat, now: Aircraft, events: seq<StateEvent>)

  /** The frame is of the aircraft `icao`. */
  predicate IsOf(t: Table, frame: Frame, at: Instant, icao: Icao) {
    ResolveIcao(t, frame, at).Some? && ResolveIcao(t, frame, at).value.icao == icao
  }

  ghost predicate Comes(s: State, frame: Frame, at: Instant, o: Outcome) {
    var (after, events) := Ingest(s, frame, at);
    var t := s.table;
    match o
    case Orphaned => ResolveIcao(t, frame, at).None? && after == s && events == [Orphan(frame.df)]
    case Known(k, a, quiet) =>
      && IsOf(t, frame, at, a.icao) && k < |t| && t[k].icao == a.icao
      && a.lastSeen == at && a.counters == CountedBy(t[k].counters, frame.crc)
      && after == s.(table := MovedToBack(t, k, a)) && events == quiet && AllQuiet(quiet)
    case New(k, a, quiet) =>
      && IsOf(t, frame, at, a.icao) && !Has(t, a.icao) && MakesRoom(t, s.capacity, at, k)
      && a.lastSeen == at && a.counters == CountedBy(ZERO_COUNTERS, frame.crc) && !frame.crc.Failed?
      && after == s.(table := t[k..] + [a]) && events == LostOf(t[..k]) + [Acquired(a.icao)] + quiet && AllQuiet(quiet)
  }

  /**
   Every ingest either changes nothing and emits one Orphan, or counts the frame once, for a
   known aircraft that moves to the back or for a new one that is acquired; only a frame with
   a clean or corrected parity acquires an aircraft.
   */
  lemma IngestOutcome(s: State, frame: Frame, at: Instant) returns (o: Outcome)
    requires Sorted(s.table)
    ensures Comes(s, frame, at, o)
  {
    hide ApplyMessage, CountFrame, EvictIfNeeded, ResolveIcao;
    match ResolveIcao(s.table, frame, at)
    case None =>
      o := Orphaned;
    case Some(r) =>
      var t := s.table;
      var (touched, _) := Touch(s, r.icao, at);
      var n := |touched| - 1;
      var u := Update(touched[n], frame, r.message, at, s.reference);
      UpdateKeepsIdentity(touched[n], frame, r.message, at, s.reference);
      hide Update;
      if Has(t, r.icao) {
        var k := IndexOf(t, r.icao);
        o := Known(k, u.aircraft, u.events);
        assert touched[..n] == t[..k] + t[k + 1..];
        assert [] + u.events == u.events;
      } else {
        var k := EvictIfNeededDrops(t, s.capacity, at);
        o := New(k, u.aircraft, u.events);
        assert touched[..n] == t[k..];
        if frame.crc.Failed? {
          FailedIsKnown(t, frame, at);
        }
      }
  }

  /** The message of a resolved frame is of the aircraft it resolves to. */
  lemma ResolvedIcao(t: Table, frame: Frame, at: Instant)
    requires ResolveIcao(t, frame, at).Some?
    ensures var r := ResolveIcao(t, frame, at).value; r.message.Some? ==> IcaoOf(r.message.value) == Some(r.icao)
  {
    hide Decode, ScanBack, Crc;
  }

  /** Address recovery only ever names an aircraft that is already in the table. */
  lemma FailedIsKnown(t: Table, frame: Frame, at: Instant)
    requires ResolveIcao(t, frame, at).Some? && frame.crc.Failed?
    ensures Has(t, ResolveIcao(t, frame, at).value.icao)
  {
    hide Crc;
    ScanBackIsKnown(t, Crc(frame.bytes), at);
  }

  lemma {:induction false} ScanBackIsKnown(t: Table, syndrome: Register, at: Instant)
    ensures ScanBack(t, syndrome, at).Some? ==> Has(t, ScanBack(t, syndrome, at).value)
  {
    hide AddressKey;
    if |t| > 0 {
      var n := |t| - 1;
      ScanBackIsKnown(t[..n], syndrome, at);
      assert forall i :: 0 <= i < n ==> t[i] == t[..n][i];
      assert t[n].icao == t[n].icao;
    }
  }

  lemma MoveKeepsShape(t: Table, k: nat, a: Aircraft, at: Instant)
    requires Unique(t) && Sorted(t) && SeenBy(t, at) && AllAddUp(t)
    requires k < |t| && t[k].icao == a.icao && a.lastSeen == at && CountersAddUp(a.counters)
    ensures var u := MovedToBack(t, k, a); Unique(u) && Sorted(u) && SeenBy(u, at) && AllAddUp(u) && |u| == |t|
  {
    var u := MovedToBack(t, k, a);
    assert forall i :: 0 <= i < k ==> u[i] == t[i];
    assert forall i :: k <= i < |t| - 1 ==> u[i] == t[i + 1];
  }

  lemma AppendKeepsShape(t: Table, a: Aircraft, at: Instant)
    requires Unique(t) && Sorted(t) && SeenBy(t, at) && AllAddUp(t)
    requires !Has(t, a.icao) && a.lastSeen == at && CountersAddUp(a.counters)
    ensures var u := t + [a]; Unique(u) && Sorted(u) && SeenBy(u, at) && AllAddUp(u)
  {
  }

  lemma DroppedIsNotHere(t: Table, k: nat, icao: Icao)
    requires k <= |t| && !Has(t, icao)
    ensures !Has(t[k..], icao)
  {
  }

  /** Once room is made one more aircraft fits. */
  lemma OneMoreFits(t: Table, capacity: nat, now: Instant, k: nat)
    requires MakesRoom(t, capacity, now, k) && |t| <= RoomFor(capacity)
    ensures k <= |t| && |t| - k + 1 <= RoomFor(capacity)
  {
    if |t| > 0 {
      var oldest := t[0];
      assert 0 < k <==> |t| >= capacity;
    }
  }

  lemma IngestKeepsInv(s: State, now: Instant, frame: Frame, at: Instant)
    requires Inv(s, now) && now <= at
    ensures Inv(Ingest(s, frame, at).0, at)
  {
    assert SeenBy(s.table, at);
    var o := IngestOutcome(s, frame, at);
    hide Ingest, IsOf, ResolveIcao, MakesRoom, LostOf;
    match o
    case Orphaned =>
    case Known(k, a, _) =>
      assert CountersAddUp(s.table[k].counters);
      MoveKeepsShape(s.table, k, a, at);
    case New(k, a, _) =>
      OneMoreFits(s.table, s.capacity, at, k);
      DropKeepsShape(s.table, k);
      DroppedIsNotHere(s.table, k, a.icao);
      AppendKeepsShape(s.table[k..], a, at);
  }

  // --- The life of an address ------------------------------------------------------------------

  type Log = seq<StateEvent>

  /** Whether the last Acquired or Lost for this address was an Acquired. */
  predicate IsTracked(log: Log, icao: Icao) {
    |log| > 0 &&
    match log[|log| - 1]
    case Acquired(a) => a == icao || IsTracked(log[..|log| - 1], icao)
    case Lost(a) => a != icao && IsTracked(log[..|log| - 1], icao)
    case _ => IsTracked(log[..|log| - 1], icao)
  }

  /** Acquired and Lost for this address alternate, beginning with Acquired. */
  predicate Alternates(log: Log, icao: Icao) {
    |log| > 0 ==>
      var before, last := log[..|log| - 1], log[|log| - 1];
      && Alternates(before, icao)
      && (last == Acquired(icao) ==> !IsTracked(before, icao))
      && (last == Lost(icao) ==> IsTracked(before, icao))
  }

  /** Acquisitions minus losses. */
  function Balance(log: Log): int {
    if |log| == 0 then 0
    else Balance(log[..|log| - 1]) + match log[|log| - 1] case Acquired(_) => 1 case Lost(_) => -1 case _ => 0
  }

  /** The log tells the truth about one address and about the number of aircraft. */
  predicate LogMatches(log: Log, t: Table, icao: Icao) {
    Alternates(log, icao) && (IsTracked(log, icao) <==> Has(t, icao)) && Balance(log) == |t|
  }

  lemma LogSnoc(log: Log, e: StateEvent, icao: Icao)
    ensures Balance(log + [e]) == Balance(log) + match e case Acquired(_) => 1 case Lost(_) => -1 case _ => 0
    ensures IsTracked(log + [e], icao) <==>
            match e case Acquired(a) => a == icao || IsTracked(log, icao)
                    case Lost(a) => a != icao && IsTracked(log, icao)
                    case _ => IsTracked(log, icao)
    ensures Alternates(log + [e], icao) <==>
            && Alternates(log, icao)
            && (e == Acquired(icao) ==> !IsTracked(log, icao))
            && (e == Lost(icao) ==> IsTracked(log, icao))
  {
    assert (log + [e])[..|log|] == log;
  }

  lemma {:induction false} QuietKeepsLog(log: Log, events: Log, icao: Icao)
    requires forall k :: 0 <= k < |events| ==> !events[k].Acquired? && !events[k].Lost?
    ensures Alternates(log + events, icao) == Alternates(log, icao)
    ensures IsTracked(log + events, icao) == IsTracked(log, icao)
    ensures Balance(log + events) == Balance(log)
  {
    if |events| == 0 {
      assert log + events == log;
    } else {
      var init, last := events[..|events| - 1], events[|events| - 1];
      QuietKeepsLog(log, init, icao);
      LogSnoc(log + init, last, icao);
      assert log + events == (log + init) + [last];
    }
  }

  lemma LostOne(log: Log, t: Table, icao: Icao)
    requires |t| > 0 && Unique(t) && LogMatches(log, t, icao)
    ensures LogMatches(log + [Lost(t[0].icao)], t[1..], icao)
  {
    LogSnoc(log, Lost(t[0].icao), icao);
    FirstLeaves(t, icao);
    assert t[0].icao == icao ==> Has(t, icao);
    hide Alternates, IsTracked, Balance, Has;
  }

  /** Dropping a prefix of the table, with its Lost events, keeps the log true. */
  lemma {:induction false} LostKeepsLog(log: Log, t: Table, k: nat, icao: Icao)
    requires k <= |t| && Unique(t) && LogMatches(log, t, icao)
    ensures LogMatches(log + LostOf(t[..k]), t[k..], icao)
  {
    hide LogMatches;
    if k == 0 {
      assert log + LostOf(t[..0]) == log && t[0..] == t;
    } else {
      LostKeepsLog(log, t, k - 1, icao);
      DropKeepsShape(t, k - 1);
      LostOne(log + LostOf(t[..k - 1]), t[k - 1..], icao);
      LostSnoc(log, t, k);
      assert t[k - 1..][1..] == t[k..];
    }
  }

  lemma LostSnoc(log: Log, t: Table, k: nat)
    requires 0 < k <= |t|
    ensures log + LostOf(t[..k - 1]) + [Lost(t[k - 1..][0].icao)] == log + LostOf(t[..k])
  {
  }

  lemma FirstLeaves(t: Table, icao: Icao)
    requires |t| > 0 && (forall i :: 0 < i < |t| ==> t[i].icao != t[0].icao)
    ensures Has(t[1..], icao) <==> Has(t, icao) && t[0].icao != icao
  {
    if Has(t, icao) && t[0].icao != icao {
      HasInRest(t, icao);
    }
    if Has(t[1..], icao) {
      var i :| 0 <= i < |t[1..]| && t[1..][i].icao == icao;
      assert t[i + 1].icao == icao;
    }
  }

  lemma HasAppended(t: Table, a: Aircraft, icao: Icao)
    ensures Has(t + [a], icao) <==> Has(t, icao) || a.icao == icao
  {
    var u := t + [a];
    assert u[|t|] == a;
    if Has(t, icao) {
      var i :| 0 <= i < |t| && t[i].icao == icao;
      assert u[i].icao == icao;
    }
  }

  lemma HasMoved(t: Table, k: nat, a: Aircraft, icao: Icao)
    requires k < |t| && t[k].icao == a.icao
    ensures Has(MovedToBack(t, k, a), icao) <==> Has(t, icao)
  {
    var u := MovedToBack(t, k, a);
    assert u[|t| - 1] == a;
    if Has(t, icao) {
      var i :| 0 <= i < |t| && t[i].icao == icao;
      assert u[if i < k then i else if i == k then |t| - 1 else i - 1].icao == icao;
    }
    if Has(u, icao) {
      var i :| 0 <= i < |u| && u[i].icao == icao;
      assert t[if i < k then i else if i == |t| - 1 then k else i + 1].icao == icao;
    }
  }

  lemma NewKeepsLog(log: Log, t: Table, k: nat, a: Aircraft, quiet: Log, icao: Icao)
    requires k <= |t| && Unique(t) && LogMatches(log, t, icao) && !Has(t, a.icao) && AllQuiet(quiet)
    ensures LogMatches(log + (LostOf(t[..k]) + [Acquired(a.icao)] + quiet), t[k..] + [a], icao)
  {
    hide Alternates, IsTracked, Balance, Has;
    DroppedIsNotHere(t, k, a.icao);
    LostKeepsLog(log, t, k, icao);
    var lost := log + LostOf(t[..k]);
    LogSnoc(lost, Acquired(a.icao), icao);
    HasAppended(t[k..], a, icao);
    QuietKeepsLog(lost + [Acquired(a.icao)], quiet, icao);
    assert log + (LostOf(t[..k]) + [Acquired(a.icao)] + quiet) == (lost + [Acquired(a.icao)]) + quiet;
  }

  lemma MoveKeepsLog(log: Log, t: Table, k: nat, a: Aircraft, quiet: Log, icao: Icao)
    requires k < |t| && t[k].icao == a.icao && LogMatches(log, t, icao) && AllQuiet(quiet)
    ensures LogMatches(log + quiet, MovedToBack(t, k, a), icao)
  {
    hide Alternates, IsTracked, Balance, Has;
    QuietKeepsLog(log, quiet, icao);
    HasMoved(t, k, a, icao);
  }

  lemma IngestKeepsLog(s: State, now: Instant, frame: Frame, at: Instant, log: Log, icao: Icao)
    requires Inv(s, now) && now <= at && LogMatches(log, s.table, icao)
    ensures LogMatches(log + Ingest(s, frame, at).1, Ingest(s, frame, at).0.table, icao)
  {
    var o := IngestOutcome(s, frame, at);
    hide Ingest, Alternates, IsTracked, Balance, Has;
    match o
    case Orphaned =>
      QuietKeepsLog(log, [Orphan(frame.df)], icao);
    case Known(k, a, quiet) =>
      MoveKeepsLog(log, s.table, k, a, quiet, icao);
    case New(k, a, quiet) =>
      NewKeepsLog(log, s.table, k, a, quiet, icao);
  }

  // --- Whole runs --------------------------------------------------------------------------------

  /** What can happen to a tracker: a frame, or the timer that evicts stale aircraft. */
  datatype Step = Receive(frame: Frame, at: Instant) | Timer(at: Instant)

  function Do(s: State, step: Step): (State, Log) {
    match step
    case Receive(frame, at) => Ingest(s, frame, at)
    case Timer(at) =>
      var (t, events) := EvictStale(s.table, at);
      (s.(table := t), events)
  }

  datatype Run = Run(state: State, log: Log, clock: Instant)

  function RunOf(capacity: nat, reference: Option<LatLon>, steps: seq<Step>): Run {
    if |steps| == 0 then Run(State([], capacity, reference), [], 0)
    else
      var before := RunOf(capacity, reference, steps[..|steps| - 1]);
      var last := steps[|steps| - 1];
      var (s, events) := Do(before.state, last);
      Run(s, before.log + events, last.at)
  }

  predicate ClockNeverGoesBack(steps: seq<Step>) {
    forall i, j :: 0 <= i < j < |steps| ==> steps[i].at <= steps[j].at
  }

  lemma StepKeeps(s: State, now: Instant, step: Step, log: Log, icao: Icao)
    requires Inv(s, now) && now <= step.at && LogMatches(log, s.table, icao)
    ensures Inv(Do(s, step).0, step.at) && LogMatches(log + Do(s, step).1, Do(s, step).0.table, icao)
    ensures Do(s, step).0.capacity == s.capacity && Do(s, step).0.reference == s.reference
  {
    hide Ingest, LogMatches, Has;
    match step
    case Receive(frame, at) =>
      IngestKeepsInv(s, now, frame, at);
      IngestKeepsLog(s, now, frame, at, log, icao);
      KeepsSettings(s, frame, at);
    case Timer(at) =>
      var k := EvictStaleExact(s.table, at);
      DropKeepsShape(s.table, k);
      assert SeenBy(s.table, at);
      LostKeepsLog(log, s.table, k, icao);
  }

  lemma KeepsSettings(s: State, frame: Frame, at: Instant)
    ensures Ingest(s, frame, at).0.capacity == s.capacity && Ingest(s, frame, at).0.reference == s.reference
  {
    hide ResolveIcao, Touch, Update;
  }

  /**
   After every run whose clock never goes back: no duplicate address, the table ordered by
   last_seen and within capacity, counters that add up; and for every address, Acquired and Lost
   alternate, the last of them tells whether the aircraft is in the table, and the table size is
   acquisitions minus losses.
   */
  lemma {:induction false} EveryRun(capacity: nat, reference: Option<LatLon>, steps: seq<Step>, icao: Icao)
    requires ClockNeverGoesBack(steps)
    ensures var r := RunOf(capacity, reference, steps);
            && r.state.capacity == capacity && r.state.reference == reference
            && Inv(r.state, r.clock) && LogMatches(r.log, r.state.table, icao)
            && (|steps| > 0 ==> r.clock == steps[|steps| - 1].at) && (|steps| == 0 ==> r.clock == 0)
  {
    if |steps| > 0 {
      var n := |steps| - 1;
      EveryRun(capacity, reference, steps[..n], icao);
      var before := RunOf(capacity, reference, steps[..n]);
      hide Do, Inv, LogMatches;
      StepKeeps(before.state, before.clock, steps[n], before.log, icao);
    }
  }

  /** The frame is of an aircraft that is not in the table. */
  predicate IsOfNewAircraft(t: Table, frame: Frame, at: Instant) {
    match ResolveIcao(t, frame, at)
    case None => false
    case Some(r) => !Has(t, r.icao)
  }

  lemma LostAmong(t: Table, k: nat, acquired: Icao, quiet: Log, icao: Icao)
    requires k <= |t| && AllQuiet(quiet)
    ensures Lost(icao) in LostOf(t[..k]) + [Acquired(acquired)] + quiet <==>
            exists i :: 0 <= i < k && t[i].icao == icao
  {
    var events := LostOf(t[..k]) + [Acquired(acquired)] + quiet;
    if e :| 0 <= e < |events| && events[e] == Lost(icao) {
      assert e < k;
      assert t[e].icao == icao;
    }
    if i :| 0 <= i < k && t[i].icao == icao {
      assert events[i] == Lost(icao);
    }
  }

  /**
   An ingest loses an aircraft exactly when it is a frame of a new aircraft and the table is full:
   then the oldest goes, and exactly the stale ones of the rest.
   */
  lemma IngestLosesIff(s: State, frame: Frame, at: Instant, icao: Icao)
    requires Sorted(s.table)
    ensures Lost(icao) in Ingest(s, frame, at).1 <==>
            && IsOfNewAircraft(s.table, frame, at) && |s.table| >= s.capacity
            && exists i :: 0 <= i < |s.table| && s.table[i].icao == icao && (i == 0 || UnheardFor300s(s.table[i], at))
  {
    var o := IngestOutcome(s, frame, at);
    hide Ingest, ResolveIcao, UnheardFor300s, LostOf;
    if o.New? {
      LostAmong(s.table, o.dropped, o.now.icao, o.events, icao);
    }
  }

  /** In particular some aircraft is lost exactly when a new one meets a full table that is not empty. */
  lemma IngestLosesSomeIff(s: State, frame: Frame, at: Instant)
    requires Sorted(s.table)
    ensures (exists icao: Icao :: Lost(icao) in Ingest(s, frame, at).1) <==>
            IsOfNewAircraft(s.table, frame, at) && |s.table| >= s.capacity && |s.table| > 0
  {
    hide Ingest, IsOfNewAircraft, UnheardFor300s;
    if icao: Icao :| Lost(icao) in Ingest(s, frame, at).1 {
      IngestLosesIff(s, frame, at, icao);
    }
    if |s.table| > 0 {
      IngestLosesIff(s, frame, at, s.table[0].icao);
    }
  }
}
