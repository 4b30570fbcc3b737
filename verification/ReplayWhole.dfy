/**
 Exactly-once delivery. Across any number of reconnects, and from any stored id, a client whose
 filter looks only at the event receives exactly the passing events after its starting point, in
 order, as long as neither its receiver nor its stored id falls so far behind that a passing event
 is skipped.
 */
module ReplayWhole {
  import opened Wrappers
  import opened Replay
  import Tracker

  type Filter = Tracker.StateEvent -> bool

  /** The filter of a client that asks for everything. */
  function Everything(): Filter {
    _ => true
  }

  /** The ids of a client's stream so far: received, then on the wire. */
  function Ids(c: Client): seq<nat> {
    c.received + Wire(c)
  }

  // --- The events that pass a filter ----------------------------------------------------------

  /** An event with this id has been pushed, and the filter lets it pass. */
  predicate Passes(pushed: seq<Envelope>, f: Filter, id: int) {
    1 <= id <= |pushed| && f(pushed[id - 1].event)
  }

  predicate NonePass(pushed: seq<Envelope>, f: Filter, from: int, to: int) {
    forall id :: from < id <= to ==> !Passes(pushed, f, id)
  }

  /** The ids after `from` up to `to` that pass, in order. */
  function Passing(pushed: seq<Envelope>, f: Filter, from: nat, to: nat): seq<nat> {
    if to <= from then []
    else
      var before := Passing(pushed, f, from, to - 1);
      if Passes(pushed, f, to) then before + [to] else before
  }

  lemma {:induction false} PassingMember(pushed: seq<Envelope>, f: Filter, from: nat, to: nat, id: nat)
    ensures id in Passing(pushed, f, from, to) <==> from < id <= to && Passes(pushed, f, id)
  {
    if to > from {
      PassingMember(pushed, f, from, to - 1, id);
    }
  }

  /** A stretch in which nothing passes adds nothing. */
  lemma {:induction false} PassingSkips(pushed: seq<Envelope>, f: Filter, from: nat, mid: nat, to: nat)
    requires from <= mid <= to && NonePass(pushed, f, mid, to)
    ensures Passing(pushed, f, from, to) == Passing(pushed, f, from, mid)
  {
    if mid < to {
      PassingSkips(pushed, f, from, mid, to - 1);
    }
  }

  lemma {:induction false} PassingGrows(pushed: seq<Envelope>, more: seq<Envelope>, f: Filter, from: nat, to: nat)
    requires to <= |pushed| || to <= from
    ensures Passing(pushed + more, f, from, to) == Passing(pushed, f, from, to)
  {
    if to > from {
      PassingGrows(pushed, more, f, from, to - 1);
    }
  }

  /** What has been received so far is what passes up to the last id received. */
  lemma {:induction false} PassingPrefix(pushed: seq<Envelope>, f: Filter, from: nat, to: nat, k: nat)
    requires 0 < k <= |Passing(pushed, f, from, to)|
    ensures var ids := Passing(pushed, f, from, to);
            from < ids[k - 1] <= to && Passes(pushed, f, ids[k - 1]) && ids[..k] == Passing(pushed, f, from, ids[k - 1])
  {
    var ids, before := Passing(pushed, f, from, to), Passing(pushed, f, from, to - 1);
    if k <= |before| {
      PassingPrefix(pushed, f, from, to - 1, k);
      assert ids[..k] == before[..k];
    } else {
      assert ids[..k] == ids;
    }
  }

  predicate Consecutive(ids: seq<nat>, base: nat) {
    forall i :: 0 <= i < |ids| ==> ids[i] == base + 1 + i
  }

  lemma {:induction false} EverythingIsConsecutive(pushed: seq<Envelope>, from: nat, to: nat)
    requires to <= |pushed| || to <= from
    ensures Consecutive(Passing(pushed, Everything(), from, to), from)
    ensures |Passing(pushed, Everything(), from, to)| == if to <= from then 0 else to - from
  {
    if to > from {
      EverythingIsConsecutive(pushed, from, to - 1);
    }
  }

  // --- What is still to come ------------------------------------------------------------------

  /** Up to where a stream that began after `base` has been worked through. */
  function Reached(base: nat, maxEmitted: nat): nat {
    if maxEmitted >= base then maxEmitted else base
  }

  /** The replay prefix is a stretch of what was pushed, beyond `reached` and up to beyond the live cursor. */
  predicate PrefixIs(s: Server, prefix: seq<Envelope>, reached: nat, cursor: nat)
    requires |prefix| > 0
  {
    var first := prefix[0].id;
    && reached < first && first - 1 + |prefix| <= |s.pushed| && cursor <= first - 1 + |prefix|
    && prefix == s.pushed[first - 1..first - 1 + |prefix|]
  }

  /** Every passing event after `reached` is in the replay prefix or still ahead in the live log. */
  predicate NothingSkipped(s: Server, f: Filter, prefix: seq<Envelope>, reached: nat, cursor: nat) {
    if prefix == [] then NonePass(s.pushed, f, reached, cursor)
    else PrefixIs(s, prefix, reached, cursor) && NonePass(s.pushed, f, reached, prefix[0].id - 1)
  }

  /** The ids of a stream up to `reached` are those that pass. */
  predicate Exact(s: Server, f: Filter, ids: seq<nat>, base: nat, reached: nat) {
    base <= reached && (reached <= |s.pushed| || reached == base) && ids == Passing(s.pushed, f, base, reached)
  }

  predicate StreamIsWhole(s: Server, f: Filter, ids: seq<nat>, base: nat, prefix: seq<Envelope>, cursor: nat,
                          maxEmitted: nat) {
    && cursor <= |s.log| && Exact(s, f, ids, base, Reached(base, maxEmitted))
    && NothingSkipped(s, f, prefix, Reached(base, maxEmitted), cursor)
    && (maxEmitted < base ==> prefix == [] && base <= cursor)
  }

  predicate WholeSoFar(s: Server, c: Client, f: Filter) {
    && (c.lastEventId.Some? ==> Exact(s, f, c.received, c.base, c.lastEventId.value))
    && (c.lastEventId.None? ==> c.received == [])
    && match c.connection
       case Off => true
       case Subscribed(cursor) => cursor <= |s.log| && (c.lastEventId.None? ==> cursor == c.base)
       case Streaming(prefix, cursor, maxEmitted, _) => StreamIsWhole(s, f, Ids(c), c.base, prefix, cursor, maxEmitted)
  }

  // --- What makes a client miss an event -------------------------------------------------------

  /** The event that the next poll puts through the filters. */
  function Offered(s: Server, c: Client): Option<Envelope> {
    if !c.connection.Streaming? || IsLagging(s, c) then None
    else
      var k := c.connection;
      if |k.prefix| > 0 then if k.prefix[0].id > k.maxEmitted then Some(k.prefix[0]) else None
      else if k.cursor < |s.log| && s.log[k.cursor].id > k.maxEmitted then Some(s.log[k.cursor])
      else None
  }

  /**
   A step on which a client with filter `f` goes wrong: it reconnects when a passing event after its
   stored id is more than 4096 events old, its receiver skips a passing event that it has not had,
   or an event is not treated as `f` says.
   */
  predicate Misses(s: Server, c: Client, step: Step, f: Filter) {
    match step
    case TakeSnapshot =>
      && c.connection.Subscribed? && c.lastEventId.Some?
      && !NonePass(s.pushed, f, c.lastEventId.value, |s.pushed| - REPLAY_CAPACITY)
    case Poll(passes) =>
      if IsLagging(s, c) then
        !NonePass(s.pushed, f, Reached(c.base, c.connection.maxEmitted), |s.log| - BROADCAST_CAPACITY)
      else Offered(s, c).Some? && passes != f(Offered(s, c).value.event)
    case _ => false
  }

  predicate MissesAt(steps: seq<Step>, k: nat, f: Filter)
    requires k < |steps|
  {
    var w := RunOf(steps[..k]);
    Misses(w.server, w.client, steps[k], f)
  }

  /** No step of the run was one on which the client goes wrong. */
  predicate NeverMisses(steps: seq<Step>, f: Filter) {
    forall k :: 0 <= k < |steps| ==> !MissesAt(steps, k, f)
  }

  lemma NeverMissesSnoc(init: seq<Step>, last: Step, f: Filter)
    ensures MissesAt(init + [last], |init|, f) == Misses(RunOf(init).server, RunOf(init).client, last, f)
    ensures NeverMisses(init + [last], f) <==> NeverMisses(init, f) && !MissesAt(init + [last], |init|, f)
  {
    hide RunOf, Misses;
    var steps := init + [last];
    assert steps[..|init|] == init;
    forall k | 0 <= k < |init|
      ensures MissesAt(steps, k, f) == MissesAt(init, k, f)
    {
      assert steps[..k] == init[..k];
    }
  }

  // --- One step --------------------------------------------------------------------------------

  lemma ExactGrows(s: Server, t: Server, more: seq<Envelope>, f: Filter, ids: seq<nat>, base: nat, reached: nat)
    requires Exact(s, f, ids, base, reached) && t.pushed == s.pushed + more
    ensures Exact(t, f, ids, base, reached)
  {
    PassingGrows(s.pushed, more, f, base, reached);
  }

  lemma NonePassGrows(pushed: seq<Envelope>, more: seq<Envelope>, f: Filter, from: int, to: int)
    requires NonePass(pushed, f, from, to) && to <= |pushed|
    ensures NonePass(pushed + more, f, from, to)
  {
    forall id | from < id <= to
      ensures !Passes(pushed + more, f, id)
    {
      assert !Passes(pushed, f, id);
    }
  }

  lemma NothingSkippedGrows(s: Server, t: Server, more: seq<Envelope>, f: Filter, prefix: seq<Envelope>,
                            reached: nat, cursor: nat)
    requires NothingSkipped(s, f, prefix, reached, cursor) && t.pushed == s.pushed + more && cursor <= |s.pushed|
    ensures NothingSkipped(t, f, prefix, reached, cursor)
  {
    if prefix == [] {
      NonePassGrows(s.pushed, more, f, reached, cursor);
    } else {
      NonePassGrows(s.pushed, more, f, reached, prefix[0].id - 1);
      assert t.pushed[..|s.pushed|] == s.pushed;
    }
  }

  /** The server moving on never hurts a client. */
  lemma ServerGrowthIsHarmless(s: Server, t: Server, c: Client, f: Filter, more: seq<Envelope>)
    requires WholeSoFar(s, c, f) && |s.log| <= |t.log| && |s.log| <= |s.pushed| && t.pushed == s.pushed + more
    ensures WholeSoFar(t, c, f)
  {
    hide Exact, NothingSkipped;
    if c.lastEventId.Some? {
      ExactGrows(s, t, more, f, c.received, c.base, c.lastEventId.value);
    }
    if c.connection.Streaming? {
      var k := c.connection;
      ExactGrows(s, t, more, f, Ids(c), c.base, Reached(c.base, k.maxEmitted));
      NothingSkippedGrows(s, t, more, f, k.prefix, Reached(c.base, k.maxEmitted), k.cursor);
    }
  }

  /** A stream that is exact up to `reached` is exact up to the next event, with it if it passes. */
  lemma ExactToNext(s: Server, f: Filter, ids: seq<nat>, base: nat, reached: nat, next: nat)
    requires Exact(s, f, ids, base, reached) && NonePass(s.pushed, f, reached, next - 1)
    requires reached < next <= |s.pushed|
    ensures Exact(s, f, if f(s.pushed[next - 1].event) then ids + [next] else ids, base, next)
  {
    PassingSkips(s.pushed, f, base, reached, next - 1);
  }

  lemma WireGrows(c: Client, d: Client, id: nat)
    requires c.connection.Streaming? && d.connection.Streaming? && c.received == d.received
    ensures d.connection.wire == c.connection.wire + [id] ==> Ids(d) == Ids(c) + [id]
    ensures d.connection.wire == c.connection.wire ==> Ids(d) == Ids(c)
  {
    if d.connection.wire == c.connection.wire + [id] {
      assert c.received + (c.connection.wire + [id]) == (c.received + c.connection.wire) + [id];
    }
  }

  lemma PrefixTail(s: Server, prefix: seq<Envelope>, reached: nat, cursor: nat)
    requires |prefix| > 0 && PrefixIs(s, prefix, reached, cursor) && Numbered(s.pushed)
    ensures prefix[0] == s.pushed[prefix[0].id - 1]
    ensures |prefix| > 1 ==> prefix[1].id == prefix[0].id + 1 && PrefixIs(s, prefix[1..], prefix[0].id, cursor)
    ensures |prefix| == 1 ==> cursor <= prefix[0].id
  {
    if |prefix| > 1 {
      assert prefix[1] == s.pushed[prefix[0].id];
      assert prefix[1..][0] == prefix[1];
    }
  }

  lemma TailSkipsNothing(s: Server, f: Filter, prefix: seq<Envelope>, reached: nat, cursor: nat)
    requires Numbered(s.pushed) && |prefix| > 0 && PrefixIs(s, prefix, reached, cursor)
    ensures prefix[0] == s.pushed[prefix[0].id - 1]
    ensures NothingSkipped(s, f, prefix[1..], prefix[0].id, cursor)
  {
    PrefixTail(s, prefix, reached, cursor);
    hide PrefixIs;
    if |prefix| == 1 {
      assert prefix[1..] == [];
    } else {
      assert prefix[1..][0] == prefix[1];
    }
  }

  /** The stream after its next prefix event has been put through the filter. */
  lemma ReplayedStream(s: Server, f: Filter, ids: seq<nat>, base: nat, prefix: seq<Envelope>, cursor: nat, maxEmitted: nat)
    requires Numbered(s.pushed) && |prefix| > 0 && StreamIsWhole(s, f, ids, base, prefix, cursor, maxEmitted)
    ensures prefix[0].id > maxEmitted
    ensures var id := prefix[0].id;
            StreamIsWhole(s, f, if f(prefix[0].event) then ids + [id] else ids, base, prefix[1..], cursor, id)
  {
    var reached, id := Reached(base, maxEmitted), prefix[0].id;
    TailSkipsNothing(s, f, prefix, reached, cursor);
    ExactToNext(s, f, ids, base, reached, id);
    assert base <= reached < id;
    hide Exact, NothingSkipped;
  }

  /** The stream after its next live event, which is put through the filter unless it is a duplicate. */
  lemma LiveStream(s: Server, f: Filter, ids: seq<nat>, base: nat, cursor: nat, maxEmitted: nat)
    requires cursor < |s.log| <= |s.pushed| && StreamIsWhole(s, f, ids, base, [], cursor, maxEmitted)
    ensures var id := cursor + 1;
            if id <= maxEmitted then StreamIsWhole(s, f, ids, base, [], id, maxEmitted)
            else StreamIsWhole(s, f, if f(s.pushed[cursor].event) then ids + [id] else ids, base, [], id, id)
  {
    if cursor + 1 > maxEmitted {
      ExactToNext(s, f, ids, base, Reached(base, maxEmitted), cursor + 1);
    }
    hide Exact;
  }

  lemma PollReplayKeepsWhole(s: Server, c: Client, f: Filter, passes: bool)
    requires ServerOk(s) && WholeSoFar(s, c, f) && c.connection.Streaming? && |c.connection.prefix| > 0
    requires !Misses(s, c, Poll(passes), f)
    ensures WholeSoFar(s, PollClient(s, c, passes), f)
  {
    hide StreamIsWhole, Exact, Ids, IsRing, Numbered;
    var k := c.connection;
    ReplayedStream(s, f, Ids(c), c.base, k.prefix, k.cursor, k.maxEmitted);
    WireGrows(c, PollClient(s, c, passes), k.prefix[0].id);
  }

  /** The next live event, and how it is treated. */
  lemma LiveEvent(s: Server, c: Client, f: Filter, passes: bool)
    requires ServerOk(s) && c.connection.Streaming? && c.connection.prefix == [] && c.connection.cursor < |s.log|
    requires !IsLagging(s, c) && !Misses(s, c, Poll(passes), f)
    ensures |s.log| <= |s.pushed| && s.log[c.connection.cursor] == s.pushed[c.connection.cursor]
    ensures s.log[c.connection.cursor].id == c.connection.cursor + 1
    ensures c.connection.cursor + 1 > c.connection.maxEmitted ==> passes == f(s.pushed[c.connection.cursor].event)
  {
    LogIsPrefix(s);
    assert s.log[c.connection.cursor].id == c.connection.cursor + 1;
    hide ServerOk, Numbered;
  }

  lemma PollLiveKeepsWhole(s: Server, c: Client, f: Filter, passes: bool)
    requires ServerOk(s) && WholeSoFar(s, c, f) && c.connection.Streaming? && c.connection.prefix == []
    requires !IsLagging(s, c) && !Misses(s, c, Poll(passes), f)
    ensures WholeSoFar(s, PollClient(s, c, passes), f)
  {
    hide ServerOk, StreamIsWhole, Exact, Ids, Misses, IsLagging;
    var k := c.connection;
    WireGrows(c, PollClient(s, c, passes), k.cursor + 1);
    if k.cursor < |s.log| {
      LiveEvent(s, c, f, passes);
      LiveStream(s, f, Ids(c), c.base, k.cursor, k.maxEmitted);
    }
  }

  /** A receiver that skips no passing event it has not had skips nothing. */
  lemma LagKeepsWhole(s: Server, c: Client, f: Filter, passes: bool)
    requires WholeSoFar(s, c, f) && IsLagging(s, c) && !Misses(s, c, Poll(passes), f)
    ensures WholeSoFar(s, PollClient(s, c, passes), f)
  {
    hide Exact;
    assert Ids(PollClient(s, c, passes)) == Ids(c);
  }

  /** How many of the events pushed are no longer in the ring: all but the last 4096. */
  function Gone(s: Server): nat {
    if |s.pushed| > REPLAY_CAPACITY then |s.pushed| - REPLAY_CAPACITY else 0
  }

  /** What comes after an id in the tail of a numbered list. */
  lemma AfterInTail(pushed: seq<Envelope>, gone: nat, last: nat)
    requires Numbered(pushed) && gone <= |pushed|
    ensures After(pushed[gone..], last) ==
            if last >= |pushed| then [] else pushed[if last > gone then last else gone..]
  {
    hide After;
    var ring := pushed[gone..];
    assert forall i :: 0 <= i < |ring| ==> ring[i].id == gone + 1 + i;
    hide Numbered;
    AfterIsSuffix(ring, gone + 1, last);
    if gone < last < |pushed| {
      assert ring[last - gone..] == pushed[last..];
    }
  }

  /** What the ring replays after any id: everything pushed since, as far back as the ring reaches. */
  lemma ReplayFollows(s: Server, last: nat)
    requires ServerOk(s)
    ensures var start := if last > Gone(s) then last else Gone(s);
            After(s.ring, last) == if last >= |s.pushed| then [] else s.pushed[start..]
  {
    hide After, Numbered;
    assert s.ring == s.pushed[Gone(s)..] && Numbered(s.pushed);
    hide ServerOk;
    AfterInTail(s.pushed, Gone(s), last);
  }

  lemma TailIsPrefix(s: Server, start: nat, reached: nat, cursor: nat)
    requires Numbered(s.pushed) && reached <= start < |s.pushed| && cursor <= |s.pushed|
    ensures |s.pushed[start..]| > 0 && s.pushed[start..][0].id == start + 1
    ensures PrefixIs(s, s.pushed[start..], reached, cursor)
  {
    assert s.pushed[start..] == s.pushed[start..start + |s.pushed[start..]|];
  }

  lemma ReplaySkipsNothing(s: Server, f: Filter, last: nat, cursor: nat)
    requires ServerOk(s) && cursor <= |s.log| && NonePass(s.pushed, f, last, |s.pushed| - REPLAY_CAPACITY)
    ensures NothingSkipped(s, f, After(s.ring, last), last, cursor)
  {
    hide After, PrefixIs, Numbered;
    LogIsPrefix(s);
    ReplayFollows(s, last);
    assert Numbered(s.pushed);
    hide ServerOk;
    if last < |s.pushed| {
      TailIsPrefix(s, if last > Gone(s) then last else Gone(s), last, cursor);
    }
  }

  lemma SnapshotKeepsWhole(s: Server, c: Client, f: Filter)
    requires ServerOk(s) && WholeSoFar(s, c, f) && c.connection.Subscribed? && !Misses(s, c, TakeSnapshot, f)
    ensures WholeSoFar(s, SnapshotClient(s, c), f)
  {
    assert Ids(SnapshotClient(s, c)) == c.received;
    if c.lastEventId.Some? {
      ReplaySkipsNothing(s, f, c.lastEventId.value, c.connection.cursor);
      hide Exact, NothingSkipped;
    }
    hide After, ServerOk, Ids;
  }

  /** Reading an event off the wire does not change the stream. */
  lemma CompleteIsQuiet(c: Client)
    requires c.connection.Streaming? && |c.connection.wire| > 0
    ensures Ids(CompleteClient(c)) == Ids(c)
  {
    var wire := c.connection.wire;
    assert (c.received + [wire[0]]) + wire[1..] == c.received + wire;
  }

  lemma CompleteKeepsWhole(s: Server, c: Client, f: Filter)
    requires WholeSoFar(s, c, f) && c.connection.Streaming? && |c.connection.wire| > 0
    ensures WholeSoFar(s, CompleteClient(c), f)
  {
    CompleteIsQuiet(c);
    var n := |c.received| + 1;
    PassingPrefix(s.pushed, f, c.base, Reached(c.base, c.connection.maxEmitted), n);
    assert Ids(c)[..n] == c.received + [c.connection.wire[0]];
    hide Passing;
  }

  lemma QuietStepKeepsWhole(s: Server, c: Client, f: Filter, step: Step)
    requires WholeSoFar(s, c, f) && |s.log| <= |s.pushed|
    requires step.Connect? || step.Disconnect? || step.Restore?
    ensures WholeSoFar(s, NextClient(s, c, step), f)
  {
  }

  lemma ClientStepKeepsWhole(s: Server, c: Client, f: Filter, step: Step)
    requires ServerOk(s) && WholeSoFar(s, c, f) && !Misses(s, c, step, f)
    ensures WholeSoFar(s, NextClient(s, c, step), f)
  {
    LogIsPrefix(s);
    hide WholeSoFar, ServerOk, Misses, PollClient, SnapshotClient, CompleteClient;
    match step
    case TakeSnapshot =>
      if c.connection.Subscribed? {
        SnapshotKeepsWhole(s, c, f);
      }
    case Poll(passes) =>
      if c.connection.Streaming? {
        if |c.connection.prefix| > 0 {
          PollReplayKeepsWhole(s, c, f, passes);
        } else if IsLagging(s, c) {
          LagKeepsWhole(s, c, f, passes);
        } else {
          PollLiveKeepsWhole(s, c, f, passes);
        }
      }
    case Complete =>
      if c.connection.Streaming? && |c.connection.wire| > 0 {
        CompleteKeepsWhole(s, c, f);
      }
    case Connect => QuietStepKeepsWhole(s, c, f, step);
    case Disconnect => QuietStepKeepsWhole(s, c, f, step);
    case Restore(_) => QuietStepKeepsWhole(s, c, f, step);
    case _ =>
  }

  lemma PushedGrows(s: Server, step: Step) returns (more: seq<Envelope>)
    ensures NextServer(s, step).pushed == s.pushed + more
  {
    more := if step.Push? && s.producer.Allocated? then [s.producer.env] else [];
    assert s.pushed + [] == s.pushed;
  }

  lemma StepKeepsWhole(w: World, step: Step, f: Filter)
    requires ServerOk(w.server) && WholeSoFar(w.server, w.client, f) && !Misses(w.server, w.client, step, f)
    ensures ServerOk(Next(w, step).server) && WholeSoFar(Next(w, step).server, Next(w, step).client, f)
  {
    var s := w.server;
    ServerStaysOk(s, step);
    LogIsPrefix(s);
    var more := PushedGrows(s, step);
    ClientStepKeepsWhole(s, w.client, f, step);
    hide WholeSoFar, ServerOk, Misses, NextServer, NextClient;
    ServerGrowthIsHarmless(s, NextServer(s, step), NextClient(s, w.client, step), f, more);
  }

  // --- Whole runs ------------------------------------------------------------------------------

  lemma {:induction false} ServerIsOk(steps: seq<Step>)
    ensures ServerOk(RunOf(steps).server)
  {
    hide ServerOk, NextServer, NextClient;
    if |steps| == 0 {
      InitialServerIsOk();
    } else {
      ServerIsOk(steps[..|steps| - 1]);
      ServerStaysOk(RunOf(steps[..|steps| - 1]).server, steps[|steps| - 1]);
    }
  }

  lemma InitialServerIsOk()
    ensures ServerOk(InitialWorld().server)
  {
  }

  /** In every run without a miss, every passing event is received, on the wire, in the prefix or in the log. */
  lemma {:induction false} EveryRunIsWhole(steps: seq<Step>, f: Filter)
    requires NeverMisses(steps, f)
    ensures ServerOk(RunOf(steps).server) && WholeSoFar(RunOf(steps).server, RunOf(steps).client, f)
  {
    if |steps| > 0 {
      var init, last := steps[..|steps| - 1], steps[|steps| - 1];
      assert steps == init + [last];
      NeverMissesSnoc(init, last, f);
      hide Misses, MissesAt, NeverMisses, Next, ServerOk, WholeSoFar;
      EveryRunIsWhole(init, f);
      StepKeepsWhole(RunOf(init), last, f);
    }
  }

  /**
   In every run without a miss, over all connections, the ids received are exactly those after the
   starting point that pass the filter, up to the last one received.
   */
  lemma FilteredExactlyOnce(steps: seq<Step>, f: Filter)
    requires NeverMisses(steps, f)
    ensures var w := RunOf(steps);
            w.client.received ==
            if w.client.lastEventId.None? then []
            else Passing(w.server.pushed, f, w.client.base, w.client.lastEventId.value)
  {
    hide NeverMisses, Passing;
    EveryRunIsWhole(steps, f);
  }

  /** A client that has drained its stream has received every passing event sent since its starting point. */
  lemma DrainedMeansAll(steps: seq<Step>, f: Filter)
    requires NeverMisses(steps, f)
    requires var w := RunOf(steps);
             && w.server.producer.Idle? && w.client.connection.Streaming?
             && w.client.connection.prefix == [] && w.client.connection.wire == []
             && w.client.connection.cursor == |w.server.log|
    ensures var w := RunOf(steps);
            w.server.log == w.server.pushed
            && w.client.received == Passing(w.server.log, f, w.client.base, |w.server.log|)
  {
    hide NeverMisses;
    EveryRunIsWhole(steps, f);
    var w := RunOf(steps);
    var c := w.client;
    var reached, n := Reached(c.base, c.connection.maxEmitted), |w.server.log|;
    assert Ids(c) == c.received;
    if reached <= n {
      PassingSkips(w.server.pushed, f, c.base, reached, n);
    }
  }

  // --- Without a filter ------------------------------------------------------------------------

  /** With no filter a miss is a matter of numbers. */
  lemma UnfilteredMissesIff(s: Server, c: Client, step: Step)
    requires ServerOk(s)
    ensures Misses(s, c, step, Everything()) <==>
            match step
            case TakeSnapshot =>
              c.connection.Subscribed? && c.lastEventId.Some? && |s.pushed| > c.lastEventId.value + REPLAY_CAPACITY
            case Poll(passes) =>
              if IsLagging(s, c) then |s.log| > Reached(c.base, c.connection.maxEmitted) + BROADCAST_CAPACITY
              else Offered(s, c).Some? && !passes
            case _ => false
  {
    LogIsPrefix(s);
    match step
    case TakeSnapshot =>
      if c.lastEventId.Some? && |s.pushed| > c.lastEventId.value + REPLAY_CAPACITY {
        assert Passes(s.pushed, Everything(), |s.pushed| - REPLAY_CAPACITY);
      }
    case Poll(_) =>
      if IsLagging(s, c) && |s.log| > Reached(c.base, c.connection.maxEmitted) + BROADCAST_CAPACITY {
        assert Passes(s.pushed, Everything(), |s.log| - BROADCAST_CAPACITY);
      }
    case _ =>
  }

  /**
   In every run in which an unfiltered client never skips an event it has not had, on a live
   connection or on reconnecting, the ids received are the consecutive ones after its starting point.
   */
  lemma ExactlyOnce(steps: seq<Step>)
    requires NeverMisses(steps, Everything())
    ensures var c := RunOf(steps).client;
            Consecutive(c.received, c.base) && (c.lastEventId.Some? ==> c.lastEventId.value == c.base + |c.received|)
  {
    hide NeverMisses;
    EveryRunIsWhole(steps, Everything());
    var w := RunOf(steps);
    if w.client.lastEventId.Some? {
      EverythingIsConsecutive(w.server.pushed, w.client.base, w.client.lastEventId.value);
    }
  }
}
