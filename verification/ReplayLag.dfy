/**
 What a client cannot get back. The ring and the broadcast channel hold the same number of events and
 an event is pushed before it is sent, so what a receiver has lagged over, or what is too old when the
 ring is read, is gone for good: on this connection and on every later one. It costs the client
 something exactly when a passing event is skipped that the client has not had.
 */
module ReplayLag {
  import opened Wrappers
  import opened Replay
  import opened ReplayWhole
  import Tracker

  function RunFrom(w: World, steps: seq<Step>): World {
    if |steps| == 0 then w else Next(RunFrom(w, steps[..|steps| - 1]), steps[|steps| - 1])
  }

  lemma {:induction false} RunsJoin(pre: seq<Step>, later: seq<Step>)
    ensures RunOf(pre + later) == RunFrom(RunOf(pre), later)
  {
    if |later| == 0 {
      assert pre + later == pre;
    } else {
      var init := later[..|later| - 1];
      RunsJoin(pre, init);
      assert (pre + later)[..|pre + later| - 1] == pre + init;
      hide Next;
    }
  }

  /** However the run goes on, the client never receives this event. */
  ghost predicate LostForever(w: World, id: nat) {
    forall later: seq<Step> :: id !in RunFrom(w, later).client.received
  }

  // --- Out of reach ---------------------------------------------------------------------------

  /** Events up to `n` have left the ring, and no connection will come to them any more. */
  predicate ConnectionBeyond(c: Client, n: nat) {
    match c.connection
    case Off => true
    case Subscribed(cursor) => n <= cursor
    case Streaming(prefix, cursor, maxEmitted, _) =>
      && (forall i :: 0 <= i < |prefix| ==> prefix[i].id > n)
      && (n <= cursor || |prefix| > 0 || n <= maxEmitted)
  }

  predicate Beyond(w: World, n: nat) {
    ServerOk(w.server) && n <= |w.server.log| && n <= Gone(w.server) && ConnectionBeyond(w.client, n)
  }

  /** Every id of the later stream was in the earlier one or is above `n`. */
  predicate OnlyAbove(before: seq<nat>, later: seq<nat>, n: nat) {
    forall i :: 0 <= i < |later| ==> later[i] > n || later[i] in before
  }

  lemma OnlyAboveTwice(a: seq<nat>, b: seq<nat>, c: seq<nat>, n: nat)
    requires OnlyAbove(a, b, n) && OnlyAbove(b, c, n)
    ensures OnlyAbove(a, c, n)
  {
  }

  lemma OnlyAboveOneMore(a: seq<nat>, id: nat, n: nat)
    requires id > n
    ensures OnlyAbove(a, a + [id], n) && OnlyAbove(a, a, n)
  {
  }

  lemma ForwardStaysBeyond(c: Client, env: Envelope, passes: bool, n: nat)
    requires c.connection.Streaming? && ConnectionBeyond(c, n) && (env.id > n || env.id <= c.connection.maxEmitted)
    ensures var d := ForwardClient(c, env, passes); ConnectionBeyond(d, n) && OnlyAbove(Ids(c), Ids(d), n)
  {
    var d := ForwardClient(c, env, passes);
    WireGrows(c, d, env.id);
    hide Ids;
    if env.id > n {
      OnlyAboveOneMore(Ids(c), env.id, n);
    }
  }

  lemma PollStaysBeyond(s: Server, c: Client, passes: bool, n: nat)
    requires ServerOk(s) && c.connection.Streaming? && ConnectionBeyond(c, n)
    ensures var d := PollClient(s, c, passes); ConnectionBeyond(d, n) && OnlyAbove(Ids(c), Ids(d), n)
  {
    LogIsPrefix(s);
    var k := c.connection;
    if |k.prefix| > 0 {
      PopStaysBeyond(c, passes, n);
    } else if !IsLagging(s, c) && k.cursor < |s.log| {
      var d := c.(connection := k.(cursor := k.cursor + 1));
      assert Ids(d) == Ids(c) && s.log[k.cursor].id == k.cursor + 1;
      hide Ids, ServerOk, Numbered, IsLagging, OnlyAbove, ForwardClient;
      LiveStaysBeyond(c, s.log[k.cursor], passes, n);
    } else {
      assert Ids(PollClient(s, c, passes)) == Ids(c);
      hide Ids;
    }
  }

  /** A prefix event carries the mark above `n`. */
  lemma PopStaysBeyond(c: Client, passes: bool, n: nat)
    requires c.connection.Streaming? && ConnectionBeyond(c, n) && |c.connection.prefix| > 0
    ensures var k := c.connection;
            var d := ForwardClient(c.(connection := k.(prefix := k.prefix[1..])), k.prefix[0], passes);
            ConnectionBeyond(d, n) && OnlyAbove(Ids(c), Ids(d), n)
  {
    var k := c.connection;
    var d := ForwardClient(c.(connection := k.(prefix := k.prefix[1..])), k.prefix[0], passes);
    WireGrows(c, d, k.prefix[0].id);
    OnlyAboveOneMore(Ids(c), k.prefix[0].id, n);
    hide Ids, OnlyAbove;
  }

  lemma LiveStaysBeyond(c: Client, env: Envelope, passes: bool, n: nat)
    requires c.connection.Streaming? && ConnectionBeyond(c, n) && c.connection.prefix == []
    requires env.id == c.connection.cursor + 1
    ensures var k := c.connection;
            var d := ForwardClient(c.(connection := k.(cursor := env.id)), env, passes);
            ConnectionBeyond(d, n) && OnlyAbove(Ids(c), Ids(d), n)
  {
    var k := c.connection;
    var d := c.(connection := k.(cursor := env.id));
    assert Ids(d) == Ids(c);
    ForwardStaysBeyond(d, env, passes, n);
  }

  lemma SnapshotStaysBeyond(s: Server, c: Client, n: nat)
    requires ServerOk(s) && c.connection.Subscribed? && ConnectionBeyond(c, n) && n <= Gone(s)
    ensures var d := SnapshotClient(s, c); ConnectionBeyond(d, n) && OnlyAbove(Ids(c), Ids(d), n)
  {
    var d := SnapshotClient(s, c);
    assert Ids(d) == Ids(c);
    if c.lastEventId.Some? {
      ReplayIsAbove(s, c.lastEventId.value);
    }
    hide After, ServerOk, Ids;
  }

  /** The ring replays only what it still holds. */
  lemma ReplayIsAbove(s: Server, last: nat)
    requires ServerOk(s)
    ensures forall i :: 0 <= i < |After(s.ring, last)| ==> After(s.ring, last)[i].id > Gone(s)
    ensures Gone(s) > last ==> |After(s.ring, last)| > 0
  {
    ReplayFollows(s, last);
    assert Numbered(s.pushed);
    hide After, ServerOk;
  }

  lemma CompleteStaysBeyond(c: Client, n: nat)
    requires c.connection.Streaming? && |c.connection.wire| > 0 && ConnectionBeyond(c, n)
    ensures ConnectionBeyond(CompleteClient(c), n) && OnlyAbove(Ids(c), Ids(CompleteClient(c)), n)
  {
    CompleteIsQuiet(c);
    hide Ids;
  }

  lemma QuietStaysBeyond(s: Server, c: Client, step: Step, n: nat)
    requires ConnectionBeyond(c, n) && n <= |s.log| && !step.TakeSnapshot? && !step.Poll? && !step.Complete?
    ensures var d := NextClient(s, c, step); ConnectionBeyond(d, n) && OnlyAbove(Ids(c), Ids(d), n)
  {
  }

  lemma ClientStaysBeyond(s: Server, c: Client, step: Step, n: nat)
    requires ServerOk(s) && ConnectionBeyond(c, n) && n <= Gone(s) && n <= |s.log|
    ensures var d := NextClient(s, c, step); ConnectionBeyond(d, n) && OnlyAbove(Ids(c), Ids(d), n)
  {
    if step.Poll? && c.connection.Streaming? {
      PollStaysBeyond(s, c, step.passes, n);
    } else if step.TakeSnapshot? && c.connection.Subscribed? {
      SnapshotStaysBeyond(s, c, n);
    } else if step.Complete? && c.connection.Streaming? && |c.connection.wire| > 0 {
      CompleteStaysBeyond(c, n);
    } else if step.Poll? || step.TakeSnapshot? || step.Complete? {
      assert OnlyAbove(Ids(c), Ids(c), n);
    } else {
      QuietStaysBeyond(s, c, step, n);
    }
    hide Ids, ConnectionBeyond, OnlyAbove, ServerOk, PollClient, SnapshotClient, CompleteClient;
  }

  lemma StepStaysBeyond(w: World, step: Step, n: nat)
    requires Beyond(w, n)
    ensures Beyond(Next(w, step), n) && OnlyAbove(Ids(w.client), Ids(Next(w, step).client), n)
  {
    ServerStaysOk(w.server, step);
    ClientStaysBeyond(w.server, w.client, step, n);
    hide ServerOk, OnlyAbove, NextServer, NextClient, Ids, ConnectionBeyond;
  }

  /** However a run goes on, reconnects and stored ids included, what is out of reach stays so. */
  lemma {:induction false} BeyondStays(w: World, later: seq<Step>, n: nat)
    requires Beyond(w, n)
    ensures Beyond(RunFrom(w, later), n) && OnlyAbove(Ids(w.client), Ids(RunFrom(w, later).client), n)
  {
    if |later| > 0 {
      var init := later[..|later| - 1];
      BeyondStays(w, init, n);
      StepStaysBeyond(RunFrom(w, init), later[|later| - 1], n);
      hide Beyond, Next, Ids, OnlyAbove;
      OnlyAboveTwice(Ids(w.client), Ids(RunFrom(w, init).client), Ids(RunFrom(w, later).client), n);
    }
  }

  lemma BeyondIsLost(w: World, n: nat, id: nat)
    requires Beyond(w, n) && id <= n && id !in Ids(w.client)
    ensures LostForever(w, id)
  {
    forall later: seq<Step>
      ensures id !in RunFrom(w, later).client.received
    {
      BeyondStays(w, later, n);
      var d := RunFrom(w, later).client;
      hide Beyond, RunFrom;
      assert Ids(d)[..|d.received|] == d.received;
    }
  }

  // --- Steps that skip -------------------------------------------------------------------------

  /** A receiver that lags, or a ring that is read for a stored id. */
  predicate MaySkip(w: World, step: Step) {
    || (step.Poll? && IsLagging(w.server, w.client))
    || (step.TakeSnapshot? && w.client.connection.Subscribed? && w.client.lastEventId.Some?)
  }

  /** The last event that such a step can skip. */
  function SkipEnd(w: World, step: Step): nat
    requires MaySkip(w, step)
  {
    if step.Poll? then |w.server.log| - BROADCAST_CAPACITY else Gone(w.server)
  }

  /** Where the client's stream stood before the step. */
  function StoodAt(w: World, step: Step): nat
    requires MaySkip(w, step)
  {
    if step.Poll? then Reached(w.client.base, w.client.connection.maxEmitted) else w.client.lastEventId.value
  }

  /** What lies up to the end of the skip is not in the ring any more when it is skipped. */
  lemma SkippedHasLeftTheRing(w: World, step: Step)
    requires ServerOk(w.server) && MaySkip(w, step)
    ensures SkipEnd(w, step) <= Gone(w.server)
    ensures forall i :: 0 <= i < |w.server.ring| ==> w.server.ring[i].id > SkipEnd(w, step)
  {
    var s := w.server;
    LogIsPrefix(s);
    forall i | 0 <= i < |s.ring|
      ensures s.ring[i].id == Gone(s) + 1 + i
    {
      assert s.ring[i] == s.pushed[Gone(s) + i];
    }
  }

  lemma SkipIsBeyond(w: World, step: Step)
    requires ServerOk(w.server) && MaySkip(w, step)
    ensures Beyond(Next(w, step), SkipEnd(w, step)) && Ids(Next(w, step).client) == Ids(w.client)
  {
    SkippedHasLeftTheRing(w, step);
    LogIsPrefix(w.server);
    if step.TakeSnapshot? {
      ReplayIsAbove(w.server, w.client.lastEventId.value);
      hide After, Numbered;
    }
  }

  /**
   Any event up to the end of the skip that the client has neither received nor on the wire is lost
   for good: no later connection, with whatever stored id, brings it.
   */
  lemma SkippedIsLost(w: World, step: Step, id: nat)
    requires ServerOk(w.server) && MaySkip(w, step) && id <= SkipEnd(w, step) && id !in Ids(w.client)
    ensures LostForever(Next(w, step), id)
  {
    SkipIsBeyond(w, step);
    hide Beyond, Next, Ids;
    BeyondIsLost(Next(w, step), SkipEnd(w, step), id);
  }

  // --- What is on the wire can be received -------------------------------------------------------

  function Completes(n: nat): seq<Step> {
    seq(n, _ => Complete)
  }

  lemma {:induction false} WireArrives(w: World, n: nat)
    requires w.client.connection.Streaming? && n <= |w.client.connection.wire|
    ensures var v := RunFrom(w, Completes(n));
            v.client.received == w.client.received + w.client.connection.wire[..n]
            && v.client.connection == w.client.connection.(wire := w.client.connection.wire[n..])
  {
    var later, wire := Completes(n), w.client.connection.wire;
    if n == 0 {
      assert wire[0..] == wire && w.client.received + wire[..0] == w.client.received;
    } else {
      WireArrives(w, n - 1);
      assert later[..n - 1] == Completes(n - 1);
      assert wire[n - 1..][1..] == wire[n..] && wire[..n - 1] + [wire[n - 1..][0]] == wire[..n];
    }
  }

  lemma IdsAreNotLost(w: World, id: nat)
    requires id in Ids(w.client)
    ensures !LostForever(w, id)
  {
    if id in w.client.received {
      assert RunFrom(w, []) == w;
    } else {
      var wire := w.client.connection.wire;
      WireArrives(w, |wire|);
      assert id in wire[..|wire|];
      assert id in RunFrom(w, Completes(|wire|)).client.received;
    }
  }

  // --- When something is lost ------------------------------------------------------------------

  /** The step loses, for good, an event of the client's stream that passes its filter. */
  ghost predicate Loses(w: World, step: Step, f: Filter)
    requires MaySkip(w, step)
  {
    exists id: nat :: w.client.base < id <= SkipEnd(w, step) && Passes(w.server.pushed, f, id)
                      && LostForever(Next(w, step), id)
  }

  /** The ids of a whole stream so far are those that pass, up to where it stands. */
  lemma StreamIsExact(w: World, step: Step, f: Filter)
    requires WholeSoFar(w.server, w.client, f) && MaySkip(w, step)
    ensures w.client.base <= StoodAt(w, step)
    ensures Ids(w.client) == Passing(w.server.pushed, f, w.client.base, StoodAt(w, step))
  {
    if step.TakeSnapshot? {
      assert Ids(w.client) == w.client.received;
    }
    hide Passing;
  }

  lemma MissesIsSkip(w: World, step: Step, f: Filter)
    requires MaySkip(w, step)
    ensures Misses(w.server, w.client, step, f) <==> !NonePass(w.server.pushed, f, StoodAt(w, step), SkipEnd(w, step))
  {
  }

  lemma StaysInIds(w: World, step: Step)
    requires MaySkip(w, step)
    ensures Ids(Next(w, step).client) == Ids(w.client)
  {
    hide After;
  }

  /**
   In a run without a miss so far, a lagging receiver, or a ring read for a stored id, loses a passing
   event for good exactly when a passing event lies between where the client stood and the end of the skip.
   */
  lemma LosesIff(pre: seq<Step>, step: Step, f: Filter)
    requires NeverMisses(pre, f) && MaySkip(RunOf(pre), step)
    ensures Loses(RunOf(pre), step, f) <==> Misses(RunOf(pre).server, RunOf(pre).client, step, f)
  {
    var w := RunOf(pre);
    EveryRunIsWhole(pre, f);
    StreamIsExact(w, step, f);
    MissesIsSkip(w, step, f);
    StaysInIds(w, step);
    var pushed, at, end := w.server.pushed, StoodAt(w, step), SkipEnd(w, step);
    hide RunOf, WholeSoFar, NeverMisses, Misses, MaySkip, Next, Ids, Passing, LostForever, ServerOk, Passes;
    if !NonePass(pushed, f, at, end) {
      var id :| at < id <= end && Passes(pushed, f, id);
      PassingMember(pushed, f, w.client.base, at, id);
      SkippedIsLost(w, step, id);
    }
    if Loses(w, step, f) {
      var id: nat :| w.client.base < id <= end && Passes(pushed, f, id) && LostForever(Next(w, step), id);
      if id <= at {
        PassingMember(pushed, f, w.client.base, at, id);
        IdsAreNotLost(Next(w, step), id);
      }
    }
  }

  /**
   Without a filter: the lag loses something exactly when the oldest event the channel still holds
   leaves a gap after the last one emitted, that is, unless the replay had covered the skip.
   */
  lemma LagLosesIff(pre: seq<Step>, passes: bool)
    requires NeverMisses(pre, Everything()) && IsLagging(RunOf(pre).server, RunOf(pre).client)
    ensures var w := RunOf(pre);
            Loses(w, Poll(passes), Everything()) <==>
            |w.server.log| - BROADCAST_CAPACITY > w.client.connection.maxEmitted
  {
    var w := RunOf(pre);
    LosesIff(pre, Poll(passes), Everything());
    EveryRunIsWhole(pre, Everything());
    UnfilteredMissesIff(w.server, w.client, Poll(passes));
    hide Loses, Misses, RunOf, Exact, ServerOk;
  }

  // --- A run that lags --------------------------------------------------------------------------

  /** The run `pre`, after which the server allocates, pushes and sends `k` events. */
  function Served(pre: seq<Step>, event: Tracker.StateEvent, k: nat): seq<Step> {
    if k == 0 then pre else Served(pre, event, k - 1) + [Allocate(event)] + [Push] + [Send]
  }

  /** No header, no poll: the client sits on an open connection. */
  predicate OnlyListens(steps: seq<Step>) {
    forall k :: 0 <= k < |steps| ==> !steps[k].Poll? && !steps[k].Complete? && !steps[k].Restore?
  }

  lemma {:induction false} ListeningNeverMisses(steps: seq<Step>, f: Filter)
    requires OnlyListens(steps)
    ensures RunOf(steps).client.lastEventId.None? && NeverMisses(steps, f)
  {
    if |steps| > 0 {
      var init, last := steps[..|steps| - 1], steps[|steps| - 1];
      assert steps == init + [last];
      ListeningNeverMisses(init, f);
      NeverMissesSnoc(init, last, f);
      hide After, NextServer, NeverMisses;
    }
  }

  /** An idle server with an open connection to a client that has been sent nothing. */
  predicate IsWaiting(w: World, sent: nat) {
    && w.server.producer.Idle? && |w.server.log| == sent
    && w.client.connection == Streaming([], 0, 0, [])
  }

  lemma OneRound(w: World, event: Tracker.StateEvent, sent: nat)
    requires IsWaiting(w, sent)
    ensures IsWaiting(Next(Next(Next(w, Allocate(event)), Push), Send), sent + 1)
  {
    hide PushRing;
  }

  lemma RunSnoc(steps: seq<Step>, step: Step)
    ensures RunOf(steps + [step]) == Next(RunOf(steps), step)
  {
    assert (steps + [step])[..|steps|] == steps;
  }

  lemma RoundIsSent(before: seq<Step>, event: Tracker.StateEvent, sent: nat)
    requires IsWaiting(RunOf(before), sent)
    ensures IsWaiting(RunOf(before + [Allocate(event)] + [Push] + [Send]), sent + 1)
  {
    RunSnoc(before, Allocate(event));
    RunSnoc(before + [Allocate(event)], Push);
    RunSnoc(before + [Allocate(event)] + [Push], Send);
    hide RunOf, Next, IsWaiting;
    OneRound(RunOf(before), event, sent);
  }

  lemma {:induction false} RoundsAreSent(pre: seq<Step>, event: Tracker.StateEvent, k: nat)
    requires IsWaiting(RunOf(pre), 0) && OnlyListens(pre)
    ensures IsWaiting(RunOf(Served(pre, event, k)), k) && OnlyListens(Served(pre, event, k))
  {
    hide RunOf, IsWaiting;
    if k > 0 {
      RoundsAreSent(pre, event, k - 1);
      RoundIsSent(Served(pre, event, k - 1), event, k - 1);
    }
  }

  /** A client that connects and then does not read until 4097 events have been sent. */
  lemma LaggingRun(event: Tracker.StateEvent) returns (pre: seq<Step>)
    ensures NeverMisses(pre, Everything()) && IsLagging(RunOf(pre).server, RunOf(pre).client)
    ensures forall passes: bool :: Loses(RunOf(pre), Poll(passes), Everything())
  {
    var open := [Connect, TakeSnapshot];
    assert open[..1] == [Connect] && open[..1][..0] == [];
    assert IsWaiting(RunOf(open), 0);
    pre := Served(open, event, BROADCAST_CAPACITY + 1);
    hide RunOf, Served;
    RoundsAreSent(open, event, BROADCAST_CAPACITY + 1);
    ListeningNeverMisses(pre, Everything());
    hide NeverMisses, Loses;
    forall passes: bool
      ensures Loses(RunOf(pre), Poll(passes), Everything())
    {
      LagLosesIff(pre, passes);
    }
  }

  // --- A stored id --------------------------------------------------------------------------------

  /** The stream of a client that started from the stored id `header`. */
  predicate StartedFrom(c: Client, header: nat) {
    && c.base == header && c.lastEventId.Some? && c.lastEventId.value >= header
    && (forall i :: 0 <= i < |Ids(c)| ==> Ids(c)[i] > header)
    && (c.connection.Streaming? ==> c.connection.maxEmitted >= header)
  }

  lemma PollKeepsStart(s: Server, c: Client, passes: bool, header: nat)
    requires c.connection.Streaming? && StartedFrom(c, header)
    ensures StartedFrom(PollClient(s, c, passes), header)
  {
    var d := PollClient(s, c, passes);
    if d.connection.wire == c.connection.wire {
      assert Ids(d) == Ids(c);
    } else {
      WireGrows(c, d, d.connection.maxEmitted);
    }
    hide Ids;
  }

  lemma StepKeepsStart(s: Server, c: Client, step: Step, header: nat)
    requires StartedFrom(c, header) && !step.Restore?
    ensures StartedFrom(NextClient(s, c, step), header)
  {
    hide PollClient, After;
    if step.Poll? && c.connection.Streaming? {
      PollKeepsStart(s, c, step.passes, header);
    } else if step.Complete? && c.connection.Streaming? && |c.connection.wire| > 0 {
      CompleteIsQuiet(c);
      assert Ids(c)[|c.received|] == c.connection.wire[0];
    } else {
      assert forall i :: 0 <= i < |c.received| ==> Ids(c)[i] == c.received[i];
    }
  }

  lemma {:induction false} RunKeepsStart(w: World, later: seq<Step>, header: nat)
    requires StartedFrom(w.client, header) && forall k :: 0 <= k < |later| ==> !later[k].Restore?
    ensures StartedFrom(RunFrom(w, later).client, header)
  {
    if |later| > 0 {
      var init := later[..|later| - 1];
      RunKeepsStart(w, init, header);
      hide StartedFrom, NextClient, NextServer;
      StepKeepsStart(RunFrom(w, init).server, RunFrom(w, init).client, later[|later| - 1], header);
    }
  }

  /**
   A client that comes with any stored id, even one that the server has not reached, as after a
   restart of the server: no event up to that id is ever sent to it, and without a miss it receives
   exactly the passing events after it.
   */
  lemma StoredIdIsFloor(pre: seq<Step>, header: nat, later: seq<Step>, f: Filter)
    requires RunOf(pre).client.connection.Off? && forall k :: 0 <= k < |later| ==> !later[k].Restore?
    ensures var steps := pre + [Restore(Some(header))] + later;
            var w := RunOf(steps);
            && (forall i :: 0 <= i < |w.client.received| ==> w.client.received[i] > header)
            && w.client.lastEventId.Some? && (NeverMisses(steps, f) ==>
                  w.client.received == Passing(w.server.pushed, f, header, w.client.lastEventId.value))
  {
    var from := pre + [Restore(Some(header))];
    assert from[..|pre|] == pre;
    assert RunOf(from).client == RestoreClient(Some(header));
    RunsJoin(from, later);
    hide RunOf, NeverMisses, Passing;
    RunKeepsStart(RunOf(from), later, header);
    var c := RunOf(from + later).client;
    assert forall i :: 0 <= i < |c.received| ==> Ids(c)[i] == c.received[i];
    if NeverMisses(from + later, f) {
      FilteredExactlyOnce(from + later, f);
    }
  }
}
