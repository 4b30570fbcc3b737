/**
 That the stream gets on. Every poll of a streaming client takes one event from what awaits it, replay
 first and then live; so from every reachable world there are polls after which nothing awaits it, and
 by then it has received every passing event.
 */
module ReplayDrain {
  import opened Wrappers
  import opened Replay
  import opened ReplayWhole
  import opened ReplayLag
  import Tracker

  /** The client's stream stands within the log. */
  predicate IsStreaming(w: World) {
    w.client.connection.Streaming? && w.client.connection.cursor <= |w.server.log|
  }

  /** What awaits a streaming client: the rest of its replay, then the log from its cursor on. */
  function Awaiting(w: World): seq<Envelope>
    requires IsStreaming(w)
  {
    w.client.connection.prefix + w.server.log[w.client.connection.cursor..]
  }

  /** At most 4096 live events await the client: its receiver is not lagging, nor will be after the replay. */
  predicate InReach(w: World)
    requires IsStreaming(w)
  {
    |w.server.log| - w.client.connection.cursor <= 4096
  }

  /** The mark after an event, and what the event adds to the wire. */
  function MarkAfter(env: Envelope, mark: nat): nat {
    if env.id > mark then env.id else mark
  }

  function Shown(env: Envelope, mark: nat, passes: bool): seq<nat> {
    if env.id > mark && passes then [env.id] else []
  }

  // --- One poll ----------------------------------------------------------------------------------

  lemma RestOfLog(log: seq<Envelope>, cursor: nat)
    requires cursor < |log|
    ensures log[cursor..][0] == log[cursor] && log[cursor..][1..] == log[cursor + 1..]
  {
  }

  lemma PollOfReplay(w: World, passes: bool)
    requires IsStreaming(w) && |w.client.connection.prefix| > 0
    ensures TakesOne(w, Next(w, Poll(passes)), passes)
  {
    var k := w.client.connection;
    assert Awaiting(w)[1..] == k.prefix[1..] + w.server.log[k.cursor..];
    assert k.wire + [] == k.wire;
  }

  lemma PollOfLog(w: World, passes: bool)
    requires IsStreaming(w) && InReach(w) && w.client.connection.prefix == [] && w.client.connection.cursor < |w.server.log|
    ensures TakesOne(w, Next(w, Poll(passes)), passes)
  {
    var k := w.client.connection;
    RestOfLog(w.server.log, k.cursor);
    var none: seq<Envelope> := [];
    assert none + w.server.log[k.cursor..] == w.server.log[k.cursor..];
    assert none + w.server.log[k.cursor + 1..] == w.server.log[k.cursor + 1..];
    assert k.wire + [] == k.wire;
  }

  /** One event has been taken and shown if it is new and passes; nothing else has changed. */
  predicate TakesOne(w: World, v: World, passes: bool)
    requires IsStreaming(w)
  {
    && |Awaiting(w)| > 0
    && var head := Awaiting(w)[0];
       && IsStreaming(v) && v.server == w.server && Awaiting(v) == Awaiting(w)[1..]
       && v.client.connection.maxEmitted == MarkAfter(head, w.client.connection.maxEmitted)
       && v.client.connection.wire == w.client.connection.wire + Shown(head, w.client.connection.maxEmitted, passes)
       && v.client.received == w.client.received && v.client.base == w.client.base
       && v.client.lastEventId == w.client.lastEventId
       && v.client.connection.cursor >= w.client.connection.cursor
  }

  /**
   Every poll in reach of the log takes exactly one event, the first of what awaits the client: it goes
   on the wire if its id is above the mark and it passes, and the mark follows. With nothing awaiting,
   a poll changes nothing.
   */
  lemma PollTakesOne(w: World, passes: bool)
    requires IsStreaming(w) && InReach(w)
    ensures if |Awaiting(w)| > 0 then TakesOne(w, Next(w, Poll(passes)), passes) else Next(w, Poll(passes)) == w
  {
    if |w.client.connection.prefix| > 0 {
      PollOfReplay(w, passes);
    } else if w.client.connection.cursor < |w.server.log| {
      PollOfLog(w, passes);
    }
  }

  /**
   A receiver lags when its replay is used up and more than 4096 events await it. Its next poll skips
   to the last 4096 of them and shows nothing; after that it is in reach.
   */
  lemma LaggingPollSkips(w: World, passes: bool)
    requires IsStreaming(w) && w.client.connection.prefix == []
    requires |w.server.log| - w.client.connection.cursor > 4096
    ensures var v := Next(w, Poll(passes));
            && v.server == w.server && IsStreaming(v) && InReach(v)
            && v.client == w.client.(connection := w.client.connection.(cursor := |w.server.log| - 4096))
  {
  }

  // --- Many polls --------------------------------------------------------------------------------

  lemma {:induction false} RunFromFirst(w: World, step: Step, rest: seq<Step>)
    ensures RunFrom(w, [step] + rest) == RunFrom(Next(w, step), rest)
  {
    hide Next;
    if |rest| == 0 {
      assert [step] + rest == [step] && [step][..0] == [];
    } else {
      var init, last := rest[..|rest| - 1], rest[|rest| - 1];
      RunFromFirst(w, step, init);
      assert ([step] + rest)[..|rest|] == [step] + init;
    }
  }

  lemma {:induction false} RunFromJoins(w: World, a: seq<Step>, b: seq<Step>)
    ensures RunFrom(w, a + b) == RunFrom(RunFrom(w, a), b)
  {
    hide Next;
    if |b| == 0 {
      assert a + b == a;
    } else {
      var init := b[..|b| - 1];
      RunFromJoins(w, a, init);
      assert (a + b)[..|a + b| - 1] == a + init;
    }
  }

  /** No step of a continuation is one on which the client goes wrong. */
  predicate NoMissFrom(w: World, steps: seq<Step>, f: Filter)
    decreases |steps|
  {
    |steps| > 0 ==> !Misses(w.server, w.client, steps[0], f) && NoMissFrom(Next(w, steps[0]), steps[1..], f)
  }

  lemma {:induction false} NoMissFromConcat(w: World, a: seq<Step>, b: seq<Step>, f: Filter)
    requires NoMissFrom(w, a, f) && NoMissFrom(RunFrom(w, a), b, f)
    ensures NoMissFrom(w, a + b, f)
    decreases |a|
  {
    hide Next, Misses;
    if |a| == 0 {
      assert a + b == b;
    } else {
      assert a == [a[0]] + a[1..];
      RunFromFirst(w, a[0], a[1..]);
      NoMissFromConcat(Next(w, a[0]), a[1..], b, f);
      assert (a + b)[1..] == a[1..] + b;
    }
  }

  /** A run without a miss, gone on with without one. */
  lemma {:induction false} NoMissOnTheWay(steps: seq<Step>, later: seq<Step>, f: Filter)
    requires NeverMisses(steps, f) && NoMissFrom(RunOf(steps), later, f)
    ensures NeverMisses(steps + later, f)
    decreases |later|
  {
    hide Misses, MissesAt, NeverMisses, Next;
    if |later| == 0 {
      assert steps + later == steps;
    } else {
      var first := later[0];
      NeverMissesSnoc(steps, first, f);
      assert (steps + [first])[..|steps|] == steps;
      NoMissOnTheWay(steps + [first], later[1..], f);
      assert steps + later == (steps + [first]) + later[1..];
    }
  }

  /** The poll that treats the next event as the filter says. */
  function PollBy(w: World, f: Filter): Step
    requires IsStreaming(w) && |Awaiting(w)| > 0
  {
    Poll(f(Awaiting(w)[0].event))
  }

  lemma PollByDoesNotMiss(w: World, f: Filter)
    requires IsStreaming(w) && InReach(w) && |Awaiting(w)| > 0
    ensures !Misses(w.server, w.client, PollBy(w, f), f)
  {
    var k := w.client.connection;
    if |k.prefix| > 0 {
      assert Awaiting(w)[0] == k.prefix[0];
    } else {
      RestOfLog(w.server.log, k.cursor);
    }
  }

  predicate AllPolls(steps: seq<Step>) {
    forall k :: 0 <= k < |steps| ==> steps[k].Poll?
  }

  predicate AllCompletes(steps: seq<Step>) {
    forall k :: 0 <= k < |steps| ==> steps[k].Complete?
  }

  /** As many polls as events await take them all. */
  lemma {:induction false} PollsTakeAll(w: World, f: Filter) returns (polls: seq<Step>)
    requires IsStreaming(w) && InReach(w)
    ensures AllPolls(polls) && |polls| == |Awaiting(w)| && NoMissFrom(w, polls, f)
    ensures var v := RunFrom(w, polls);
            && IsStreaming(v) && Awaiting(v) == [] && v.server == w.server
            && v.client.received == w.client.received && v.client.base == w.client.base
    decreases |Awaiting(w)|
  {
    hide Next, Misses;
    if |Awaiting(w)| == 0 {
      polls := [];
    } else {
      var step := PollBy(w, f);
      PollTakesOne(w, step.passes);
      PollByDoesNotMiss(w, f);
      var rest := PollsTakeAll(Next(w, step), f);
      polls := [step] + rest;
      RunFromFirst(w, step, rest);
      assert polls[1..] == rest;
    }
  }

  /** As many completed events as are on the wire clear it. */
  lemma {:induction false} CompletesClear(w: World, f: Filter) returns (completes: seq<Step>)
    requires IsStreaming(w)
    ensures AllCompletes(completes) && |completes| == |w.client.connection.wire| && NoMissFrom(w, completes, f)
    ensures var v := RunFrom(w, completes);
            && IsStreaming(v) && Awaiting(v) == Awaiting(w) && v.server == w.server && v.client.connection.wire == []
            && v.client.received == w.client.received + w.client.connection.wire && v.client.base == w.client.base
    decreases |w.client.connection.wire|
  {
    var wire := w.client.connection.wire;
    if |wire| == 0 {
      completes := [];
      assert w.client.received + wire == w.client.received;
    } else {
      var v := Next(w, Complete);
      assert v.server == w.server && v.client == CompleteClient(w.client);
      var rest := CompletesClear(v, f);
      completes := [Complete] + rest;
      RunFromFirst(w, Complete, rest);
      assert completes[1..] == rest;
      assert (w.client.received + [wire[0]]) + wire[1..] == w.client.received + wire;
    }
  }

  /** Nothing awaits the client and nothing is on its wire. */
  predicate IsDrained(w: World) {
    IsStreaming(w) && Awaiting(w) == [] && w.client.connection.wire == []
  }

  /**
   From every world in which a client streams within reach of the log, as many polls as events await it,
   each as the filter says, and then one completed read for each event on the wire drain it.
   */
  lemma CanDrain(w: World, f: Filter) returns (polls: seq<Step>, completes: seq<Step>)
    requires IsStreaming(w) && InReach(w)
    ensures AllPolls(polls) && |polls| == |Awaiting(w)| && AllCompletes(completes)
    ensures NoMissFrom(w, polls + completes, f)
    ensures var v := RunFrom(w, polls + completes);
            IsDrained(v) && v.server == w.server && v.client.base == w.client.base && w.client.received <= v.client.received
  {
    hide RunFrom, NoMissFrom, Awaiting, InReach;
    polls := PollsTakeAll(w, f);
    completes := CompletesClear(RunFrom(w, polls), f);
    RunFromJoins(w, polls, completes);
    NoMissFromConcat(w, polls, completes, f);
  }

  // --- Reachable worlds ----------------------------------------------------------------------------

  /** A streaming client's cursor never passes the log. */
  lemma {:induction false} CursorStaysInLog(steps: seq<Step>)
    ensures var w := RunOf(steps);
            match w.client.connection
            case Off => true
            case Subscribed(cursor) => cursor <= |w.server.log|
            case Streaming(_, cursor, _, _) => cursor <= |w.server.log|
  {
    hide After, ForwardClient, PushRing;
    if |steps| > 0 {
      CursorStaysInLog(steps[..|steps| - 1]);
      var w, step := RunOf(steps[..|steps| - 1]), steps[|steps| - 1];
      CursorStep(w.server, w.client, step);
    }
  }

  lemma CursorStep(s: Server, c: Client, step: Step)
    requires c.connection.Subscribed? ==> c.connection.cursor <= |s.log|
    requires c.connection.Streaming? ==> c.connection.cursor <= |s.log|
    ensures var d, t := NextClient(s, c, step), NextServer(s, step);
            && (d.connection.Subscribed? ==> d.connection.cursor <= |t.log|)
            && (d.connection.Streaming? ==> d.connection.cursor <= |t.log|)
  {
    hide After, PushRing;
  }

  /** Every passing event of the log after the starting point has been received, and nothing else. */
  predicate HasReceivedAll(w: World, f: Filter) {
    w.client.received == Passing(w.server.log, f, w.client.base, |w.server.log|)
  }

  lemma DrainedHasAll(steps: seq<Step>, f: Filter)
    requires NeverMisses(steps, f) && IsDrained(RunOf(steps)) && RunOf(steps).server.producer.Idle?
    ensures HasReceivedAll(RunOf(steps), f)
  {
    hide NeverMisses;
    var w := RunOf(steps);
    assert |Awaiting(w)| == |w.client.connection.prefix| + |w.server.log| - w.client.connection.cursor;
    DrainedMeansAll(steps, f);
  }

  /**
   The stream delivers: in every run without a miss that has come to an idle producer and a client
   streaming within reach, so many polls and reads later the client has received exactly the passing
   events of the whole log, and still none was missed.
   */
  lemma StreamDelivers(steps: seq<Step>, f: Filter) returns (later: seq<Step>)
    requires NeverMisses(steps, f) && RunOf(steps).server.producer.Idle? && RunOf(steps).client.connection.Streaming?
    requires |RunOf(steps).server.log| - RunOf(steps).client.connection.cursor <= 4096
    ensures forall k :: 0 <= k < |later| ==> later[k].Poll? || later[k].Complete?
    ensures NeverMisses(steps + later, f)
    ensures var w, v := RunOf(steps), RunOf(steps + later);
            IsDrained(v) && v.server == w.server && v.client.base == w.client.base && HasReceivedAll(v, f)
  {
    CursorStaysInLog(steps);
    var w := RunOf(steps);
    hide RunOf, NeverMisses, NoMissFrom, HasReceivedAll, IsDrained;
    var polls, completes := CanDrain(w, f);
    later := polls + completes;
    NoMissOnTheWay(steps, later, f);
    RunsJoin(steps, later);
    DrainedHasAll(steps + later, f);
  }

  /** Connecting and taking the snapshot puts a client at the end of the log with its replay before it. */
  lemma Reconnected(w: World)
    requires w.client.connection.Off?
    ensures var v := RunFrom(w, [Connect, TakeSnapshot]);
            && v.server == w.server && v.client.connection.Streaming? && v.client.connection.cursor == |w.server.log|
            && v.client.base == if w.client.lastEventId.Some? then w.client.base else |w.server.log|
  {
    hide After;
    RunFromFirst(w, Connect, [TakeSnapshot]);
    RunFromFirst(Next(w, Connect), TakeSnapshot, []);
    assert [TakeSnapshot] + [] == [TakeSnapshot] && [Connect] + [TakeSnapshot] == [Connect, TakeSnapshot];
  }

  lemma ReconnectDoesNotMiss(w: World, f: Filter)
    requires w.client.connection.Off?
    requires w.client.lastEventId.Some? ==>
               NonePass(w.server.pushed, f, w.client.lastEventId.value, |w.server.pushed| - 4096)
    ensures NoMissFrom(w, [Connect, TakeSnapshot], f)
  {
    hide After, NonePass;
    var steps := [Connect, TakeSnapshot];
    assert steps[1..] == [TakeSnapshot] && steps[1..][1..] == [];
    assert NoMissFrom(Next(Next(w, Connect), TakeSnapshot), steps[1..][1..], f);
  }

  /**
   So does a reconnection: a client that was off, with no passing event older than the ring since its
   stored id, has received every passing event of the log once it has connected again and drained.
   */
  lemma ReconnectionCatchesUp(steps: seq<Step>, f: Filter) returns (later: seq<Step>)
    requires NeverMisses(steps, f) && RunOf(steps).server.producer.Idle? && RunOf(steps).client.connection.Off?
    requires var w := RunOf(steps);
             w.client.lastEventId.Some? ==>
               NonePass(w.server.pushed, f, w.client.lastEventId.value, |w.server.pushed| - 4096)
    ensures |later| >= 2 && later[..2] == [Connect, TakeSnapshot]
    ensures forall k :: 2 <= k < |later| ==> later[k].Poll? || later[k].Complete?
    ensures NeverMisses(steps + later, f)
    ensures var w, v := RunOf(steps), RunOf(steps + later);
            && IsDrained(v) && v.server == w.server && HasReceivedAll(v, f)
            && v.client.base == if w.client.lastEventId.Some? then w.client.base else |w.server.log|
  {
    var w := RunOf(steps);
    var back := [Connect, TakeSnapshot];
    hide RunOf, RunFrom, NeverMisses, NoMissFrom, HasReceivedAll, IsDrained, NonePass;
    Reconnected(w);
    ReconnectDoesNotMiss(w, f);
    NoMissOnTheWay(steps, back, f);
    RunsJoin(steps, back);
    var rest := StreamDelivers(steps + back, f);
    later := back + rest;
    assert steps + later == (steps + back) + rest;
  }
}
