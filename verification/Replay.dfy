/**
 The event stream and its replay ring: the producer allocates an id, pushes to the ring and then
 sends; a client subscribes, takes a snapshot of the ring and drains. Every interleaving of
 the two is a run of the state machine below. The broadcast channel is a log with a cursor.
 */
module Replay {
  import opened Wrappers
  import opened Tracker

  const REPLAY_CAPACITY := 4096
  const BROADCAST_CAPACITY := 4096

  datatype Envelope = Envelope(id: nat, event: StateEvent)

  // --- The ring ------------------------------------------------------------------------------

  function PushRing(ring: seq<Envelope>, env: Envelope): seq<Envelope> {
    if |ring| >= REPLAY_CAPACITY then ring[1..] + [env] else ring + [env]
  }

  /** The events of the ring with an id above `last`, in order. */
  function After(ring: seq<Envelope>, last: nat): seq<Envelope> {
    if |ring| == 0 then []
    else
      var rest := After(ring[..|ring| - 1], last);
      if ring[|ring| - 1].id > last then rest + [ring[|ring| - 1]] else rest
  }

  class ReplayRing {
    var ring: seq<Envelope>

    constructor ()
      ensures ring == []
    {
      ring := [];
    }

    method PushReplay(env: Envelope)
      modifies this
      ensures ring == PushRing(old(ring), env)
    {
      if |ring| >= REPLAY_CAPACITY {
        ring := ring[1..];
      }
      ring := ring + [env];
    }

    method ReplayAfter(last: nat) returns (events: seq<Envelope>)
      ensures events == After(ring, last)
    {
      events := [];
      for k := 0 to |ring|
        invariant events == After(ring[..k], last)
      {
        assert ring[..k + 1][..k] == ring[..k];
        if ring[k].id > last {
          events := events + [ring[k]];
        }
      }
      assert ring[..|ring|] == ring;
    }
  }

  // --- The stream ----------------------------------------------------------------------------

  /** The filter closure: forwards an event once, if the client's filters let it pass. */
  class SseStream {
    var maxEmitted: nat

    constructor (lastEventId: Option<nat>)
      ensures maxEmitted == if lastEventId.Some? then lastEventId.value else 0
    {
      maxEmitted := if lastEventId.Some? then lastEventId.value else 0;
    }

    /** `item` is `None` where the receiver reports that it lagged. */
    method Forward(item: Option<Envelope>, passes: bool) returns (out: Option<Envelope>)
      modifies this
      ensures maxEmitted == if item.Some? && item.value.id > old(maxEmitted) then item.value.id else old(maxEmitted)
      ensures out == if item.Some? && item.value.id > old(maxEmitted) && passes then item else None
    {
      if item.None? {
        return None;
      }
      if item.value.id <= maxEmitted {
        return None;
      }
      maxEmitted := item.value.id;
      out := if passes then item else None;
    }
  }

  // --- The two sides as a state machine --------------------------------------------------------

  datatype Producer = Idle | Allocated(env: Envelope) | Pushed(env: Envelope)

  /** `pushed` is everything ever pushed to the ring, `log` everything ever sent. */
  datatype Server = Server(nextId: nat, producer: Producer, pushed: seq<Envelope>, ring: seq<Envelope>, log: seq<Envelope>)

  datatype Connection =
    | Off
    | Subscribed(cursor: nat)
    | Streaming(prefix: seq<Envelope>, cursor: nat, maxEmitted: nat, wire: seq<nat>)

  /** The client keeps the id of its last complete event; its stream is what comes after `base`. */
  datatype Client = Client(received: seq<nat>, lastEventId: Option<nat>, connection: Connection, base: nat)

  datatype World = World(server: Server, client: Client)

  datatype Step =
    | Allocate(event: StateEvent)
    | Push
    | Send
    | Restore(header: Option<nat>)
    | Connect
    | TakeSnapshot
    | Poll(passes: bool)
    | Complete
    | Disconnect

  function InitialWorld(): World {
    World(Server(1, Idle, [], [], []), Client([], None, Off, 0))
  }

  /** The client starts over with any stored id, say one of an earlier life of the server, or with none. */
  function RestoreClient(header: Option<nat>): Client {
    Client([], header, Off, if header.Some? then header.value else 0)
  }

  function ConnectClient(s: Server, c: Client): Client {
    c.(connection := Subscribed(|s.log|), base := if c.lastEventId.None? then |s.log| else c.base)
  }

  function SnapshotClient(s: Server, c: Client): Client
    requires c.connection.Subscribed?
  {
    match c.lastEventId
    case None => c.(connection := Streaming([], c.connection.cursor, 0, []))
    case Some(last) => c.(connection := Streaming(After(s.ring, last), c.connection.cursor, last, []))
  }

  /** One event through the filter closure. */
  function ForwardClient(c: Client, env: Envelope, passes: bool): Client
    requires c.connection.Streaming?
  {
    var k := c.connection;
    if env.id <= k.maxEmitted then c
    else if passes then c.(connection := k.(maxEmitted := env.id, wire := k.wire + [env.id]))
    else c.(connection := k.(maxEmitted := env.id))
  }

  /** The replay is used up and the receiver is further behind than the channel holds. */
  predicate IsLagging(s: Server, c: Client) {
    && c.connection.Streaming? && c.connection.prefix == []
    && |s.log| - c.connection.cursor > BROADCAST_CAPACITY
  }

  /** The next item of replay, then live; a receiver too far behind skips to the oldest event retained. */
  function PollClient(s: Server, c: Client, passes: bool): Client
    requires c.connection.Streaming?
  {
    var k := c.connection;
    if |k.prefix| > 0 then ForwardClient(c.(connection := k.(prefix := k.prefix[1..])), k.prefix[0], passes)
    else if IsLagging(s, c) then c.(connection := k.(cursor := |s.log| - BROADCAST_CAPACITY))
    else if k.cursor < |s.log| then ForwardClient(c.(connection := k.(cursor := k.cursor + 1)), s.log[k.cursor], passes)
    else c
  }

  function NextServer(s: Server, step: Step): Server {
    match step
    case Allocate(event) =>
      if s.producer.Idle? then s.(nextId := s.nextId + 1, producer := Allocated(Envelope(s.nextId, event))) else s
    case Push =>
      if s.producer.Allocated? then
        var env := s.producer.env;
        s.(producer := Pushed(env), pushed := s.pushed + [env], ring := PushRing(s.ring, env))
      else s
    case Send =>
      if s.producer.Pushed? then s.(producer := Idle, log := s.log + [s.producer.env]) else s
    case _ => s
  }

  /** The client has read a whole event off the wire. */
  function CompleteClient(c: Client): Client
    requires c.connection.Streaming? && |c.connection.wire| > 0
  {
    var id := c.connection.wire[0];
    c.(received := c.received + [id], lastEventId := Some(id),
       connection := c.connection.(wire := c.connection.wire[1..]))
  }

  function NextClient(s: Server, c: Client, step: Step): Client {
    match step
    case Restore(header) => if c.connection.Off? then RestoreClient(header) else c
    case Connect => if c.connection.Off? then ConnectClient(s, c) else c
    case TakeSnapshot => if c.connection.Subscribed? then SnapshotClient(s, c) else c
    case Poll(passes) => if c.connection.Streaming? then PollClient(s, c, passes) else c
    case Complete => if c.connection.Streaming? && |c.connection.wire| > 0 then CompleteClient(c) else c
    case Disconnect => c.(connection := Off)
    case _ => c
  }

  function Next(w: World, step: Step): World {
    World(NextServer(w.server, step), NextClient(w.server, w.client, step))
  }

  function RunOf(steps: seq<Step>): World {
    if |steps| == 0 then InitialWorld() else Next(RunOf(steps[..|steps| - 1]), steps[|steps| - 1])
  }

  // --- The server ------------------------------------------------------------------------------

  /** Ids count up from 1 in the order of pushing. */
  predicate Numbered(envs: seq<Envelope>) {
    forall i :: 0 <= i < |envs| ==> envs[i].id == i + 1
  }

  /** The ring is the tail of everything pushed, as long as its capacity allows. */
  predicate IsRing(ring: seq<Envelope>, pushed: seq<Envelope>) {
    && |ring| == (if |pushed| < REPLAY_CAPACITY then |pushed| else REPLAY_CAPACITY)
    && ring == pushed[|pushed| - |ring|..]
  }

  lemma PushKeepsRing(ring: seq<Envelope>, pushed: seq<Envelope>, env: Envelope)
    requires IsRing(ring, pushed)
    ensures IsRing(PushRing(ring, env), pushed + [env])
  {
    var all := pushed + [env];
    if |ring| >= REPLAY_CAPACITY {
      assert all[|all| - REPLAY_CAPACITY..] == pushed[|pushed| - REPLAY_CAPACITY + 1..] + [env];
      assert ring[1..] == pushed[|pushed| - REPLAY_CAPACITY + 1..];
    }
  }

  predicate ServerOk(s: Server) {
    && Numbered(s.pushed)
    && IsRing(s.ring, s.pushed)
    && match s.producer
       case Idle => s.log == s.pushed && s.nextId == |s.pushed| + 1
       case Allocated(env) => s.log == s.pushed && env.id == |s.pushed| + 1 && s.nextId == env.id + 1
       case Pushed(env) => s.pushed == s.log + [env] && env.id == |s.pushed| && s.nextId == env.id + 1
  }

  lemma ServerStaysOk(s: Server, step: Step)
    requires ServerOk(s)
    ensures var t := NextServer(s, step); ServerOk(t) && |s.log| <= |t.log| && |s.pushed| <= |t.pushed|
  {
    hide IsRing, PushRing;
    if step.Push? && s.producer.Allocated? {
      PushKeepsRing(s.ring, s.pushed, s.producer.env);
    }
  }

  lemma LogIsPrefix(s: Server)
    requires ServerOk(s)
    ensures |s.log| <= |s.pushed| && s.log == s.pushed[..|s.log|] && Numbered(s.log)
  {
  }

  lemma AfterSnoc(init: seq<Envelope>, e: Envelope, last: nat)
    ensures After(init + [e], last) == if e.id > last then After(init, last) + [e] else After(init, last)
  {
    assert (init + [e])[..|init|] == init;
  }

  /** What the ring holds after `last`: everything since, as far as it reaches. */
  lemma {:induction false} AfterIsSuffix(ring: seq<Envelope>, first: nat, last: nat)
    requires forall i :: 0 <= i < |ring| ==> ring[i].id == first + i
    ensures After(ring, last) ==
            if last < first then ring else if last - first < |ring| then ring[last - first + 1..] else []
  {
    if |ring| > 0 {
      var init, e := ring[..|ring| - 1], ring[|ring| - 1];
      AfterIsSuffix(init, first, last);
      hide After;
      AfterSnoc(init, e, last);
      assert ring == init + [e];
    }
  }

  // --- Order -----------------------------------------------------------------------------------

  predicate Increasing(ids: seq<nat>) {
    forall i, j :: 0 <= i < j < |ids| ==> ids[i] < ids[j]
  }

  predicate Below(ids: seq<nat>, bound: nat) {
    forall i :: 0 <= i < |ids| ==> ids[i] <= bound
  }

  function Wire(c: Client): seq<nat> {
    if c.connection.Streaming? then c.connection.wire else []
  }

  /** What was received and what is on the wire only ever counts up. */
  predicate OrderOk(c: Client) {
    && Increasing(c.received + Wire(c))
    && (c.connection.Streaming? ==> Below(c.received + Wire(c), c.connection.maxEmitted))
    && (|c.received| > 0 ==> c.lastEventId == Some(c.received[|c.received| - 1]))
  }

  lemma CompleteKeepsOrder(c: Client)
    requires OrderOk(c) && c.connection.Streaming? && |c.connection.wire| > 0
    ensures OrderOk(CompleteClient(c))
  {
    var wire := c.connection.wire;
    assert (c.received + [wire[0]]) + wire[1..] == c.received + wire;
  }

  lemma EmptyWireKeepsOrder(c: Client, d: Client)
    requires OrderOk(c) && d.received == c.received && d.lastEventId == c.lastEventId && Wire(d) == []
    requires d.connection.Streaming? ==> !c.connection.Streaming?
    requires d.connection.Streaming? ==>
               d.connection.maxEmitted == if d.lastEventId.Some? then d.lastEventId.value else 0
    ensures OrderOk(d)
  {
    assert c.received + [] == c.received;
    assert c.received == (c.received + Wire(c))[..|c.received|];
  }

  lemma RestoreIsInOrder(header: Option<nat>)
    ensures OrderOk(RestoreClient(header))
  {
  }

  lemma OrderStays(s: Server, c: Client, step: Step)
    requires OrderOk(c)
    ensures OrderOk(NextClient(s, c, step))
  {
    hide OrderOk, PollClient, CompleteClient, After;
    match step
    case Restore(header) =>
      RestoreIsInOrder(header);
    case Poll(passes) =>
      if c.connection.Streaming? {
        PollKeepsOrder(s, c, passes);
      }
    case Complete =>
      if c.connection.Streaming? && |c.connection.wire| > 0 {
        CompleteKeepsOrder(c);
      }
    case TakeSnapshot =>
      if c.connection.Subscribed? {
        EmptyWireKeepsOrder(c, SnapshotClient(s, c));
      }
    case Connect =>
      if c.connection.Off? {
        EmptyWireKeepsOrder(c, ConnectClient(s, c));
      }
    case Disconnect =>
      EmptyWireKeepsOrder(c, c.(connection := Off));
    case _ =>
  }

  lemma ForwardKeepsOrder(c: Client, env: Envelope, passes: bool)
    requires OrderOk(c) && c.connection.Streaming?
    ensures OrderOk(ForwardClient(c, env, passes))
  {
    if env.id > c.connection.maxEmitted && passes {
      assert c.received + (Wire(c) + [env.id]) == (c.received + Wire(c)) + [env.id];
    }
  }

  lemma PollKeepsOrder(s: Server, c: Client, passes: bool)
    requires OrderOk(c) && c.connection.Streaming?
    ensures OrderOk(PollClient(s, c, passes))
  {
    hide ForwardClient;
    var k := c.connection;
    if |k.prefix| > 0 {
      ForwardKeepsOrder(c.(connection := k.(prefix := k.prefix[1..])), k.prefix[0], passes);
    } else if !IsLagging(s, c) && k.cursor < |s.log| {
      ForwardKeepsOrder(c.(connection := k.(cursor := k.cursor + 1)), s.log[k.cursor], passes);
    }
  }

  /**
   In every run, with any filters, any lag and any number of reconnects, the ids a client receives
   are strictly increasing: nothing is delivered twice, nothing out of order.
   */
  lemma {:induction false} ReceivedIsIncreasing(steps: seq<Step>)
    ensures OrderOk(RunOf(steps).client) && Increasing(RunOf(steps).client.received)
  {
    hide NextServer, NextClient;
    if |steps| > 0 {
      ReceivedIsIncreasing(steps[..|steps| - 1]);
      var w := RunOf(steps[..|steps| - 1]);
      OrderStays(w.server, w.client, steps[|steps| - 1]);
    } else {
      assert InitialWorld().client.received + Wire(InitialWorld().client) == [];
    }
    var c := RunOf(steps).client;
    assert c.received == (c.received + Wire(c))[..|c.received|];
  }
}
