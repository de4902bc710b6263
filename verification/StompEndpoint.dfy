/**
 The STOMP endpoint over its broker. Broker calls are atomic; between them any other connection or
 publisher may act, so a subscription exists for a moment before the connection records its id, and a
 closing connection gives up its subscriptions one call at a time.
 */
module StompEndpoint {
  import opened Common
  import opened Decimal
  import opened StompCodec
  import opened StompBroker

  // ---------------------------------------------------------------- what a frame asks for

  datatype Request =
    | Reject(message: string)
    | Accept(outgoing: nat, incoming: nat)
    | AskSubscribe(destination: string, id: string, mode: AckMode)
    | AskUnsubscribe(id: string)
    | AskSend(destination: string, body: string)
    | AskAck(id: string)
    | AskNack(id: string)
    | Disconnect

  /** `needle` occurs in `s` at or after `from`. */
  predicate Contains(s: string, needle: string, from: nat)
    decreases |s| - from
  {
    from + |needle| <= |s| && (s[from..from + |needle|] == needle || Contains(s, needle, from + 1))
  }

  datatype Heartbeat = Heartbeat(outgoing: nat, incoming: nat)

  function ParseHeartbeat(value: string): Option<Heartbeat> {
    if value == "" then Some(Heartbeat(0, 0))
    else
      var comma := Find(value, ',', 0);
      if comma == |value| then None
      else
        var outgoing, incoming := ParseSize(value[..comma]), ParseSize(value[comma + 1..]);
        if outgoing.None? || incoming.None? then None else Some(Heartbeat(outgoing.value, incoming.value))
  }

  function Negotiated(client: nat, server: nat): nat { if client == 0 || server == 0 then 0 else Max(client, server) }

  function ModeOf(ack: string): Option<AckMode> {
    if ack == "" || ack == "auto" then Some(Auto)
    else if ack == "client" then Some(Client)
    else if ack == "client-individual" then Some(ClientIndividual)
    else None
  }

  /** The dispatch of `process_frame`, for server heart-beat periods `out` and `in_`. */
  function Decide(connected: bool, f: Frame, out: nat, in_: nat): Request {
    if !connected then
      var versions, beat := HeaderOf(f, "accept-version"), ParseHeartbeat(HeaderOf(f, "heart-beat"));
      if f.command != "CONNECT" && f.command != "STOMP" then Reject("CONNECT or STOMP must be the first frame")
      else if versions == "" || !Contains(versions, "1.2", 0) then Reject("STOMP 1.2 is required")
      else if beat.None? then Reject("invalid STOMP heart-beat header")
      else Accept(Negotiated(beat.value.outgoing, in_), Negotiated(beat.value.incoming, out))
    else if f.command == "SUBSCRIBE" then
      var destination, id, mode := HeaderOf(f, "destination"), HeaderOf(f, "id"), ModeOf(HeaderOf(f, "ack"));
      if destination == "" || id == "" || mode.None? then Reject("invalid STOMP subscription")
      else AskSubscribe(destination, id, mode.value)
    else if f.command == "UNSUBSCRIBE" then
      if HeaderOf(f, "id") == "" then Reject("UNSUBSCRIBE requires id") else AskUnsubscribe(HeaderOf(f, "id"))
    else if f.command == "SEND" then AskSend(HeaderOf(f, "destination"), f.body)
    else if f.command == "ACK" || f.command == "NACK" then
      var id := HeaderOf(f, "id");
      if id == "" then Reject("unknown STOMP acknowledgement id")
      else if f.command == "ACK" then AskAck(id) else AskNack(id)
    else if f.command == "DISCONNECT" then Disconnect
    else Reject("unsupported STOMP command")
  }

  // ---------------------------------------------------------------- the system and its steps

  /** `subscribing` is an id the broker already knows and the connection has not recorded yet. */
  datatype Connection = Connection(connected: bool, principal: string, ids: seq<string>, subscribing: Option<string>)

  /** `closing` holds, for a connection being closed, the ids still to be given up. */
  datatype System = System(
    broker: Broker, connections: map<SessionId, Connection>, closing: map<SessionId, seq<string>>, used: set<SessionId>)

  const START := System(EMPTY_BROKER, map[], map[], {})

  datatype Step =
    | Open(session: SessionId, principal: string)
    | Connect(session: SessionId)
    | SubscribeCall(session: SessionId, destination: string, id: string, mode: AckMode, active: bool)
    | SubscribeRecord(session: SessionId)
    | UnsubscribeCall(session: SessionId, id: string)
    | Publish(destination: string, body: string, headers: map<string, string>, live: set<SessionId>,
        outcomes: nat -> Delivery)
    | Ack(session: SessionId, ackId: string)
    | CloseBegin(session: SessionId)
    | CloseNext(session: SessionId)

  /** A connection's own steps run on one thread, in the order the code takes them. */
  predicate Enabled(sys: System, step: Step) {
    match step
    case Open(s, _) => s !in sys.used && s != 0
    case Connect(s) => s in sys.connections && !sys.connections[s].connected
    case SubscribeCall(s, _, id, _, _) => Idle(sys, s) && id != ""
    case SubscribeRecord(s) => s in sys.connections && sys.connections[s].subscribing.Some?
    case UnsubscribeCall(s, id) => Idle(sys, s) && id != ""
    case Publish(_, _, _, _, _) => true
    case Ack(s, _) => Idle(sys, s)
    case CloseBegin(s) => s in sys.connections && sys.connections[s].subscribing.None?
    case CloseNext(s) => s in sys.closing
  }

  predicate Idle(sys: System, s: SessionId) {
    s in sys.connections && sys.connections[s].connected && sys.connections[s].subscribing.None?
  }

  function Removed(ids: seq<string>, id: string): seq<string> {
    if ids == [] then []
    else Removed(ids[..|ids| - 1], id) + if ids[|ids| - 1] == id then [] else [ids[|ids| - 1]]
  }

  function Apply(sys: System, step: Step): System
    requires Enabled(sys, step)
  {
    match step
    case Open(s, principal) =>
      sys.(connections := sys.connections[s := Connection(false, principal, [], None)], used := sys.used + {s})
    case Connect(s) =>
      sys.(connections := sys.connections[s := sys.connections[s].(connected := true)])
    case SubscribeCall(s, destination, id, mode, active) =>
      var conn := sys.connections[s];
      var x := Subscription(s, id, mode, conn.principal);
      sys.(broker := Subscribed(sys.broker, destination, x, active),
           connections := if MaySubscribe(destination, x, active)
                          then sys.connections[s := conn.(subscribing := Some(id))] else sys.connections)
    case SubscribeRecord(s) =>
      var conn := sys.connections[s];
      sys.(connections := sys.connections[s := conn.(ids := conn.ids + [conn.subscribing.value], subscribing := None)])
    case UnsubscribeCall(s, id) =>
      var conn := sys.connections[s];
      sys.(broker := Unsubscribed(sys.broker, s, id),
           connections := sys.connections[s := conn.(ids := Removed(conn.ids, id))])
    case Publish(destination, body, headers, live, outcomes) =>
      sys.(broker := Published(sys.broker, destination, body, headers, live, outcomes))
    case Ack(s, ackId) => sys.(broker := Acknowledged(sys.broker, s, ackId))
    case CloseBegin(s) =>
      var ids := sys.connections[s].ids;
      sys.(connections := sys.connections - {s}, closing := if ids == [] then sys.closing else sys.closing[s := ids])
    case CloseNext(s) =>
      var ids := sys.closing[s];
      if ids == [] then sys.(closing := sys.closing - {s})
      else
        sys.(broker := Unsubscribed(sys.broker, s, ids[0]),
             closing := if |ids| == 1 then sys.closing - {s} else sys.closing[s := ids[1..]])
  }

  // ---------------------------------------------------------------- the invariant

  /** The ids a connection answers for, including one in flight and those it is giving up. */
  function Recorded(sys: System, s: SessionId): set<string> {
    (if s in sys.connections then
       (set id | id in sys.connections[s].ids) +
       (if sys.connections[s].subscribing.Some? then {sys.connections[s].subscribing.value} else {})
     else {}) +
    (if s in sys.closing then set id | id in sys.closing[s] else {})
  }

  ghost predicate Inv(sys: System) {
    && Ordered(sys.broker)
    && (forall s, id :: HasSubscription(sys.broker, s, id) ==> id in Recorded(sys, s))
    && (forall s :: s in sys.broker.pending ==> Recorded(sys, s) != {})
    && sys.connections.Keys <= sys.used && sys.closing.Keys <= sys.used && sys.connections.Keys !! sys.closing.Keys
  }

  lemma {:induction false} RemovedIs(ids: seq<string>, id: string)
    ensures forall x :: x in Removed(ids, id) <==> x in ids && x != id
  {
    if ids != [] {
      RemovedIs(ids[..|ids| - 1], id);
      assert ids == ids[..|ids| - 1] + [ids[|ids| - 1]];
    }
  }

  /** After an unsubscribe the session keeps exactly its subscriptions under other ids, and no pending ack. */
  lemma UnsubscribedHas(b: Broker, s: SessionId, id: string)
    ensures var b' := Unsubscribed(b, s, id);
            && (forall t, x :: HasSubscription(b', t, x) <==> HasSubscription(b, t, x) && !(t == s && x == id))
            && b'.pending == b.pending - {s}
            && (Ordered(b) ==> Ordered(b'))
  {
    hide InOrder, Cleaned;
    var b' := Unsubscribed(b, s, id);
    var gone := (y: Subscription) => SameSubscriber(y, s, id);
    forall t, x | HasSubscription(b', t, x) ensures HasSubscription(b, t, x) && !(t == s && x == id) {
      var d, y :| d in b'.subscriptions && y in b'.subscriptions[d] && y.session == t && y.id == x;
      CleanedHas(b.subscriptions, gone, d, y);
    }
    forall t, x | HasSubscription(b, t, x) && !(t == s && x == id) ensures HasSubscription(b', t, x) {
      var d, y :| d in b.subscriptions && y in b.subscriptions[d] && y.session == t && y.id == x;
      CleanedKeeps(b.subscriptions, gone, d, y);
    }
  }

  lemma SubscribedHas(b: Broker, destination: string, x: Subscription, active: bool)
    ensures var b' := Subscribed(b, destination, x, active);
            && (forall t, id :: HasSubscription(b', t, id) <==>
                  HasSubscription(b, t, id) || (t == x.session && id == x.id && MaySubscribe(destination, x, active)))
            && b'.pending == b.pending && (Ordered(b) ==> Ordered(b'))
  {
    hide InOrder, Upsert;
    var b' := Subscribed(b, destination, x, active);
    forall t, id | HasSubscription(b', t, id)
      ensures HasSubscription(b, t, id) || (t == x.session && id == x.id && MaySubscribe(destination, x, active))
    {
      var d, y :| d in b'.subscriptions && y in b'.subscriptions[d] && y.session == t && y.id == id;
      if MaySubscribe(destination, x, active) && d == destination {
        UpsertHas(At(b.subscriptions, destination), x, y);
      }
    }
    if MaySubscribe(destination, x, active) {
      UpsertHas(At(b.subscriptions, destination), x, x);
      assert HasSubscription(b', x.session, x.id) by { assert x in b'.subscriptions[destination]; }
    }
    forall t, id | HasSubscription(b, t, id) && !(t == x.session && id == x.id) ensures HasSubscription(b', t, id) {
      var d, y :| d in b.subscriptions && y in b.subscriptions[d] && y.session == t && y.id == id;
      if d == destination { UpsertHas(At(b.subscriptions, destination), x, y); }
      assert y in b'.subscriptions[d];
    }
  }

  lemma ApplyKeeps(sys: System, step: Step)
    requires Inv(sys) && Enabled(sys, step)
    ensures Inv(Apply(sys, step))
  {
    hide Inv, Apply;
    match step
    case Open(_, _) => ConnectionKeeps(sys, step);
    case Connect(_) => ConnectionKeeps(sys, step);
    case CloseBegin(_) => ConnectionKeeps(sys, step);
    case SubscribeCall(_, _, _, _, _) => SubscribeCallKeeps(sys, step);
    case SubscribeRecord(_) => SubscribeRecordKeeps(sys, step);
    case UnsubscribeCall(_, _) => UnsubscribeCallKeeps(sys, step);
    case Publish(_, _, _, _, _) => PublishKeeps(sys, step);
    case Ack(_, _) => AckKeeps(sys, step);
    case CloseNext(_) => CloseNextKeeps(sys, step);
  }

  /** Steps that leave the broker alone only move ids between the connection and its closing. */
  lemma ConnectionKeeps(sys: System, step: Step)
    requires Inv(sys) && Enabled(sys, step) && (step.Open? || step.Connect? || step.CloseBegin?)
    ensures Inv(Apply(sys, step))
  {
    hide Ordered, HasSubscription;
    var next := Apply(sys, step);
    forall s ensures Recorded(sys, s) == Recorded(next, s) {}
  }

  lemma UnsubscribeCallKeeps(sys: System, step: Step)
    requires Inv(sys) && step.UnsubscribeCall? && Enabled(sys, step)
    ensures Inv(Apply(sys, step))
  {
    hide Ordered, HasSubscription, Unsubscribed, Removed;
    UnsubscribedHas(sys.broker, step.session, step.id);
    RemovedIs(sys.connections[step.session].ids, step.id);
    var next := Apply(sys, step);
    forall t | t != step.session ensures Recorded(next, t) == Recorded(sys, t) {}
  }

  lemma SubscribeCallKeeps(sys: System, step: Step)
    requires Inv(sys) && step.SubscribeCall? && Enabled(sys, step)
    ensures Inv(Apply(sys, step))
  {
    hide Ordered, HasSubscription, Subscribed, MaySubscribe;
    var conn := sys.connections[step.session];
    SubscribedHas(sys.broker, step.destination, Subscription(step.session, step.id, step.mode, conn.principal),
        step.active);
    var next := Apply(sys, step);
    forall s ensures Recorded(sys, s) <= Recorded(next, s) {}
  }

  lemma SubscribeRecordKeeps(sys: System, step: Step)
    requires Inv(sys) && step.SubscribeRecord? && Enabled(sys, step)
    ensures Inv(Apply(sys, step))
  {
    hide Ordered, HasSubscription;
    var next := Apply(sys, step);
    forall s ensures Recorded(sys, s) == Recorded(next, s) {}
  }

  lemma PublishKeeps(sys: System, step: Step)
    requires Inv(sys) && step.Publish?
    ensures Inv(Apply(sys, step))
  {
    hide Ordered, HasSubscription, Published;
    PublishedKeeps(sys.broker, step.destination, step.body, step.headers, step.live, step.outcomes);
    var next := Apply(sys, step);
    forall s ensures Recorded(sys, s) == Recorded(next, s) {}
  }

  lemma AckKeeps(sys: System, step: Step)
    requires Inv(sys) && step.Ack? && Enabled(sys, step)
    ensures Inv(Apply(sys, step))
  {
    hide Ordered, HasSubscription;
    AcknowledgedKeeps(sys.broker, step.session, step.ackId);
    var next := Apply(sys, step);
    SameSubscriptions(sys.broker, next.broker);
    forall s ensures Recorded(sys, s) == Recorded(next, s) {}
  }

  lemma SameSubscriptions(a: Broker, b: Broker)
    requires a.subscriptions == b.subscriptions
    ensures forall s, id :: HasSubscription(a, s, id) <==> HasSubscription(b, s, id)
  {
  }

  lemma CloseNextKeeps(sys: System, step: Step)
    requires Inv(sys) && step.CloseNext? && Enabled(sys, step)
    ensures Inv(Apply(sys, step))
  {
    hide Ordered, HasSubscription, Unsubscribed;
    var s, next := step.session, Apply(sys, step);
    var ids := sys.closing[s];
    forall t | t != s ensures Recorded(next, t) == Recorded(sys, t) {}
    if ids != [] {
      UnsubscribedHas(sys.broker, s, ids[0]);
      assert forall id :: id in ids <==> id == ids[0] || id in ids[1..];
      assert |ids| == 1 ==> ids[1..] == [];
    }
  }

  // ---------------------------------------------------------------- every run

  predicate IsRun(sys: System, steps: seq<Step>)
    decreases |steps|
  {
    steps == [] || (Enabled(sys, steps[0]) && IsRun(Apply(sys, steps[0]), steps[1..]))
  }

  function RunSteps(sys: System, steps: seq<Step>): System
    requires IsRun(sys, steps)
    decreases |steps|
  {
    if steps == [] then sys else RunSteps(Apply(sys, steps[0]), steps[1..])
  }

  lemma {:induction false} RunKeeps(sys: System, steps: seq<Step>)
    requires Inv(sys) && IsRun(sys, steps)
    ensures Inv(RunSteps(sys, steps))
    decreases |steps|
  {
    hide Inv, Apply, Enabled;
    if steps != [] {
      ApplyKeeps(sys, steps[0]);
      RunKeeps(Apply(sys, steps[0]), steps[1..]);
    }
  }

  /**
   In every reachable state: broker subscriptions are recorded by their connection, pending acks exist only
   for connections with recorded ids, and their sequences increase. So nothing is left of a connection that
   has been closed: no subscription, no pending ack.
   */
  lemma NothingOutlivesAConnection(steps: seq<Step>, s: SessionId)
    requires IsRun(START, steps)
    ensures var sys := RunSteps(START, steps);
            && (forall id :: HasSubscription(sys.broker, s, id) ==> id in Recorded(sys, s))
            && (s in sys.broker.pending ==>
                  Recorded(sys, s) != {} && InOrder(sys.broker.pending[s], sys.broker.nextSequence))
            && (s !in sys.connections && s !in sys.closing ==>
                  s !in sys.broker.pending && forall id :: !HasSubscription(sys.broker, s, id))
  {
    RunKeeps(START, steps);
  }

  lemma {:induction false} NoDuplicatesEver(sys: System, steps: seq<Step>)
    requires WithoutDuplicates(sys.broker.subscriptions) && IsRun(sys, steps)
    ensures WithoutDuplicates(RunSteps(sys, steps).broker.subscriptions)
    decreases |steps|
  {
    hide WithoutDuplicates, Apply, Enabled;
    if steps != [] {
      NoNewDuplicates(sys, steps[0]);
      NoDuplicatesEver(Apply(sys, steps[0]), steps[1..]);
    }
  }

  lemma NoNewDuplicates(sys: System, step: Step)
    requires WithoutDuplicates(sys.broker.subscriptions) && Enabled(sys, step)
    ensures WithoutDuplicates(Apply(sys, step).broker.subscriptions)
  {
    hide WithoutDuplicates, Subscribed, Cleaned, Targets, DeliverAll, StaleSessions, MaySubscribe, Supported;
    var b := sys.broker;
    match step
    case SubscribeCall(s, destination, id, mode, active) =>
      SubscribedOnce(b, destination, Subscription(s, id, mode, sys.connections[s].principal), active);
    case UnsubscribeCall(s, id) => CleanedOnce(b.subscriptions, (y: Subscription) => SameSubscriber(y, s, id));
    case CloseNext(s) =>
      if sys.closing[s] != [] {
        var id := sys.closing[s][0];
        CleanedOnce(b.subscriptions, (y: Subscription) => SameSubscriber(y, s, id));
      }
    case Publish(destination, body, headers, live, outcomes) =>
      var targets := Targets(b, destination, live);
      if Supported(destination) && destination in b.subscriptions && targets.Some? {
        DeliverAllTouches(Counted(b, destination), targets.value, 0, destination, body, headers,
            ToText(b.nextMessage), outcomes);
        var stale := StaleSessions(targets.value, outcomes);
        CleanedOnce(b.subscriptions, (x: Subscription) => x.session in stale);
      }
    case _ =>
  }

  // ---------------------------------------------------------------- what a frame does

  /** What happens outside while a frame is processed: whether the session is active, who else is, and who accepts. */
  datatype Outside = Outside(active: bool, live: set<SessionId>, outcomes: nat -> Delivery)

  /** The steps processing a frame takes. A rejected frame closes the session, later. */
  function StepsFor(sys: System, s: SessionId, f: Frame, out: nat, in_: nat, o: Outside): seq<Step>
    requires s in sys.connections
  {
    match Decide(sys.connections[s].connected, f, out, in_)
    case Accept(_, _) => [Connect(s)]
    case AskSubscribe(destination, id, mode) =>
      [SubscribeCall(s, destination, id, mode, o.active)] +
      if MaySubscribe(destination, Subscription(s, id, mode, sys.connections[s].principal), o.active)
      then [SubscribeRecord(s)] else []
    case AskUnsubscribe(id) => [UnsubscribeCall(s, id)]
    case AskSend(destination, body) => [Publish(destination, body, f.headers, o.live, o.outcomes)]
    case AskAck(id) => [Ack(s, id)]
    case AskNack(_) => []
    case Disconnect => []
    case Reject(_) => []
  }

  lemma OneStep(sys: System, step: Step)
    requires Enabled(sys, step)
    ensures IsRun(sys, [step]) && RunSteps(sys, [step]) == Apply(sys, step)
  {
    assert [step][1..] == [];
  }

  function WithIds(sys: System, s: SessionId, ids: seq<string>): System
    requires s in sys.connections
  {
    sys.(connections := sys.connections[s := sys.connections[s].(ids := ids)])
  }

  /** What a request does to its connection and to the broker. */
  ghost predicate Does(request: Request, s: SessionId, headers: map<string, string>, o: Outside, sys: System,
                       next: System)
    requires s in sys.connections
  {
    && s in next.connections && next.closing == sys.closing
    && var was, now := sys.connections[s], next.connections[s];
    match request
    case Accept(_, _) => next == sys.(connections := sys.connections[s := was.(connected := true)])
    case AskSubscribe(destination, id, mode) =>
      if MaySubscribe(destination, Subscription(s, id, mode, was.principal), o.active)
      then
        && var x := Subscription(s, id, mode, was.principal);
        && next == WithIds(sys, s, was.ids + [id]).(broker := Subscribed(sys.broker, destination, x, o.active))
        && HasSubscription(next.broker, s, id)
      else next == sys
    case AskUnsubscribe(id) =>
      && next == WithIds(sys, s, Removed(was.ids, id)).(broker := Unsubscribed(sys.broker, s, id))
      && id !in now.ids && !HasSubscription(next.broker, s, id) && s !in next.broker.pending
    case AskSend(destination, body) =>
      next == sys.(broker := Published(sys.broker, destination, body, headers, o.live, o.outcomes))
    case AskAck(id) => next == sys.(broker := Acknowledged(sys.broker, s, id))
    case _ => next == sys
  }

  /** Processing a frame, uninterrupted, is a run, and does to broker and connection what its command asks. */
  lemma FrameIsARun(sys: System, s: SessionId, f: Frame, out: nat, in_: nat, o: Outside)
    requires s in sys.connections && sys.connections[s].subscribing.None?
    ensures IsRun(sys, StepsFor(sys, s, f, out, in_, o))
    ensures var request := Decide(sys.connections[s].connected, f, out, in_);
            Does(request, s, f.headers, o, sys, RunSteps(sys, StepsFor(sys, s, f, out, in_, o)))
  {
    hide Enabled, Apply, Contains, ParseHeartbeat, Published, Acknowledged, HasSubscription;
    var was := sys.connections[s];
    match Decide(was.connected, f, out, in_)
    case Accept(_, _) => ConnectDoes(sys, s);
    case AskSubscribe(destination, id, mode) => SubscribeDoes(sys, s, destination, id, mode, o.active);
    case AskUnsubscribe(id) => UnsubscribeDoes(sys, s, id);
    case AskSend(destination, body) => PublishDoes(sys, s, destination, body, f.headers, o);
    case AskAck(id) => AckDoes(sys, s, id);
    case _ =>
  }

  lemma ConnectDoes(sys: System, s: SessionId)
    requires s in sys.connections && !sys.connections[s].connected
    ensures Enabled(sys, Connect(s)) && IsRun(sys, [Connect(s)])
    ensures RunSteps(sys, [Connect(s)]) ==
            sys.(connections := sys.connections[s := sys.connections[s].(connected := true)])
  {
    OneStep(sys, Connect(s));
  }

  lemma SubscribeDoes(sys: System, s: SessionId, destination: string, id: string, mode: AckMode, active: bool)
    requires Idle(sys, s) && id != ""
    ensures var call := SubscribeCall(s, destination, id, mode, active);
            var x := Subscription(s, id, mode, sys.connections[s].principal);
            var steps := [call] + if MaySubscribe(destination, x, active) then [SubscribeRecord(s)] else [];
            && IsRun(sys, steps)
            && var next := RunSteps(sys, steps);
            if MaySubscribe(destination, x, active)
            then next == WithIds(sys, s, sys.connections[s].ids + [id])
                         .(broker := Subscribed(sys.broker, destination, x, active))
                 && HasSubscription(next.broker, s, id)
            else next == sys
  {
    hide Supported, HasSubscription;
    var call := SubscribeCall(s, destination, id, mode, active);
    var x := Subscription(s, id, mode, sys.connections[s].principal);
    SubscribedHas(sys.broker, destination, x, active);
    var mid := Apply(sys, call);
    if MaySubscribe(destination, x, active) {
      assert HasSubscription(mid.broker, x.session, x.id);
      OneStep(mid, SubscribeRecord(s));
      assert ([call] + [SubscribeRecord(s)])[1..] == [SubscribeRecord(s)];
    } else {
      assert [call] + [] == [call];
      OneStep(sys, call);
    }
  }

  lemma UnsubscribeDoes(sys: System, s: SessionId, id: string)
    requires Idle(sys, s) && id != ""
    ensures IsRun(sys, [UnsubscribeCall(s, id)])
    ensures var next := RunSteps(sys, [UnsubscribeCall(s, id)]);
            && next == WithIds(sys, s, Removed(sys.connections[s].ids, id)).(broker := Unsubscribed(sys.broker, s, id))
            && id !in next.connections[s].ids && !HasSubscription(next.broker, s, id) && s !in next.broker.pending
  {
    hide HasSubscription, Removed, Unsubscribed;
    OneStep(sys, UnsubscribeCall(s, id));
    UnsubscribedHas(sys.broker, s, id);
    RemovedIs(sys.connections[s].ids, id);
  }

  lemma PublishDoes(sys: System, s: SessionId, destination: string, body: string, headers: map<string, string>,
                    o: Outside)
    ensures var step := Publish(destination, body, headers, o.live, o.outcomes);
            && IsRun(sys, [step])
            && RunSteps(sys, [step]) ==
                 sys.(broker := Published(sys.broker, destination, body, headers, o.live, o.outcomes))
  {
    hide Published;
    OneStep(sys, Publish(destination, body, headers, o.live, o.outcomes));
  }

  lemma AckDoes(sys: System, s: SessionId, id: string)
    requires Idle(sys, s)
    ensures IsRun(sys, [Ack(s, id)]) && RunSteps(sys, [Ack(s, id)]) == sys.(broker := Acknowledged(sys.broker, s, id))
  {
    hide Acknowledged;
    OneStep(sys, Ack(s, id));
  }

  // ---------------------------------------------------------------- what each command does

  predicate AckWord(text: string, mode: AckMode) {
    match mode
    case Auto => text == "" || text == "auto"
    case Client => text == "client"
    case ClientIndividual => text == "client-individual"
  }

  ghost predicate Offers(versions: string, version: string) {
    exists i: nat :: OccursAt(versions, version, i)
  }

  predicate OccursAt(s: string, needle: string, i: nat) { i + |needle| <= |s| && s[i..i + |needle|] == needle }

  /** Two decimal numbers below 2^64, leading zeros allowed, with a comma between them; nothing means zero twice. */
  ghost predicate BeatIs(text: string, outgoing: nat, incoming: nat) {
    || (text == "" && outgoing == 0 && incoming == 0)
    || exists a, b :: text == a + "," + b && ParseSize(a) == Some(outgoing) && ParseSize(b) == Some(incoming)
  }

  /** The longer of two periods, or none when either side does not want any. */
  predicate Agreed(client: nat, server: nat, period: nat) {
    if client > 0 && server > 0 then period >= client && period >= server && (period == client || period == server)
    else period == 0
  }

  ghost predicate Welcome(f: Frame) {
    && (f.command == "CONNECT" || f.command == "STOMP") && Offers(HeaderOf(f, "accept-version"), "1.2")
    && exists outgoing, incoming :: BeatIs(HeaderOf(f, "heart-beat"), outgoing, incoming)
  }

  /** What a frame does before and after the connection is established, command by command. */
  ghost predicate FrameDoes(f: Frame, s: SessionId, o: Outside, sys: System, next: System)
    requires s in sys.connections
  {
    var was, id, destination := sys.connections[s], HeaderOf(f, "id"), HeaderOf(f, "destination");
    if !was.connected then
      if Welcome(f) then next == sys.(connections := sys.connections[s := was.(connected := true)]) else next == sys
    else if f.command == "SUBSCRIBE" then
      if destination != "" && id != "" && o.active && s != 0 && IsBrokerDestination(destination)
         && exists mode :: AckWord(HeaderOf(f, "ack"), mode)
      then
        exists mode ::
          && AckWord(HeaderOf(f, "ack"), mode)
          && var x := Subscription(s, id, mode, was.principal);
          && destination in next.broker.subscriptions && x in next.broker.subscriptions[destination]
          && next == WithIds(sys, s, was.ids + [id]).(broker := Subscribed(sys.broker, destination, x, true))
      else next == sys
    else if f.command == "UNSUBSCRIBE" && id != "" then
      && next == WithIds(sys, s, Removed(was.ids, id)).(broker := Unsubscribed(sys.broker, s, id))
      && !HasSubscription(next.broker, s, id)
    else if f.command == "SEND" then
      next == sys.(broker := Published(sys.broker, destination, f.body, f.headers, o.live, o.outcomes))
    else if f.command == "ACK" && id != "" then next == sys.(broker := Acknowledged(sys.broker, s, id))
    else next == sys
  }

  predicate IsBrokerDestination(d: string) { "/topic/" <= d || "/queue/" <= d || "/user/" <= d }

  lemma {:induction false} ContainsIs(s: string, needle: string, from: nat)
    ensures Contains(s, needle, from) <==> exists i: nat :: from <= i && OccursAt(s, needle, i)
    decreases |s| - from
  {
    if from + |needle| <= |s| {
      ContainsIs(s, needle, from + 1);
      assert OccursAt(s, needle, from) <==> s[from..from + |needle|] == needle;
    }
  }

  lemma BeatRead(text: string, outgoing: nat, incoming: nat)
    requires BeatIs(text, outgoing, incoming)
    ensures ParseHeartbeat(text) == Some(Heartbeat(outgoing, incoming))
  {
    hide Value;
    if text != "" {
      var a, b :| text == a + "," + b && ParseSize(a) == Some(outgoing) && ParseSize(b) == Some(incoming);
      forall i | 0 <= i < |a| ensures text[i] != ',' { assert IsDigit(a[i]) && text[i] == a[i]; }
      assert text[|a|] == ',';
      FindUnique(text, ',', 0, |a|);
      assert text[..|a|] == a && text[|a| + 1..] == b;
    }
  }

  lemma BeatParsed(text: string)
    ensures var beat := ParseHeartbeat(text);
            beat.Some? ==> BeatIs(text, beat.value.outgoing, beat.value.incoming)
  {
    hide ParseSize;
    var comma := Find(text, ',', 0);
    if comma < |text| { assert text == text[..comma] + "," + text[comma + 1..]; }
  }

  /** A first frame is welcome exactly so, and the heart-beat periods agreed on are the longer ones. */
  lemma ConnectExactly(f: Frame, out: nat, in_: nat)
    ensures var request := Decide(false, f, out, in_);
            && (Welcome(f) <==> request.Accept?)
            && (!Welcome(f) ==> request.Reject?)
    ensures forall outgoing, incoming | BeatIs(HeaderOf(f, "heart-beat"), outgoing, incoming) && Welcome(f) ::
              var request := Decide(false, f, out, in_);
              Agreed(outgoing, in_, request.outgoing) && Agreed(incoming, out, request.incoming)
  {
    hide ParseHeartbeat, BeatIs, Contains, OccursAt;
    var beat, versions := HeaderOf(f, "heart-beat"), HeaderOf(f, "accept-version");
    ContainsIs(versions, "1.2", 0);
    BeatParsed(beat);
    assert versions == "" ==> !Offers(versions, "1.2") by { NothingOccurs("1.2"); }
    forall outgoing, incoming | BeatIs(beat, outgoing, incoming)
      ensures ParseHeartbeat(beat) == Some(Heartbeat(outgoing, incoming))
    {
      BeatRead(beat, outgoing, incoming);
    }
  }

  lemma NothingOccurs(needle: string)
    requires needle != ""
    ensures forall i: nat :: !OccursAt("", needle, i)
  {
  }

  lemma ModeIs(text: string)
    ensures forall mode :: AckWord(text, mode) <==> ModeOf(text) == Some(mode)
  {
    assert |"auto"| == 4 && |"client"| == 6 && |"client-individual"| == 17;
  }

  /** Processing a frame does, command by command and header by header, what the frame says. */
  lemma CommandsDo(sys: System, s: SessionId, f: Frame, out: nat, in_: nat, o: Outside)
    requires s in sys.connections && sys.connections[s].subscribing.None?
    ensures IsRun(sys, StepsFor(sys, s, f, out, in_, o))
    ensures FrameDoes(f, s, o, sys, RunSteps(sys, StepsFor(sys, s, f, out, in_, o)))
  {
    hide IsRun, RunSteps, StepsFor, Welcome, Published, Acknowledged, Unsubscribed, HasSubscription, ModeOf, AckWord,
         Contains, ParseHeartbeat;
    FrameIsARun(sys, s, f, out, in_, o);
    ConnectExactly(f, out, in_);
    ModeIs(HeaderOf(f, "ack"));
    CommandWords();
    var next := RunSteps(sys, StepsFor(sys, s, f, out, in_, o));
    var request := Decide(sys.connections[s].connected, f, out, in_);
    if request.AskSubscribe? {
      var x := Subscription(s, request.id, request.mode, sys.connections[s].principal);
      assert AckWord(HeaderOf(f, "ack"), request.mode);
      if MaySubscribe(request.destination, x, o.active) {
        UpsertHas(At(sys.broker.subscriptions, request.destination), x, x);
      }
    }
  }

  lemma CommandWords()
    ensures Distinct(["SUBSCRIBE", "UNSUBSCRIBE", "SEND", "ACK", "NACK", "DISCONNECT"])
  {
    assert |"SUBSCRIBE"| == 9 && |"UNSUBSCRIBE"| == 11 && |"SEND"| == 4 && |"ACK"| == 3 && |"NACK"| == 4;
    assert |"DISCONNECT"| == 10 && "SEND"[0] == 'S' && "NACK"[0] == 'N';
  }

  // ---------------------------------------------------------------- closing completes

  function Calls(steps: seq<Step>, s: SessionId): nat {
    if steps == [] then 0 else (if steps[0] == CloseNext(s) then 1 else 0) + Calls(steps[1..], s)
  }

  function StillHeld(sys: System, s: SessionId): nat { if s in sys.closing then Max(|sys.closing[s]|, 1) else 0 }

  lemma ClosingStep(sys: System, step: Step, s: SessionId)
    requires Inv(sys) && Enabled(sys, step) && s in sys.used && s !in sys.connections
    ensures var next := Apply(sys, step);
            && s in next.used && s !in next.connections
            && StillHeld(next, s) == StillHeld(sys, s) - if step == CloseNext(s) then 1 else 0
  {
    hide Ordered, HasSubscription, Published, Subscribed, Unsubscribed, Acknowledged, MaySubscribe, Removed;
  }

  /** In every interleaving, a closing session is gone after exactly as many of its broker calls as it had ids. */
  lemma {:induction false} ClosingEnds(sys: System, steps: seq<Step>, s: SessionId)
    requires Inv(sys) && IsRun(sys, steps) && s in sys.used && s !in sys.connections
    ensures Calls(steps, s) <= StillHeld(sys, s)
    ensures s in RunSteps(sys, steps).closing <==> Calls(steps, s) < StillHeld(sys, s)
    decreases |steps|
  {
    hide Inv, Apply, Enabled;
    if steps != [] {
      ClosingStep(sys, steps[0], s);
      ApplyKeeps(sys, steps[0]);
      ClosingEnds(Apply(sys, steps[0]), steps[1..], s);
    }
  }
}
