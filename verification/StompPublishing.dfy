/**
 Publishing with its lock sections apart: the targets are chosen in one, each delivery is recorded in one of its
 own, and dead sessions are swept in a last one. Between them other connections go on. A delivery whose frame was
 accepted just before its session closed is then recorded too late, and nobody takes it back.
 */
module StompPublishing {
  import opened Common
  import opened Decimal
  import opened StompCodec
  import opened StompBroker
  import opened StompEndpoint

  /** A publish under way: `next` targets are dealt with. */
  datatype Flight = Flight(targets: seq<Subscription>, next: nat, destination: string, body: string,
                           headers: map<string, string>, id: string, stale: set<SessionId>)

  datatype Hall = Hall(sys: System, flights: map<nat, Flight>)

  const QUIET := Hall(START, map[])

  datatype Move =
    | Plain(step: Step)
    | Begin(flight: nat, destination: string, body: string, headers: map<string, string>, live: set<SessionId>)
    | Record(flight: nat, outcome: Delivery)
    | Finish(flight: nat)

  predicate Possible(h: Hall, m: Move) {
    match m
    case Plain(step) => Enabled(h.sys, step)
    case Begin(f, destination, _, _, live) =>
      f !in h.flights && Supported(destination) && destination in h.sys.broker.subscriptions
      && Targets(h.sys.broker, destination, live).Some?
    case Record(f, _) => f in h.flights && h.flights[f].next < |h.flights[f].targets|
    case Finish(f) => f in h.flights && h.flights[f].next == |h.flights[f].targets|
  }

  function StaleOne(target: Subscription, outcome: Delivery): set<SessionId> {
    if IsStale(outcome) then {target.session} else {}
  }

  function Swept(b: Broker, stale: set<SessionId>): Broker {
    if stale == {} then b
    else b.(subscriptions := Cleaned(b.subscriptions, (x: Subscription) => x.session in stale))
  }

  function Make(h: Hall, m: Move): Hall
    requires Possible(h, m)
  {
    var b := h.sys.broker;
    match m
    case Plain(step) => h.(sys := Apply(h.sys, step))
    case Begin(f, destination, body, headers, live) =>
      var targets := Targets(b, destination, live).value;
      Hall(h.sys.(broker := Counted(b, destination)),
           h.flights[f := Flight(targets, 0, destination, body, headers, ToText(b.nextMessage), {})])
    case Record(f, outcome) =>
      var fl := h.flights[f];
      var target := fl.targets[fl.next];
      var message := MessageFor(target, fl.destination, fl.body, fl.headers, fl.id);
      Hall(h.sys.(broker := Deliver(b, target, message, fl.id, outcome)),
           h.flights[f := fl.(next := fl.next + 1, stale := fl.stale + StaleOne(target, outcome))])
    case Finish(f) => Hall(h.sys.(broker := Swept(b, h.flights[f].stale)), h.flights - {f})
  }

  // ---------------------------------------------------------------- one publish without interruption

  function Delivered(h: Hall, f: nat, outcomes: nat -> Delivery): Hall
    requires f in h.flights && h.flights[f].next <= |h.flights[f].targets|
    decreases |h.flights[f].targets| - h.flights[f].next
  {
    if h.flights[f].next == |h.flights[f].targets| then h
    else Delivered(Make(h, Record(f, outcomes(h.flights[f].next))), f, outcomes)
  }

  lemma {:induction false} DeliveredIs(h: Hall, f: nat, outcomes: nat -> Delivery)
    requires f in h.flights && h.flights[f].next <= |h.flights[f].targets|
    ensures var fl, after := h.flights[f], Delivered(h, f, outcomes);
            && after.sys == h.sys.(broker := DeliverAll(h.sys.broker, fl.targets, fl.next, fl.destination, fl.body,
                                                        fl.headers, fl.id, outcomes))
            && f in after.flights
            && after.flights[f] ==
                 fl.(next := |fl.targets|, stale := fl.stale + StaleFrom(fl.targets, outcomes, fl.next))
            && after.flights - {f} == h.flights - {f}
    decreases |h.flights[f].targets| - h.flights[f].next
  {
    hide Deliver, MessageFor;
    var fl := h.flights[f];
    if fl.next < |fl.targets| {
      var next := Make(h, Record(f, outcomes(fl.next)));
      DeliveredIs(next, f, outcomes);
      assert next.flights - {f} == h.flights - {f};
    } else {
      assert h.sys == h.sys.(broker := h.sys.broker) && fl.stale + {} == fl.stale;
    }
  }

  function StaleFrom(targets: seq<Subscription>, outcomes: nat -> Delivery, i: nat): set<SessionId>
    requires i <= |targets|
    decreases |targets| - i
  {
    if i == |targets| then {}
    else StaleOne(targets[i], outcomes(i)) + StaleFrom(targets, outcomes, i + 1)
  }

  lemma {:induction false} StaleFromIs(targets: seq<Subscription>, outcomes: nat -> Delivery, i: nat)
    requires i <= |targets|
    ensures StaleFrom(targets, outcomes, i) == set k | i <= k < |targets| && IsStale(outcomes(k)) :: targets[k].session
    decreases |targets| - i
  {
    if i < |targets| { StaleFromIs(targets, outcomes, i + 1); }
  }

  /** Uninterrupted, the sections are the publish of the broker object. */
  lemma UninterruptedPublish(h: Hall, f: nat, destination: string, body: string, headers: map<string, string>,
                             live: set<SessionId>, outcomes: nat -> Delivery)
    requires Possible(h, Begin(f, destination, body, headers, live))
    ensures var begun := Make(h, Begin(f, destination, body, headers, live));
            var sent := Delivered(begun, f, outcomes);
            && Possible(sent, Finish(f))
            && Make(sent, Finish(f)) ==
               h.(sys := h.sys.(broker := Published(h.sys.broker, destination, body, headers, live, outcomes)))
  {
    hide Delivered, DeliverAll, Targets, Supported;
    var begun := Make(h, Begin(f, destination, body, headers, live));
    DeliveredIs(begun, f, outcomes);
    StaleFromIs(begun.flights[f].targets, outcomes, 0);
    assert {} + StaleSessions(begun.flights[f].targets, outcomes) == StaleSessions(begun.flights[f].targets, outcomes);
    assert begun.flights - {f} == h.flights;
  }

  // ---------------------------------------------------------------- what holds in every run

  ghost predicate IsSplitRun(h: Hall, moves: seq<Move>)
    decreases |moves|
  {
    moves == [] || (Possible(h, moves[0]) && IsSplitRun(Make(h, moves[0]), moves[1..]))
  }

  ghost function After(h: Hall, moves: seq<Move>): Hall
    requires IsSplitRun(h, moves)
    decreases |moves|
  {
    if moves == [] then h else After(Make(h, moves[0]), moves[1..])
  }

  /** Everything the endpoint's invariant says but who may have pending deliveries. */
  ghost predicate Agrees(sys: System) {
    && Ordered(sys.broker)
    && (forall s, id :: HasSubscription(sys.broker, s, id) ==> id in Recorded(sys, s))
    && sys.connections.Keys <= sys.used && sys.closing.Keys <= sys.used && sys.connections.Keys !! sys.closing.Keys
  }

  /** Deliveries are pending only for sessions that answer for some id. */
  ghost predicate PendingOwned(sys: System) {
    forall s :: s in sys.broker.pending ==> Recorded(sys, s) != {}
  }

  function Emptied(sys: System): System { sys.(broker := sys.broker.(pending := map[])) }

  /** What is pending has no influence on anything else. */
  lemma SameButPending(sys: System, step: Step)
    requires Enabled(sys, step)
    ensures var a, b := Apply(Emptied(sys), step), Apply(sys, step);
            && a.connections == b.connections && a.closing == b.closing && a.used == b.used
            && a.broker.subscriptions == b.broker.subscriptions
  {
    hide Cleaned, Upsert, StaleSessions, DeliverAll, Supported, Targets, Removed;
    if step.Publish? {
      var e, b := Emptied(sys).broker, sys.broker;
      assert Targets(e, step.destination, step.live) == Targets(b, step.destination, step.live) by {
        SameTargets(e, b, step.destination, step.live);
      }
      var targets := Targets(b, step.destination, step.live);
      if targets.Some? {
        DeliverAllTouches(Counted(e, step.destination), targets.value, 0, step.destination, step.body, step.headers,
                          ToText(e.nextMessage), step.outcomes);
        DeliverAllTouches(Counted(b, step.destination), targets.value, 0, step.destination, step.body, step.headers,
                          ToText(b.nextMessage), step.outcomes);
      }
    }
  }

  lemma SameTargets(a: Broker, b: Broker, destination: string, live: set<SessionId>)
    requires a.subscriptions == b.subscriptions && a.cursors == b.cursors
    ensures Targets(a, destination, live) == Targets(b, destination, live)
  {
  }

  lemma OrderStays(sys: System, step: Step)
    requires Ordered(sys.broker) && Enabled(sys, step)
    ensures Ordered(Apply(sys, step).broker)
  {
    hide Ordered, Subscribed, Unsubscribed, Published, Acknowledged, MaySubscribe, Removed, HasSubscription;
    var b := sys.broker;
    match step
    case SubscribeCall(s, destination, id, mode, active) =>
      SubscribedHas(b, destination, Subscription(s, id, mode, sys.connections[s].principal), active);
    case UnsubscribeCall(s, id) => UnsubscribedHas(b, s, id);
    case CloseNext(s) => if sys.closing[s] != [] { UnsubscribedHas(b, s, sys.closing[s][0]); }
    case Publish(destination, body, headers, live, outcomes) =>
      PublishedKeeps(b, destination, body, headers, live, outcomes);
    case Ack(s, ackId) => AcknowledgedKeeps(b, s, ackId);
    case _ =>
  }

  lemma PlainAgrees(sys: System, step: Step)
    requires Agrees(sys) && Enabled(sys, step)
    ensures Agrees(Apply(sys, step))
  {
    hide Ordered, HasSubscription, Apply, Enabled, InOrder;
    var e := Emptied(sys);
    SameSubscriptions(sys.broker, e.broker);
    assert Inv(e) by {
      NothingPending(e.broker);
      forall s ensures Recorded(e, s) == Recorded(sys, s) {}
    }
    assert Enabled(e, step) by { SameEnabled(sys, step); }
    ApplyKeeps(e, step);
    SameButPending(sys, step);
    OrderStays(sys, step);
    var a, b := Apply(e, step), Apply(sys, step);
    SameSubscriptions(a.broker, b.broker);
    forall s ensures Recorded(a, s) == Recorded(b, s) {}
  }

  lemma NothingPending(b: Broker)
    requires b.pending == map[]
    ensures Ordered(b)
  {
  }

  lemma SameEnabled(sys: System, step: Step)
    requires Enabled(sys, step)
    ensures Enabled(Emptied(sys), step)
  {
  }

  lemma BeginAgrees(h: Hall, m: Move)
    requires Agrees(h.sys) && m.Begin? && Possible(h, m)
    ensures Agrees(Make(h, m).sys)
    ensures forall s :: Recorded(Make(h, m).sys, s) == Recorded(h.sys, s)
  {
    hide Targets, Supported, InOrder, HasSubscription, Ordered;
    var next := Make(h, m);
    CountedKeeps(h.sys.broker, m.destination);
    SameSubscriptions(h.sys.broker, next.sys.broker);
    forall s ensures Recorded(next.sys, s) == Recorded(h.sys, s) {}
  }

  lemma RecordAgrees(h: Hall, m: Move)
    requires Agrees(h.sys) && m.Record? && Possible(h, m)
    ensures Agrees(Make(h, m).sys)
    ensures forall s :: Recorded(Make(h, m).sys, s) == Recorded(h.sys, s)
  {
    hide InOrder, MessageFor, HasSubscription, Ordered;
    var fl, next := h.flights[m.flight], Make(h, m);
    var target := fl.targets[fl.next];
    var message := MessageFor(target, fl.destination, fl.body, fl.headers, fl.id);
    DeliverKeeps(h.sys.broker, target, message, fl.id, m.outcome);
    SameSubscriptions(h.sys.broker, next.sys.broker);
    forall s ensures Recorded(next.sys, s) == Recorded(h.sys, s) {}
  }

  lemma FinishAgrees(h: Hall, m: Move)
    requires Agrees(h.sys) && m.Finish? && Possible(h, m)
    ensures Agrees(Make(h, m).sys) && Make(h, m).sys.broker.pending == h.sys.broker.pending
    ensures forall s :: Recorded(Make(h, m).sys, s) == Recorded(h.sys, s)
  {
    hide InOrder, Cleaned;
    var b, next, stale := h.sys.broker, Make(h, m), h.flights[m.flight].stale;
    forall s ensures Recorded(next.sys, s) == Recorded(h.sys, s) {}
    forall s, id | HasSubscription(next.sys.broker, s, id) ensures HasSubscription(b, s, id) {
      var d, x :| d in next.sys.broker.subscriptions && x in next.sys.broker.subscriptions[d] && x.session == s
          && x.id == id;
      if stale != {} { CleanedHas(b.subscriptions, (y: Subscription) => y.session in stale, d, x); }
    }
  }

  lemma MoveAgrees(h: Hall, m: Move)
    requires Agrees(h.sys) && Possible(h, m)
    ensures Agrees(Make(h, m).sys)
  {
    hide Agrees, Make, Possible;
    match m
    case Plain(step) =>
      PlainPossible(h, m);
      PlainAgrees(h.sys, step);
    case Begin(_, _, _, _, _) => BeginAgrees(h, m);
    case Record(_, _) => RecordAgrees(h, m);
    case Finish(_) => FinishAgrees(h, m);
  }

  lemma PlainPossible(h: Hall, m: Move)
    requires m.Plain? && Possible(h, m)
    ensures Enabled(h.sys, m.step) && Make(h, m) == h.(sys := Apply(h.sys, m.step))
  {
  }

  lemma {:induction false} RunAgrees(h: Hall, moves: seq<Move>)
    requires Agrees(h.sys) && IsSplitRun(h, moves)
    ensures Agrees(After(h, moves).sys)
    decreases |moves|
  {
    hide Agrees, Make, Possible;
    if moves != [] {
      MoveAgrees(h, moves[0]);
      RunAgrees(Make(h, moves[0]), moves[1..]);
    }
  }

  /** However the sections interleave, no subscription outlives its connection, and pending lists stay in order. */
  lemma NoSubscriptionOutlives(moves: seq<Move>, s: SessionId)
    requires IsSplitRun(QUIET, moves)
    ensures var sys := After(QUIET, moves).sys;
            && (forall id :: HasSubscription(sys.broker, s, id) ==> id in Recorded(sys, s))
            && (s !in sys.connections && s !in sys.closing ==> forall id :: !HasSubscription(sys.broker, s, id))
            && (s in sys.broker.pending ==> InOrder(sys.broker.pending[s], sys.broker.nextSequence))
  {
    hide IsSplitRun, After, InOrder;
    NothingPending(QUIET.sys.broker);
    RunAgrees(QUIET, moves);
  }

  // ---------------------------------------------------------------- the one move that breaks the agreement

  /** An accepted delivery that must be acknowledged is recorded for a session that answers for no id any more. */
  predicate Late(h: Hall, m: Move)
    requires Possible(h, m)
  {
    m.Record? && m.outcome.Accepted? &&
    var fl := h.flights[m.flight];
    !fl.targets[fl.next].mode.Auto? && Recorded(h.sys, fl.targets[fl.next].session) == {}
  }

  /** A move keeps pending deliveries owned if and only if it is not a late record. */
  lemma LateBreaks(h: Hall, m: Move)
    requires Agrees(h.sys) && PendingOwned(h.sys) && Possible(h, m)
    ensures PendingOwned(Make(h, m).sys) <==> !Late(h, m)
  {
    match m
    case Plain(step) =>
      hide Agrees, PendingOwned, Apply, Enabled;
      PlainPossible(h, m);
      Whole(h.sys);
      ApplyKeeps(h.sys, step);
      Whole(Apply(h.sys, step));
    case Begin(_, _, _, _, _) =>
      BeginAgrees(h, m);
      CountedKeeps(h.sys.broker, m.destination);
      hide Targets, Supported, Recorded, Agrees;
    case Finish(_) =>
      FinishAgrees(h, m);
      hide Recorded, Agrees, Make;
    case Record(_, _) =>
      RecordAgrees(h, m);
      hide Recorded, Agrees, MessageFor;
      var fl := h.flights[m.flight];
      assert m.outcome.Accepted? && !fl.targets[fl.next].mode.Auto? ==>
          fl.targets[fl.next].session in Make(h, m).sys.broker.pending;
  }

  lemma Whole(sys: System)
    ensures Inv(sys) <==> Agrees(sys) && PendingOwned(sys)
  {
    hide Ordered, HasSubscription, Recorded;
  }

  ghost predicate AlwaysOwned(h: Hall, moves: seq<Move>)
    requires IsSplitRun(h, moves)
    decreases |moves|
  {
    PendingOwned(h.sys) && (moves != [] ==> AlwaysOwned(Make(h, moves[0]), moves[1..]))
  }

  ghost predicate NeverLate(h: Hall, moves: seq<Move>)
    requires IsSplitRun(h, moves)
    decreases |moves|
  {
    moves == [] || (!Late(h, moves[0]) && NeverLate(Make(h, moves[0]), moves[1..]))
  }

  lemma {:induction false} OwnedFrom(h: Hall, moves: seq<Move>)
    requires Agrees(h.sys) && PendingOwned(h.sys) && IsSplitRun(h, moves)
    ensures AlwaysOwned(h, moves) <==> NeverLate(h, moves)
    decreases |moves|
  {
    hide Agrees, PendingOwned, Make, Possible, Late;
    if moves != [] {
      MoveAgrees(h, moves[0]);
      LateBreaks(h, moves[0]);
      if !Late(h, moves[0]) { OwnedFrom(Make(h, moves[0]), moves[1..]); }
    }
  }

  /** Pending deliveries have an owner throughout a run if and only if no record in it comes late. */
  lemma OwnedExactly(moves: seq<Move>)
    requires IsSplitRun(QUIET, moves)
    ensures AlwaysOwned(QUIET, moves) <==> NeverLate(QUIET, moves)
  {
    hide IsSplitRun;
    NothingPending(QUIET.sys.broker);
    OwnedFrom(QUIET, moves);
  }

  // ---------------------------------------------------------------- after a connection is gone

  ghost predicate Gone(h: Hall, s: SessionId) {
    s in h.sys.used && s !in h.sys.connections && s !in h.sys.closing
  }

  /** Target `i` of flight `f` is still to be dealt with, belongs to `s` and must acknowledge. */
  predicate OwesAt(h: Hall, s: SessionId, f: nat, i: nat) {
    && f in h.flights && h.flights[f].next <= i < |h.flights[f].targets|
    && h.flights[f].targets[i].session == s && !h.flights[f].targets[i].mode.Auto?
  }

  /** Some publish has still to deliver to `s` what `s` must acknowledge. */
  ghost predicate Owed(h: Hall, s: SessionId) { exists f, i :: OwesAt(h, s, f, i) }

  /** Nothing is pending for a session that is gone, and nothing is on its way to it. */
  ghost predicate Clear(h: Hall, s: SessionId) {
    Agrees(h.sys) && Gone(h, s) && s !in h.sys.broker.pending && !Owed(h, s)
  }

  /** A session that is gone stays gone, and no step of another adds to what is pending for it. */
  lemma GoneStays(sys: System, step: Step, s: SessionId)
    requires Agrees(sys) && Enabled(sys, step) && s in sys.used && s !in sys.connections && s !in sys.closing
    ensures var next := Apply(sys, step);
            && s in next.used && s !in next.connections && s !in next.closing
            && (s in next.broker.pending ==> s in sys.broker.pending)
  {
    hide Ordered, Subscribed, Unsubscribed, Published, Acknowledged, MaySubscribe, Removed, HasSubscription;
    var b := sys.broker;
    match step
    case SubscribeCall(t, destination, id, mode, active) =>
      SubscribedHas(b, destination, Subscription(t, id, mode, sys.connections[t].principal), active);
    case UnsubscribeCall(t, id) => UnsubscribedHas(b, t, id);
    case CloseNext(t) => if sys.closing[t] != [] { UnsubscribedHas(b, t, sys.closing[t][0]); }
    case Publish(destination, body, headers, live, outcomes) =>
      PublishedKeeps(b, destination, body, headers, live, outcomes);
    case Ack(t, ackId) => AcknowledgedKeeps(b, t, ackId);
    case _ =>
  }

  lemma BeginClears(h: Hall, m: Move, s: SessionId)
    requires Clear(h, s) && Possible(h, m) && m.Begin?
    ensures !Owed(Make(h, m), s)
  {
    hide Supported, Ordered, Counted, Targets;
    var b := h.sys.broker;
    var next, targets := Make(h, m), Targets(b, m.destination, m.live).value;
    forall i | 0 <= i < |targets| ensures targets[i].id in Recorded(h.sys, targets[i].session) {
      TargetsAreSubscribed(b, m.destination, m.live, targets[i]);
      assert HasSubscription(b, targets[i].session, targets[i].id);
    }
    assert Recorded(h.sys, s) == {};
    hide Recorded;
    assert forall f, i :: OwesAt(next, s, f, i) ==> OwesAt(h, s, f, i);
  }

  lemma ClearStays(h: Hall, m: Move, s: SessionId)
    requires Clear(h, s) && Possible(h, m)
    ensures Clear(Make(h, m), s)
  {
    MoveAgrees(h, m);
    var next := Make(h, m);
    match m
    case Plain(step) =>
      hide Agrees, Apply, Enabled;
      GoneStays(h.sys, step, s);
      assert forall f, i :: OwesAt(next, s, f, i) ==> OwesAt(h, s, f, i);
    case Begin(_, _, _, _, _) =>
      BeginClears(h, m, s);
      hide Agrees, Supported, Targets;
    case Record(_, _) =>
      hide Agrees, MessageFor;
      var fl := h.flights[m.flight];
      assert !OwesAt(h, s, m.flight, fl.next);
      assert forall f, i :: OwesAt(next, s, f, i) ==> OwesAt(h, s, f, i);
    case Finish(_) =>
      hide Agrees, Cleaned;
      assert forall f, i :: OwesAt(next, s, f, i) ==> OwesAt(h, s, f, i);
  }

  lemma {:induction false} ClearForever(h: Hall, moves: seq<Move>, s: SessionId)
    requires Clear(h, s) && IsSplitRun(h, moves)
    ensures s !in After(h, moves).sys.broker.pending
    decreases |moves|
  {
    if moves != [] {
      ClearStays(h, moves[0], s);
      hide Clear, Make, Possible;
      ClearForever(Make(h, moves[0]), moves[1..], s);
    }
  }

  /** The moves by which flight `f` delivers to its target `i` and to no one before it. */
  function Towards(h: Hall, f: nat, i: nat): seq<Move>
    requires f in h.flights && h.flights[f].next <= i
    decreases i - h.flights[f].next
  {
    if h.flights[f].next == i || h.flights[f].next >= |h.flights[f].targets| then [Record(f, Accepted)]
    else
      var refuse := Record(f, Refused(true));
      [refuse] + Towards(Make(h, refuse), f, i)
  }

  /** What is owed can come to be pending. */
  lemma {:induction false} OwedMayArrive(h: Hall, s: SessionId, f: nat, i: nat)
    requires OwesAt(h, s, f, i)
    ensures IsSplitRun(h, Towards(h, f, i)) && s in After(h, Towards(h, f, i)).sys.broker.pending
    decreases i - h.flights[f].next
  {
    hide MessageFor;
    var accept, refuse := Record(f, Accepted), Record(f, Refused(true));
    if h.flights[f].next == i {
      assert [accept][1..] == [];
      var next := Make(h, accept);
      assert s in next.sys.broker.pending;
      assert IsSplitRun(next, []) && After(next, []) == next;
    } else {
      var next := Make(h, refuse);
      assert OwesAt(next, s, f, i);
      OwedMayArrive(next, s, f, i);
      assert Towards(h, f, i)[1..] == Towards(next, f, i);
    }
  }

  ghost predicate NeverPendingAgain(h: Hall, s: SessionId) {
    forall moves :: IsSplitRun(h, moves) ==> s !in After(h, moves).sys.broker.pending
  }

  /** Nothing will ever be pending for a session that is gone if and only if nothing is, and nothing is owed to it. */
  lemma GoneExactly(h: Hall, s: SessionId)
    requires Agrees(h.sys) && Gone(h, s)
    ensures NeverPendingAgain(h, s) <==> s !in h.sys.broker.pending && !Owed(h, s)
  {
    hide Agrees, Gone, OwesAt;
    if s !in h.sys.broker.pending && !Owed(h, s) {
      forall moves | IsSplitRun(h, moves) ensures s !in After(h, moves).sys.broker.pending {
        ClearForever(h, moves, s);
      }
    }
    if NeverPendingAgain(h, s) {
      assert IsSplitRun(h, []) && After(h, []) == h;
      if f, i :| OwesAt(h, s, f, i) {
        assert OwesAt(h, s, f, i);
        OwedMayArrive(h, s, f, i);
      }
    }
  }

  /** The same after any run from the start. */
  lemma NothingOutlivesExactly(moves: seq<Move>, s: SessionId)
    requires IsSplitRun(QUIET, moves) && Gone(After(QUIET, moves), s)
    ensures var h := After(QUIET, moves);
            NeverPendingAgain(h, s) <==> s !in h.sys.broker.pending && !Owed(h, s)
  {
    hide Agrees, Gone, IsSplitRun, After, NeverPendingAgain, Owed;
    assert Agrees(QUIET.sys) by { QuietAgrees(); }
    RunAgrees(QUIET, moves);
    GoneExactly(After(QUIET, moves), s);
  }

  lemma QuietAgrees()
    ensures Agrees(QUIET.sys)
  {
  }

  // ---------------------------------------------------------------- a run with a late record

  const SUBSCRIBER := Subscription(1, "a", Client, "")

  /** A client has subscribed, and a publish has chosen it. */
  const CHOSEN := Hall(
    System(EMPTY_BROKER.(subscriptions := map["/topic/t" := [SUBSCRIBER]], nextMessage := 2),
           map[1 := Connection(true, "", ["a"], None)], map[], {1}),
    map[0 := Flight([SUBSCRIBER], 0, "/topic/t", "", map[], "1", {})])

  const TO_CHOSEN := [Plain(Open(1, "")), Plain(Connect(1)), Plain(SubscribeCall(1, "/topic/t", "a", Client, true)),
                      Plain(SubscribeRecord(1)), Begin(0, "/topic/t", "", map[], {1})]

  lemma Subscribing()
    ensures var b := Subscribed(EMPTY_BROKER, "/topic/t", SUBSCRIBER, true);
            && MaySubscribe("/topic/t", SUBSCRIBER, true) && Supported("/topic/t")
            && b == EMPTY_BROKER.(subscriptions := map["/topic/t" := [SUBSCRIBER]])
            && Targets(b, "/topic/t", {1}) == Some([SUBSCRIBER])
            && Counted(b, "/topic/t") == b.(nextMessage := 2) && ToText(1) == "1"
  {
    assert Upsert([], SUBSCRIBER) == [SUBSCRIBER];
    var none: map<string, seq<Subscription>> := map[];
    assert none["/topic/t" := [SUBSCRIBER]] == map["/topic/t" := [SUBSCRIBER]];
    assert !("/queue/" <= "/topic/t") by { assert "/queue/"[1] == 'q' && "/topic/t"[1] == 't'; }
    assert !("/user/" <= "/topic/t") by { assert "/user/"[1] == 'u' && "/topic/t"[1] == 't'; }
  }

  /** One step of a run. */
  lemma OneMove(h: Hall, moves: seq<Move>, next: Hall)
    requires moves != [] && Possible(h, moves[0]) && Make(h, moves[0]) == next && IsSplitRun(next, moves[1..])
    ensures IsSplitRun(h, moves) && After(h, moves) == After(next, moves[1..])
  {
  }

  lemma ChosenIsReached()
    ensures IsSplitRun(QUIET, TO_CHOSEN) && After(QUIET, TO_CHOSEN) == CHOSEN
  {
    hide Supported, Subscribed, Targets, Counted, MaySubscribe, ToText, IsSplitRun, After;
    Subscribing();
    var moves := TO_CHOSEN;
    var h1 := Make(QUIET, moves[0]);
    var h2 := Make(h1, moves[1]);
    var h3 := Make(h2, moves[2]);
    var h4 := Make(h3, moves[3]);
    assert h3.sys.broker == Subscribed(EMPTY_BROKER, "/topic/t", SUBSCRIBER, true);
    assert h4.sys.connections == map[1 := Connection(true, "", ["a"], None)] by { assert [] + ["a"] == ["a"]; }
    assert h4.sys.used == {1} && h4.sys.closing == map[] && h4.flights == map[];
    var h5 := Make(h4, moves[4]);
    assert h5 == CHOSEN;
    assert moves[4..][1..] == [] && moves[3..][1..] == moves[4..] && moves[2..][1..] == moves[3..]
        && moves[1..][1..] == moves[2..];
    NoMoves(h5);
    OneMove(h4, moves[4..], h5);
    OneMove(h3, moves[3..], h4);
    OneMove(h2, moves[2..], h3);
    OneMove(h1, moves[1..], h2);
    OneMove(QUIET, moves, h1);
  }

  lemma NoMoves(h: Hall)
    ensures IsSplitRun(h, []) && After(h, []) == h
  {
  }

  /** The subscriber closes between choice and record: it is gone, still owed, and the late record stays pending. */
  lemma LateRecordStays()
    ensures Possible(CHOSEN, Plain(CloseBegin(1)))
    ensures var begun := Make(CHOSEN, Plain(CloseBegin(1)));
            && Possible(begun, Plain(CloseNext(1)))
            && var closed := Make(begun, Plain(CloseNext(1)));
            && Gone(closed, 1) && 1 !in closed.sys.broker.pending && Owed(closed, 1)
            && Possible(closed, Record(0, Accepted)) && Late(closed, Record(0, Accepted))
            && 1 in Make(closed, Record(0, Accepted)).sys.broker.pending
  {
    var begun := Make(CHOSEN, Plain(CloseBegin(1)));
    var closed := Make(begun, Plain(CloseNext(1)));
    assert closed.flights[0].targets[0].session == 1;
    assert OwesAt(closed, 1, 0, 0);
  }
}
