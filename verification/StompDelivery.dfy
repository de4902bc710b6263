/**
 What a publish leaves behind in the broker, told entry by entry: who owes an acknowledgement for which message, under
 which id and number, and what a NACK sends again.
 */
module StompDelivery {
  import opened Common
  import opened Decimal
  import opened StompCodec
  import opened StompBroker
  import opened StompEndpoint

  /** Delivery `i` was accepted by a subscriber that has to acknowledge it. */
  predicate Owes(targets: seq<Subscription>, outcomes: nat -> Delivery, i: nat)
    requires i < |targets|
  {
    outcomes(i).Accepted? && targets[i].mode != Auto
  }

  /** How many of the first `n` deliveries have to be acknowledged, and how many of those by session `s`. */
  function Owed(targets: seq<Subscription>, outcomes: nat -> Delivery, n: nat): nat
    requires n <= |targets|
  {
    if n == 0 then 0 else Owed(targets, outcomes, n - 1) + if Owes(targets, outcomes, n - 1) then 1 else 0
  }

  function OwedBy(targets: seq<Subscription>, outcomes: nat -> Delivery, s: SessionId, n: nat): nat
    requires n <= |targets|
  {
    if n == 0 then 0
    else OwedBy(targets, outcomes, s, n - 1) +
         if Owes(targets, outcomes, n - 1) && targets[n - 1].session == s then 1 else 0
  }

  lemma {:induction false} OwedGrows(targets: seq<Subscription>, outcomes: nat -> Delivery, m: nat, n: nat)
    requires m <= n <= |targets|
    ensures Owed(targets, outcomes, m) <= Owed(targets, outcomes, n)
    ensures forall s :: OwedBy(targets, outcomes, s, m) <= OwedBy(targets, outcomes, s, n)
    decreases n
  {
    if m < n { OwedGrows(targets, outcomes, m, n - 1); }
  }

  /** One message as its receiver sees it: the body and headers published, and four headers of the broker's own. */
  ghost predicate IsMessage(f: Frame, x: Subscription, destination: string, body: string, headers: map<string, string>,
                            id: string) {
    && f.command == "MESSAGE" && f.body == body
    && HeaderOf(f, "destination") == destination
    && HeaderOf(f, "subscription") == x.id
    && HeaderOf(f, "message-id") == id
    && (x.mode != Auto ==> HeaderOf(f, "ack") == id)
    && (x.mode == Auto ==> SameHeader(f.headers, headers, "ack"))
    && forall k :: k !in ["destination", "subscription", "message-id", "ack"] ==> SameHeader(f.headers, headers, k)
  }

  predicate SameHeader(a: map<string, string>, b: map<string, string>, k: string) {
    (k in a <==> k in b) && (k in a && k in b ==> a[k] == b[k])
  }

  lemma HeadersDiffer()
    ensures Distinct(["destination", "subscription", "message-id", "ack"])
    ensures forall k :: k in ["destination", "subscription", "message-id", "ack"] ==> k != "redelivered"
  {
    assert |"destination"| == 11 && |"subscription"| == 12 && |"message-id"| == 10 && |"ack"| == 3;
    assert "redelivered"[0] == 'r' && "destination"[0] == 'd';
    assert |"redelivered"| == 11;
  }

  lemma MessageIs(x: Subscription, destination: string, body: string, headers: map<string, string>, id: string)
    ensures IsMessage(MessageFor(x, destination, body, headers, id), x, destination, body, headers, id)
  {
    var keys := ["destination", "subscription", "message-id", "ack"];
    HeadersDiffer();
    assert keys[0] != keys[1] && keys[0] != keys[2] && keys[0] != keys[3] && keys[1] != keys[2] && keys[1] != keys[3];
    assert keys[2] != keys[3];
    assert forall k :: k !in keys ==> k != keys[0] && k != keys[1] && k != keys[2] && k != keys[3];
  }

  // ---------------------------------------------------------------- pending entries after a round of deliveries

  /** Delivery `i` is the session's next pending entry in its turn, under the next sequence number in its turn. */
  ghost predicate Entered(b: Broker, b': Broker, targets: seq<Subscription>, outcomes: nat -> Delivery, from: nat,
                          i: nat, id: string, message: Frame)
    requires from <= i < |targets|
  {
    var x := targets[i];
    var at := |PendingOf(b, x.session)| + OwedBy(targets, outcomes, x.session, i)
              - OwedBy(targets, outcomes, x.session, from);
    var number := b.nextSequence + Owed(targets, outcomes, i) - Owed(targets, outcomes, from);
    && number >= 0 && 0 <= at < |PendingOf(b', x.session)|
    && PendingOf(b', x.session)[at] == Pending(number, id, x.mode, message)
  }

  /** Exactly the deliveries owed become pending, behind what was pending before. */
  ghost predicate Extends(b: Broker, b': Broker, targets: seq<Subscription>, outcomes: nat -> Delivery, from: nat)
    requires from <= |targets|
  {
    && b'.nextSequence == b.nextSequence + Owed(targets, outcomes, |targets|) - Owed(targets, outcomes, from)
    && forall s ::
         && PendingOf(b, s) <= PendingOf(b', s)
         && |PendingOf(b', s)| == |PendingOf(b, s)| + OwedBy(targets, outcomes, s, |targets|)
                                  - OwedBy(targets, outcomes, s, from)
  }

  lemma DeliverIs(b: Broker, x: Subscription, message: Frame, id: string, outcome: Delivery)
    ensures var b' := Deliver(b, x, message, id, outcome);
            if outcome.Accepted? && x.mode != Auto then
              && b'.nextSequence == b.nextSequence + 1
              && PendingOf(b', x.session) == PendingOf(b, x.session) + [Pending(b.nextSequence, id, x.mode, message)]
              && forall s :: s != x.session ==> PendingOf(b', s) == PendingOf(b, s)
            else b' == b
  {
  }

  lemma {:induction false} DeliveredIs(
    b: Broker, targets: seq<Subscription>, from: nat, destination: string, body: string,
    headers: map<string, string>, id: string, outcomes: nat -> Delivery)
    requires from <= |targets|
    ensures var b' := DeliverAll(b, targets, from, destination, body, headers, id, outcomes);
            && Extends(b, b', targets, outcomes, from)
            && forall i :: from <= i < |targets| && Owes(targets, outcomes, i) ==>
                 Entered(b, b', targets, outcomes, from, i, id, MessageFor(targets[i], destination, body, headers, id))
    decreases |targets| - from
  {
    hide MessageFor, Deliver, Owed, OwedBy, PendingOf;
    if from < |targets| {
      var x := targets[from];
      var message := MessageFor(x, destination, body, headers, id);
      var next := Deliver(b, x, message, id, outcomes(from));
      DeliverIs(b, x, message, id, outcomes(from));
      DeliveredIs(next, targets, from + 1, destination, body, headers, id, outcomes);
      OwedStep(targets, outcomes, from);
      var b' := DeliverAll(b, targets, from, destination, body, headers, id, outcomes);
      forall s ensures PendingOf(b, s) <= PendingOf(b', s) { assert PendingOf(next, s) <= PendingOf(b', s); }
      forall i | from <= i < |targets| && Owes(targets, outcomes, i)
        ensures Entered(b, b', targets, outcomes, from, i, id, MessageFor(targets[i], destination, body, headers, id))
      {
        if i > from {
          assert Entered(next, b', targets, outcomes, from + 1, i, id,
              MessageFor(targets[i], destination, body, headers, id));
        }
      }
    }
  }

  lemma OwedStep(targets: seq<Subscription>, outcomes: nat -> Delivery, i: nat)
    requires i < |targets|
    ensures Owed(targets, outcomes, i + 1) == Owed(targets, outcomes, i) + if Owes(targets, outcomes, i) then 1 else 0
    ensures forall s :: OwedBy(targets, outcomes, s, i + 1) ==
              OwedBy(targets, outcomes, s, i) + if Owes(targets, outcomes, i) && targets[i].session == s then 1 else 0
  {
  }

  // ---------------------------------------------------------------- one publish

  /** A session found dead by a delivery. */
  ghost predicate Dead(targets: seq<Subscription>, outcomes: nat -> Delivery, s: SessionId) {
    exists i :: 0 <= i < |targets| && targets[i].session == s &&
      (outcomes(i) == Inactive || outcomes(i) == Refused(false))
  }

  ghost predicate Swept(b: Broker, b': Broker, targets: seq<Subscription>, outcomes: nat -> Delivery) {
    forall d, x :: x in At(b'.subscriptions, d) <==>
                   x in At(b.subscriptions, d) && !Dead(targets, outcomes, x.session)
  }

  ghost predicate Reaches(b: Broker, b': Broker, destination: string, body: string, headers: map<string, string>,
                          outcomes: nat -> Delivery, targets: seq<Subscription>) {
    var id := ToText(b.nextMessage);
    && Extends(b, b', targets, outcomes, 0)
    && (forall i :: 0 <= i < |targets| && Owes(targets, outcomes, i) ==>
          exists message :: IsMessage(message, targets[i], destination, body, headers, id) &&
            Entered(b, b', targets, outcomes, 0, i, id, message))
  }

  /**
   A publish: every addressee that accepts and must acknowledge gains exactly one pending entry, in the order of the
   addressees and behind what was pending before, holding the message published, under the id of the message and the
   next sequence number. Nobody else's entries change. Subscriptions of sessions found dead go, and only they.
   */
  lemma PublishReaches(b: Broker, destination: string, body: string, headers: map<string, string>,
                       active: set<SessionId>, outcomes: nat -> Delivery, targets: seq<Subscription>)
    requires destination in b.subscriptions && Addressees(b, destination, active, targets)
    ensures var b' := Published(b, destination, body, headers, active, outcomes);
            && Reaches(b, b', destination, body, headers, outcomes, targets)
            && Swept(b, b', targets, outcomes)
            && b'.nextMessage == b.nextMessage + 1
            && (forall d :: CursorOf(b', d) == CursorOf(b, d) + if d == destination && "/queue/" <= d then 1 else 0)
  {
    hide Targets, DeliverAll, MessageFor, ToText, StaleSessions, Cleaned, Supported, Addressees, Extends, Entered, Owes,
         IsMessage;
    AddresseesAreTargets(b, destination, active, targets);
    var id, start := ToText(b.nextMessage), Counted(b, destination);
    var sent := DeliverAll(start, targets, 0, destination, body, headers, id, outcomes);
    DeliveredIs(start, targets, 0, destination, body, headers, id, outcomes);
    DeliverAllTouches(start, targets, 0, destination, body, headers, id, outcomes);
    var b' := Published(b, destination, body, headers, active, outcomes);
    SameEntries(b, start, sent, b', targets, outcomes);
    forall i | 0 <= i < |targets| && Owes(targets, outcomes, i)
      ensures exists message ::
                IsMessage(message, targets[i], destination, body, headers, id) &&
                Entered(b, b', targets, outcomes, 0, i, id, message)
    {
      var message := MessageFor(targets[i], destination, body, headers, id);
      MessageIs(targets[i], destination, body, headers, id);
      assert Entered(start, sent, targets, outcomes, 0, i, id, message);
      SameEntered(b, start, sent, b', targets, outcomes, i, id, message);
    }
    SweptIs(b, b', targets, outcomes);
  }

  lemma SameEntries(b: Broker, start: Broker, sent: Broker, b': Broker, targets: seq<Subscription>,
                    outcomes: nat -> Delivery)
    requires start.pending == b.pending && start.nextSequence == b.nextSequence
    requires b'.pending == sent.pending && b'.nextSequence == sent.nextSequence
    ensures Extends(start, sent, targets, outcomes, 0) ==> Extends(b, b', targets, outcomes, 0)
  {
    forall s ensures PendingOf(b, s) == PendingOf(start, s) && PendingOf(b', s) == PendingOf(sent, s) {}
  }

  lemma SameEntered(b: Broker, start: Broker, sent: Broker, b': Broker, targets: seq<Subscription>,
                    outcomes: nat -> Delivery, i: nat, id: string, message: Frame)
    requires start.pending == b.pending && start.nextSequence == b.nextSequence
    requires b'.pending == sent.pending && b'.nextSequence == sent.nextSequence
    requires i < |targets| && Entered(start, sent, targets, outcomes, 0, i, id, message)
    ensures Entered(b, b', targets, outcomes, 0, i, id, message)
  {
  }

  lemma SweptIs(b: Broker, b': Broker, targets: seq<Subscription>, outcomes: nat -> Delivery)
    requires var stale := StaleSessions(targets, outcomes);
             b'.subscriptions == if stale == {} then b.subscriptions
                                 else Cleaned(b.subscriptions, (x: Subscription) => x.session in stale)
    ensures Swept(b, b', targets, outcomes)
  {
    hide Cleaned;
    var stale := StaleSessions(targets, outcomes);
    forall s ensures s in stale <==> Dead(targets, outcomes, s) { DeadIsStale(targets, outcomes, s); }
    var gone := (x: Subscription) => x.session in stale;
    forall d, x ensures x in At(b'.subscriptions, d) <==>
        x in At(b.subscriptions, d) && !Dead(targets, outcomes, x.session)
    {
      if stale != {} {
        if x in At(b'.subscriptions, d) { CleanedHas(b.subscriptions, gone, d, x); }
        if x in At(b.subscriptions, d) && x.session !in stale { CleanedKeeps(b.subscriptions, gone, d, x); }
      }
    }
  }

  lemma DeadIsStale(targets: seq<Subscription>, outcomes: nat -> Delivery, s: SessionId)
    ensures s in StaleSessions(targets, outcomes) <==> Dead(targets, outcomes, s)
  {
    if Dead(targets, outcomes, s) {
      var i :| 0 <= i < |targets| && targets[i].session == s &&
        (outcomes(i) == Inactive || outcomes(i) == Refused(false));
      assert IsStale(outcomes(i));
    }
  }

  /** A destination without subscribers, without addressees or outside the broker changes nothing. */
  lemma PublishOfNothing(b: Broker, destination: string, body: string, headers: map<string, string>,
                         active: set<SessionId>, outcomes: nat -> Delivery)
    requires destination !in b.subscriptions || forall targets :: !Addressees(b, destination, active, targets)
    ensures Published(b, destination, body, headers, active, outcomes) == b
    ensures DeliveredCount(b, destination, active, outcomes) == 0
  {
    hide Targets, Addressees, DeliverAll;
    if Supported(destination) && Targets(b, destination, active).Some? {
      TargetsAreAddressees(b, destination, active);
    }
  }

  // ---------------------------------------------------------------- message ids

  /** Every pending entry carries an id given out earlier. */
  ghost predicate Issued(b: Broker) {
    forall s, e :: e in PendingOf(b, s) ==> IdBelow(e.ackId, b.nextMessage)
  }

  ghost predicate IdBelow(id: string, n: nat) { exists k: nat :: k < n && id == ToText(k) }

  lemma IdIsNew(b: Broker, s: SessionId, e: Pending)
    requires Issued(b) && e in PendingOf(b, s)
    ensures e.ackId != ToText(b.nextMessage)
  {
    var k: nat :| k < b.nextMessage && e.ackId == ToText(k);
    if ToText(k) == ToText(b.nextMessage) { TextInjective(k, b.nextMessage); }
  }

  lemma {:induction false} DeliveredIssued(
    b: Broker, targets: seq<Subscription>, i: nat, destination: string, body: string,
    headers: map<string, string>, id: string, outcomes: nat -> Delivery)
    requires i <= |targets| && Issued(b) && IdBelow(id, b.nextMessage)
    ensures Issued(DeliverAll(b, targets, i, destination, body, headers, id, outcomes))
    decreases |targets| - i
  {
    hide MessageFor, IdBelow;
    if i < |targets| {
      var message := MessageFor(targets[i], destination, body, headers, id);
      var next := Deliver(b, targets[i], message, id, outcomes(i));
      DeliverIs(b, targets[i], message, id, outcomes(i));
      forall s, e | e in PendingOf(next, s) ensures IdBelow(e.ackId, next.nextMessage) {
        assert e in PendingOf(b, s) || e.ackId == id;
      }
      DeliveredIssued(next, targets, i + 1, destination, body, headers, id, outcomes);
    }
  }

  lemma PublishedIssued(b: Broker, destination: string, body: string, headers: map<string, string>,
                        active: set<SessionId>, outcomes: nat -> Delivery)
    requires Issued(b)
    ensures Issued(Published(b, destination, body, headers, active, outcomes))
  {
    hide Targets, DeliverAll, StaleSessions, Cleaned, Supported;
    var targets := Targets(b, destination, active);
    if Supported(destination) && destination in b.subscriptions && targets.Some? {
      var start, id := Counted(b, destination), ToText(b.nextMessage);
      assert IdBelow(id, start.nextMessage);
      forall s, e | e in PendingOf(start, s) ensures IdBelow(e.ackId, start.nextMessage) {
        assert e in PendingOf(b, s);
      }
      DeliveredIssued(start, targets.value, 0, destination, body, headers, id, outcomes);
      var sent := DeliverAll(start, targets.value, 0, destination, body, headers, id, outcomes);
      var b' := Published(b, destination, body, headers, active, outcomes);
      forall s, e | e in PendingOf(b', s) ensures IdBelow(e.ackId, b'.nextMessage) { assert e in PendingOf(sent, s); }
    }
  }

  lemma {:induction false} AfterIn(list: seq<Pending>, sequence: nat)
    ensures forall e :: e in After(list, sequence) ==> e in list
  {
    if list != [] {
      AfterIn(list[..|list| - 1], sequence);
      assert forall e :: e in list[..|list| - 1] ==> e in list;
    }
  }

  lemma AcknowledgedIssued(b: Broker, s: SessionId, ackId: string)
    requires Issued(b)
    ensures Issued(Acknowledged(b, s, ackId))
  {
    hide After, IdBelow;
    var list := PendingOf(b, s);
    var k := FindAck(list, ackId, 0);
    if k < |list| { AfterIn(list, list[k].sequence); }
    var b' := Acknowledged(b, s, ackId);
    forall t, e | e in PendingOf(b', t) ensures IdBelow(e.ackId, b'.nextMessage) { assert e in PendingOf(b, t); }
  }

  lemma StepIssued(sys: System, step: Step)
    requires Issued(sys.broker) && Enabled(sys, step)
    ensures Issued(Apply(sys, step).broker)
  {
    hide Published, Acknowledged, Subscribed, Cleaned, IdBelow, MaySubscribe;
    match step
    case Publish(destination, body, headers, live, outcomes) =>
      PublishedIssued(sys.broker, destination, body, headers, live, outcomes);
    case Ack(s, ackId) => AcknowledgedIssued(sys.broker, s, ackId);
    case SubscribeCall(s, destination, id, mode, active) =>
      SubscribeKeepsPending(sys.broker, destination, Subscription(s, id, mode, sys.connections[s].principal), active);
    case _ =>
      var b, b' := sys.broker, Apply(sys, step).broker;
      forall t, e | e in PendingOf(b', t) ensures IdBelow(e.ackId, b'.nextMessage) { assert e in PendingOf(b, t); }
  }

  lemma SubscribeKeepsPending(b: Broker, destination: string, x: Subscription, active: bool)
    requires Issued(b)
    ensures Issued(Subscribed(b, destination, x, active))
  {
    hide IdBelow;
    var b' := Subscribed(b, destination, x, active);
    forall t, e | e in PendingOf(b', t) ensures IdBelow(e.ackId, b'.nextMessage) { assert e in PendingOf(b, t); }
  }

  /** In every run of the system no message id is given out twice. */
  lemma {:induction false} IssuedEver(sys: System, steps: seq<Step>)
    requires Issued(sys.broker) && IsRun(sys, steps)
    ensures Issued(RunSteps(sys, steps).broker)
    decreases |steps|
  {
    hide Issued, Apply, Enabled;
    if steps != [] {
      StepIssued(sys, steps[0]);
      IssuedEver(Apply(sys, steps[0]), steps[1..]);
    }
  }

  // ---------------------------------------------------------------- asking for a message again

  ghost predicate IsRedelivery(f: Frame, x: Subscription, destination: string, body: string,
                               headers: map<string, string>, id: string) {
    && HeaderOf(f, "redelivered") == "true"
    && IsMessage(f, x, destination, body, headers["redelivered" := "true"], id)
  }

  lemma MarkedIs(f: Frame, x: Subscription, destination: string, body: string, headers: map<string, string>, id: string)
    requires IsMessage(f, x, destination, body, headers, id)
    ensures var again := f.(headers := f.headers["redelivered" := "true"]);
            IsRedelivery(again, x, destination, body, headers, id) && SubscriptionHeader(again) == x.id
  {
    var keys := ["destination", "subscription", "message-id", "ack"];
    HeadersDiffer();
    assert keys[0] in keys && keys[1] in keys && keys[2] in keys && keys[3] in keys;
  }

  /** Where in a session's pending list the first entry of a publish is found. */
  lemma {:induction false} FindAckAt(list: seq<Pending>, ackId: string, from: nat, k: nat)
    requires from <= k < |list| && list[k].ackId == ackId
    requires forall j :: from <= j < k ==> list[j].ackId != ackId
    ensures FindAck(list, ackId, from) == k
    decreases k - from
  {
    if from < k { FindAckAt(list, ackId, from + 1, k); }
  }

  /**
   A NACK right after a publish: the session is sent again what it was sent, marked as a redelivery. Where one session
   is addressed through several subscriptions they share an ack id, and the first of them is the one sent again.
   */
  lemma NackResends(b: Broker, destination: string, body: string, headers: map<string, string>,
                    active: set<SessionId>, outcomes: nat -> Delivery, targets: seq<Subscription>, i: nat)
    requires destination in b.subscriptions && Addressees(b, destination, active, targets) && Issued(b)
    requires i < |targets| && Owes(targets, outcomes, i) && !Dead(targets, outcomes, targets[i].session)
    requires forall j :: 0 <= j < i && Owes(targets, outcomes, j) ==> targets[j].session != targets[i].session
    ensures var b' := Published(b, destination, body, headers, active, outcomes);
            var again := Redelivered(b', targets[i].session, ToText(b.nextMessage), true);
            again.Some? && IsRedelivery(again.value, targets[i], destination, body, headers, ToText(b.nextMessage))
  {
    hide Published, Addressees, Targets, ToText, IsMessage, Dead, Owes, Issued, OfPrincipal;
    var x, id := targets[i], ToText(b.nextMessage);
    var b' := Published(b, destination, body, headers, active, outcomes);
    PublishReaches(b, destination, body, headers, active, outcomes, targets);
    var message :| IsMessage(message, x, destination, body, headers, id) &&
      Entered(b, b', targets, outcomes, 0, i, id, message);
    NobodyEarlier(targets, outcomes, x.session, i);
    var old_, list := PendingOf(b, x.session), PendingOf(b', x.session);
    assert list[|old_|] == Pending(b.nextSequence + Owed(targets, outcomes, i), id, x.mode, message);
    forall j | 0 <= j < |old_| ensures list[j].ackId != id {
      assert list[j] == old_[j];
      IdIsNew(b, x.session, old_[j]);
    }
    FindAckAt(list, id, 0, |old_|);
    MarkedIs(message, x, destination, body, headers, id);
    AddresseesAreTargets(b, destination, active, targets);
    TargetsAreSubscribed(b, destination, active, x);
    assert x in At(b.subscriptions, destination);
    assert x in At(b'.subscriptions, destination);
    assert HasSubscription(b', x.session, x.id);
  }

  lemma {:induction false} FirstOwed(targets: seq<Subscription>, outcomes: nat -> Delivery, s: SessionId, i: nat)
    returns (k: nat)
    requires i < |targets| && Owes(targets, outcomes, i) && targets[i].session == s
    ensures k <= i && Owes(targets, outcomes, k) && targets[k].session == s
    ensures forall j :: 0 <= j < k && Owes(targets, outcomes, j) ==> targets[j].session != s
    decreases i
  {
    if j: nat :| j < i && Owes(targets, outcomes, j) && targets[j].session == s {
      k := FirstOwed(targets, outcomes, s, j);
    } else {
      k := i;
    }
  }

  /** So what comes back is the delivery refused if and only if it is the first of its session in that publish. */
  lemma NackExactly(b: Broker, destination: string, body: string, headers: map<string, string>,
                    active: set<SessionId>, outcomes: nat -> Delivery, targets: seq<Subscription>, i: nat)
    requires destination in b.subscriptions && Addressees(b, destination, active, targets) && Issued(b)
    requires NoDuplicates(targets)
    requires i < |targets| && Owes(targets, outcomes, i) && !Dead(targets, outcomes, targets[i].session)
    ensures var b' := Published(b, destination, body, headers, active, outcomes);
            var again := Redelivered(b', targets[i].session, ToText(b.nextMessage), true);
            && again.Some?
            && (HeaderOf(again.value, "subscription") == targets[i].id <==>
                  forall j :: 0 <= j < i && Owes(targets, outcomes, j) ==> targets[j].session != targets[i].session)
  {
    hide Published, Addressees, Redelivered, ToText, Dead, Owes, Issued;
    var k := FirstOwed(targets, outcomes, targets[i].session, i);
    NackResends(b, destination, body, headers, active, outcomes, targets, k);
  }

  lemma {:induction false} NobodyEarlier(targets: seq<Subscription>, outcomes: nat -> Delivery, s: SessionId, n: nat)
    requires n <= |targets|
    requires forall j :: 0 <= j < n && Owes(targets, outcomes, j) ==> targets[j].session != s
    ensures OwedBy(targets, outcomes, s, n) == 0
    ensures OwedBy(targets, outcomes, s, 0) == 0 && Owed(targets, outcomes, 0) == 0
  {
    if n > 0 { NobodyEarlier(targets, outcomes, s, n - 1); }
  }

  /** An acknowledgement concerns its own session only, and is refused exactly when no entry of it has that id. */
  lemma AckConcernsItsSession(b: Broker, s: SessionId, ackId: string)
    ensures var b' := Acknowledged(b, s, ackId);
            && (Acknowledges(b, s, ackId) <==> exists e :: e in PendingOf(b, s) && e.ackId == ackId)
            && (!Acknowledges(b, s, ackId) ==> b' == b)
            && (Acknowledges(b, s, ackId) ==> PendingOf(b', s) == Acked(PendingOf(b, s), ackId))
            && (forall t :: t != s ==> PendingOf(b', t) == PendingOf(b, t))
            && b' == b.(pending := b'.pending)
  {
    hide Acked;
    var list := PendingOf(b, s);
    var k := FindAck(list, ackId, 0);
    if k < |list| { assert list[k] in list; }
  }
}
