/**
 The in-process STOMP broker: subscriptions per destination, round-robin queues, and acknowledgements.
 Sessions are numbers; whether one is active, and whether it accepts a message, comes from outside.
 */
module StompBroker {
  import opened Common
  import opened Decimal
  import opened StompCodec

  type SessionId = nat

  datatype AckMode = Auto | Client | ClientIndividual

  datatype Subscription = Subscription(session: SessionId, id: string, mode: AckMode, principal: string)

  datatype Pending = Pending(sequence: nat, ackId: string, mode: AckMode, message: Frame)

  datatype Broker = Broker(
    subscriptions: map<string, seq<Subscription>>, cursors: map<string, nat>,
    pending: map<SessionId, seq<Pending>>, nextMessage: nat, nextSequence: nat)

  const EMPTY_BROKER := Broker(map[], map[], map[], 1, 1)

  predicate Supported(destination: string) {
    "/topic/" <= destination || "/queue/" <= destination || "/user/" <= destination
  }

  function CursorOf(b: Broker, destination: string): nat {
    if destination in b.cursors then b.cursors[destination] else 0
  }

  function At<T>(m: map<string, seq<T>>, k: string): seq<T> { if k in m then m[k] else [] }

  function PendingOf(b: Broker, s: SessionId): seq<Pending> { if s in b.pending then b.pending[s] else [] }

  // ---------------------------------------------------------------- subscribe and unsubscribe

  predicate SameSubscriber(x: Subscription, session: SessionId, id: string) { x.session == session && x.id == id }

  function FindSubscriber(list: seq<Subscription>, session: SessionId, id: string, from: nat): (k: nat)
    requires from <= |list|
    ensures from <= k <= |list| && (k < |list| ==> SameSubscriber(list[k], session, id))
    ensures forall i :: from <= i < k ==> !SameSubscriber(list[i], session, id)
    decreases |list| - from
  {
    if from == |list| || SameSubscriber(list[from], session, id) then from
    else FindSubscriber(list, session, id, from + 1)
  }

  /** Subscribing again under the same id replaces the earlier subscription to that destination. */
  function Upsert(list: seq<Subscription>, x: Subscription): seq<Subscription> {
    var k := FindSubscriber(list, x.session, x.id, 0);
    if k < |list| then list[k := x] else list + [x]
  }

  predicate MaySubscribe(destination: string, x: Subscription, active: bool) {
    Supported(destination) && x.id != "" && x.session != 0 && active
  }

  function Subscribed(b: Broker, destination: string, x: Subscription, active: bool): Broker {
    if !MaySubscribe(destination, x, active) then b
    else b.(subscriptions := b.subscriptions[destination := Upsert(At(b.subscriptions, destination), x)])
  }

  function Without(list: seq<Subscription>, gone: Subscription -> bool): seq<Subscription> {
    if list == [] then []
    else Without(list[..|list| - 1], gone) + if gone(list[|list| - 1]) then [] else [list[|list| - 1]]
  }

  function Cleaned(subscriptions: map<string, seq<Subscription>>, gone: Subscription -> bool)
    : map<string, seq<Subscription>>
  {
    map d | d in subscriptions && Without(subscriptions[d], gone) != [] :: Without(subscriptions[d], gone)
  }

  /** Unsubscribing also drops everything the session has not acknowledged. */
  function Unsubscribed(b: Broker, session: SessionId, id: string): Broker {
    b.(subscriptions := Cleaned(b.subscriptions, (x: Subscription) => SameSubscriber(x, session, id)),
       pending := b.pending - {session})
  }

  lemma {:induction false} WithoutIs(list: seq<Subscription>, gone: Subscription -> bool)
    ensures forall x :: x in Without(list, gone) <==> x in list && !gone(x)
  {
    if list != [] {
      WithoutIs(list[..|list| - 1], gone);
      assert list == list[..|list| - 1] + [list[|list| - 1]];
    }
  }

  // ---------------------------------------------------------------- acknowledgements

  function FindAck(list: seq<Pending>, ackId: string, from: nat): (k: nat)
    requires from <= |list|
    ensures from <= k <= |list| && (k < |list| ==> list[k].ackId == ackId)
    ensures forall i :: from <= i < k ==> list[i].ackId != ackId
    decreases |list| - from
  {
    if from == |list| || list[from].ackId == ackId then from else FindAck(list, ackId, from + 1)
  }

  /** Keeps what was delivered after `sequence`. */
  function After(list: seq<Pending>, sequence: nat): seq<Pending> {
    if list == [] then []
    else After(list[..|list| - 1], sequence) + if list[|list| - 1].sequence <= sequence then [] else [list[|list| - 1]]
  }

  function Acked(list: seq<Pending>, ackId: string): seq<Pending> {
    var k := FindAck(list, ackId, 0);
    if k == |list| then list
    else if list[k].mode.Client? then After(list, list[k].sequence)
    else list[..k] + list[k + 1..]
  }

  function SetPending(b: Broker, s: SessionId, list: seq<Pending>): Broker {
    b.(pending := if list == [] then b.pending - {s} else b.pending[s := list])
  }

  predicate Acknowledges(b: Broker, s: SessionId, ackId: string) {
    FindAck(PendingOf(b, s), ackId, 0) < |PendingOf(b, s)|
  }

  function Acknowledged(b: Broker, s: SessionId, ackId: string): Broker {
    if Acknowledges(b, s, ackId) then SetPending(b, s, Acked(PendingOf(b, s), ackId)) else b
  }

  ghost predicate Increasing(list: seq<Pending>) {
    forall i, j :: 0 <= i < j < |list| ==> list[i].sequence < list[j].sequence
  }

  lemma {:induction false} AfterIsSuffix(list: seq<Pending>, k: nat)
    requires k < |list| && Increasing(list)
    ensures After(list, list[k].sequence) == list[k + 1..]
    decreases |list|
  {
    var n := |list| - 1;
    var front := list[..n];
    if k < n {
      assert front[k] == list[k];
      AfterIsSuffix(front, k);
      assert list[k + 1..] == front[k + 1..] + [list[n]];
    } else {
      AfterNothing(front, list[k].sequence);
      assert list[k + 1..] == [];
    }
  }

  lemma {:induction false} AfterNothing(list: seq<Pending>, sequence: nat)
    requires forall i :: 0 <= i < |list| ==> list[i].sequence <= sequence
    ensures After(list, sequence) == []
  {
    if list != [] { AfterNothing(list[..|list| - 1], sequence); }
  }

  /** A cumulative ack removes exactly the prefix up to the message; an individual one exactly that entry. */
  lemma AckRemoves(list: seq<Pending>, ackId: string)
    requires Increasing(list) && FindAck(list, ackId, 0) < |list|
    ensures var k := FindAck(list, ackId, 0);
            && list[k].ackId == ackId
            && Acked(list, ackId) == (if list[k].mode.Client? then list[k + 1..] else list[..k] + list[k + 1..])
            && Increasing(Acked(list, ackId))
  {
    hide After;
    var k := FindAck(list, ackId, 0);
    AfterIsSuffix(list, k);
    assert Increasing(list[k + 1..]) && Increasing(list[..k] + list[k + 1..]);
  }

  // ---------------------------------------------------------------- publish

  /** What becomes of one delivery attempt. */
  datatype Delivery = Inactive | Accepted | Refused(stillActive: bool)

  /** The first active subscriber of a queue at or after the cursor, going round once. */
  function QueueTarget(list: seq<Subscription>, cursor: nat, active: set<SessionId>, offset: nat): seq<Subscription>
    requires offset <= |list|
    decreases |list| - offset
  {
    if offset == |list| then []
    else
      var candidate := list[(cursor + offset) % |list|];
      if candidate.session in active then [candidate] else QueueTarget(list, cursor, active, offset + 1)
  }

  function WithPrincipal(list: seq<Subscription>, principal: string): seq<Subscription> {
    Without(list, (x: Subscription) => x.principal != principal)
  }

  /** `None` when a user destination names no queue behind the principal. */
  function Targets(b: Broker, destination: string, active: set<SessionId>): Option<seq<Subscription>> {
    var list := At(b.subscriptions, destination);
    if "/queue/" <= destination then
      Some(QueueTarget(list, CursorOf(b, destination), active, 0))
    else if "/user/" <= destination then
      var slash := Find(destination, '/', 6);
      if slash == |destination| then None else Some(WithPrincipal(list, destination[6..slash]))
    else Some(list)
  }

  function MessageFor(target: Subscription, destination: string, body: string, headers: map<string, string>,
                      id: string): Frame {
    var h := headers["destination" := destination]["subscription" := target.id]["message-id" := id];
    Frame("MESSAGE", if target.mode.Auto? then h else h["ack" := id], body)
  }

  /** An accepted message that must be acknowledged becomes pending, under the next sequence number. */
  function Deliver(b: Broker, target: Subscription, message: Frame, id: string, outcome: Delivery): Broker {
    if outcome.Accepted? && !target.mode.Auto? then
      var entry := Pending(b.nextSequence, id, target.mode, message);
      b.(pending := b.pending[target.session := PendingOf(b, target.session) + [entry]],
         nextSequence := b.nextSequence + 1)
    else b
  }

  predicate IsStale(outcome: Delivery) { outcome.Inactive? || (outcome.Refused? && !outcome.stillActive) }

  function DeliverAll(b: Broker, targets: seq<Subscription>, i: nat, destination: string, body: string,
                      headers: map<string, string>, id: string, outcomes: nat -> Delivery): Broker
    requires i <= |targets|
    decreases |targets| - i
  {
    if i == |targets| then b
    else
      var message := MessageFor(targets[i], destination, body, headers, id);
      var next := Deliver(b, targets[i], message, id, outcomes(i));
      DeliverAll(next, targets, i + 1, destination, body, headers, id, outcomes)
  }

  function StaleSessions(targets: seq<Subscription>, outcomes: nat -> Delivery): set<SessionId> {
    set i | 0 <= i < |targets| && IsStale(outcomes(i)) :: targets[i].session
  }

  function AcceptedCount(targets: seq<Subscription>, outcomes: nat -> Delivery, n: nat): nat
    requires n <= |targets|
  {
    if n == 0 then 0 else AcceptedCount(targets, outcomes, n - 1) + if outcomes(n - 1).Accepted? then 1 else 0
  }

  /** The cursor moves with every message for a queue that has subscribers. */
  function Counted(b: Broker, destination: string): Broker {
    var moved := if "/queue/" <= destination
                 then b.(cursors := b.cursors[destination := CursorOf(b, destination) + 1])
                 else b;
    moved.(nextMessage := b.nextMessage + 1)
  }

  function Published(b: Broker, destination: string, body: string, headers: map<string, string>,
                     active: set<SessionId>, outcomes: nat -> Delivery): Broker {
    if !Supported(destination) || destination !in b.subscriptions then b
    else
      var targets := Targets(b, destination, active);
      if targets.None? then b
      else
        var sent := DeliverAll(Counted(b, destination), targets.value, 0, destination, body, headers,
                               ToText(b.nextMessage), outcomes);
        var stale := StaleSessions(targets.value, outcomes);
        if stale == {} then sent
        else sent.(subscriptions := Cleaned(sent.subscriptions, (x: Subscription) => x.session in stale))
  }

  // ---------------------------------------------------------------- what every broker call keeps

  ghost predicate HasSubscription(b: Broker, s: SessionId, id: string) {
    exists d, x :: d in b.subscriptions && x in b.subscriptions[d] && x.session == s && x.id == id
  }

  /** A pending list: not empty, in order of delivery, and numbered below the next sequence. */
  ghost predicate InOrder(list: seq<Pending>, next: nat) {
    list != [] && Increasing(list) && forall i :: 0 <= i < |list| ==> list[i].sequence < next
  }

  ghost predicate Ordered(b: Broker) {
    forall s :: s in b.pending ==> InOrder(b.pending[s], b.nextSequence)
  }

  lemma InOrderSnoc(list: seq<Pending>, next: nat, e: Pending)
    requires (list == [] || InOrder(list, next)) && e.sequence == next
    ensures InOrder(list + [e], next + 1)
    ensures list != [] ==> InOrder(list, next + 1)
  {
  }

  lemma InOrderAcked(list: seq<Pending>, next: nat, ackId: string)
    requires InOrder(list, next) && FindAck(list, ackId, 0) < |list|
    ensures Acked(list, ackId) == [] || InOrder(Acked(list, ackId), next)
  {
    hide Acked;
    AckRemoves(list, ackId);
  }

  lemma CleanedHas(subscriptions: map<string, seq<Subscription>>, gone: Subscription -> bool, d: string,
                   x: Subscription)
    requires d in Cleaned(subscriptions, gone) && x in Cleaned(subscriptions, gone)[d]
    ensures d in subscriptions && x in subscriptions[d] && !gone(x)
  {
    WithoutIs(subscriptions[d], gone);
  }

  lemma CleanedKeeps(subscriptions: map<string, seq<Subscription>>, gone: Subscription -> bool, d: string,
                     x: Subscription)
    requires d in subscriptions && x in subscriptions[d] && !gone(x)
    ensures d in Cleaned(subscriptions, gone) && x in Cleaned(subscriptions, gone)[d]
  {
    WithoutIs(subscriptions[d], gone);
  }

  /** Only the subscription under the same id gives way. */
  lemma UpsertHas(list: seq<Subscription>, x: Subscription, y: Subscription)
    ensures y in Upsert(list, x) ==> y == x || y in list
    ensures x in Upsert(list, x)
    ensures y in list && !SameSubscriber(y, x.session, x.id) ==> y in Upsert(list, x)
  {
    var k := FindSubscriber(list, x.session, x.id, 0);
    assert Upsert(list, x)[k] == x;
    if y in list && !SameSubscriber(y, x.session, x.id) {
      var i :| 0 <= i < |list| && list[i] == y;
      assert Upsert(list, x)[i] == y;
    }
  }

  lemma TargetsAreSubscribed(b: Broker, destination: string, active: set<SessionId>, x: Subscription)
    requires Targets(b, destination, active).Some? && x in Targets(b, destination, active).value
    ensures destination in b.subscriptions && x in b.subscriptions[destination]
  {
    var list := At(b.subscriptions, destination);
    if "/queue/" <= destination {
      QueueTargetIn(list, CursorOf(b, destination), active, 0);
    } else if "/user/" <= destination {
      var slash := Find(destination, '/', 6);
      WithoutIs(list, (y: Subscription) => y.principal != destination[6..slash]);
    }
  }

  /** The subscriber `k` places after the cursor, going round. */
  function InTurn(list: seq<Subscription>, cursor: nat, k: nat): Subscription
    requires list != []
  {
    list[(cursor + k) % |list|]
  }

  /** A queue message goes to the first active subscriber in turn, and to nobody only if none is active. */
  lemma {:induction false} QueueTargetIn(list: seq<Subscription>, cursor: nat, active: set<SessionId>, offset: nat)
    requires offset <= |list|
    ensures var target := QueueTarget(list, cursor, active, offset);
            if target == [] then forall k :: offset <= k < |list| ==> InTurn(list, cursor, k).session !in active
            else exists k :: offset <= k < |list| && target == [InTurn(list, cursor, k)] && target[0].session in active
                             && forall j :: offset <= j < k ==> InTurn(list, cursor, j).session !in active
    ensures forall x :: x in QueueTarget(list, cursor, active, offset) ==> x in list
    decreases |list| - offset
  {
    if offset < |list| {
      assert InTurn(list, cursor, offset) == list[(cursor + offset) % |list|];
      if InTurn(list, cursor, offset).session !in active { QueueTargetIn(list, cursor, active, offset + 1); }
    }
  }

  function Turn(cursor: nat, n: nat, i: nat): nat
    requires n > 0
  {
    (cursor + i) % n
  }

  datatype Message = Message(body: string, headers: map<string, string>, outcome: Delivery)

  /** The broker after the first `n` of a series of messages to one destination, each with one delivery. */
  function AfterMessages(b: Broker, destination: string, active: set<SessionId>, messages: seq<Message>, n: nat): Broker
    requires n <= |messages|
  {
    if n == 0 then b
    else
      var m := messages[n - 1];
      Published(AfterMessages(b, destination, active, messages, n - 1), destination, m.body, m.headers, active,
          _ => m.outcome)
  }

  /** Messages to a queue move its cursor one by one and, while nobody is found dead, leave the subscribers alone. */
  lemma {:induction false} AfterMessagesIs(b: Broker, destination: string, active: set<SessionId>,
                                           messages: seq<Message>, n: nat)
    requires n <= |messages| && "/queue/" <= destination && destination in b.subscriptions
    requires forall i :: 0 <= i < |messages| ==> !IsStale(messages[i].outcome)
    ensures var b' := AfterMessages(b, destination, active, messages, n);
            b'.subscriptions == b.subscriptions && CursorOf(b', destination) == CursorOf(b, destination) + n
  {
    hide DeliverAll, ToText;
    if n > 0 {
      AfterMessagesIs(b, destination, active, messages, n - 1);
      var before, m := AfterMessages(b, destination, active, messages, n - 1), messages[n - 1];
      var targets := Targets(before, destination, active).value;
      DeliverAllTouches(Counted(before, destination), targets, 0, destination, m.body, m.headers,
          ToText(before.nextMessage), _ => m.outcome);
      assert StaleSessions(targets, _ => m.outcome) == {};
    }
  }

  lemma {:induction false} DeliverAllTouches(
    b: Broker, targets: seq<Subscription>, i: nat, destination: string, body: string,
    headers: map<string, string>, id: string, outcomes: nat -> Delivery)
    requires i <= |targets|
    ensures var b' := DeliverAll(b, targets, i, destination, body, headers, id, outcomes);
            b'.subscriptions == b.subscriptions && b'.cursors == b.cursors && b'.nextMessage == b.nextMessage
    decreases |targets| - i
  {
    if i < |targets| {
      var message := MessageFor(targets[i], destination, body, headers, id);
      var next := Deliver(b, targets[i], message, id, outcomes(i));
      DeliverAllTouches(next, targets, i + 1, destination, body, headers, id, outcomes);
    }
  }

  /**
   Round robin: while everyone is active and stays, of as many messages in a row as there are subscribers exactly one
   reaches each of them.
   */
  lemma EveryoneIsServed(b: Broker, destination: string, active: set<SessionId>, messages: seq<Message>,
                         x: Subscription)
    returns (i: nat)
    requires "/queue/" <= destination && destination in b.subscriptions && x in b.subscriptions[destination]
    requires var list := b.subscriptions[destination];
             NoDuplicates(list) && |messages| == |list| && forall y :: y in list ==> y.session in active
    requires forall j :: 0 <= j < |messages| ==> !IsStale(messages[j].outcome)
    ensures i < |messages|
    ensures forall j :: 0 <= j < |messages| ==>
              var before := AfterMessages(b, destination, active, messages, j);
              (Targets(before, destination, active) == Some([x]) <==> j == i)
  {
    hide AfterMessages, Targets, QueueTarget, Turn;
    var list, cursor := b.subscriptions[destination], CursorOf(b, destination);
    WithoutOnce(list, _ => false);
    var k :| 0 <= k < |list| && list[k] == x;
    i := PlaceInTurn(|list|, cursor, k);
    forall j | 0 <= j < |messages|
      ensures Targets(AfterMessages(b, destination, active, messages, j), destination, active) == Some([x]) <==> j == i
    {
      AfterMessagesIs(b, destination, active, messages, j);
      var t := Turn(cursor, |list|, j);
      TurnOf(cursor, |list|, j);
      QueueTargets(AfterMessages(b, destination, active, messages, j), destination, active, cursor + j);
      TurnIs(cursor, |list|, j);
      assert list[t] == x <==> t == k;
    }
  }

  lemma QueueTargets(b: Broker, destination: string, active: set<SessionId>, cursor: nat)
    requires "/queue/" <= destination && CursorOf(b, destination) == cursor
    requires destination in b.subscriptions && b.subscriptions[destination] != []
    requires forall y :: y in b.subscriptions[destination] ==> y.session in active
    ensures var list := b.subscriptions[destination];
            Targets(b, destination, active) == Some([list[cursor % |list|]])
  {
    var list := b.subscriptions[destination];
    assert list[cursor % |list|] in list;
    AtCursor(list, cursor, active);
  }

  lemma TurnIs(cursor: nat, n: nat, i: nat)
    requires n > 0
    ensures Turn(cursor, n, i) == (cursor + i) % n
  {
  }

  /** Among `n` messages from a cursor on, the one whose turn it is for place `k`. */
  lemma PlaceInTurn(n: nat, cursor: nat, k: nat) returns (i: nat)
    requires k < n
    ensures i < n && forall j :: 0 <= j < n ==> (Turn(cursor, n, j) == k <==> j == i)
  {
    var r := cursor % n;
    i := if k >= r then k - r else k + n - r;
    hide Turn;
    forall j | 0 <= j < n ensures Turn(cursor, n, j) == k <==> j == i { TurnOf(cursor, n, j); }
  }

  lemma AtCursor(list: seq<Subscription>, cursor: nat, active: set<SessionId>)
    requires list != [] && list[cursor % |list|].session in active
    ensures QueueTarget(list, cursor, active, 0) == [list[cursor % |list|]]
  {
  }

  lemma TurnOf(cursor: nat, n: nat, i: nat)
    requires i < n
    ensures var r := cursor % n; Turn(cursor, n, i) == if r + i < n then r + i else r + i - n
  {
    var q, r := cursor / n, cursor % n;
    assert cursor == q * n + r;
    if r + i < n { DivUnique(cursor + i, n, q, r + i); }
    else {
      assert (q + 1) * n == q * n + n;
      DivUnique(cursor + i, n, q + 1, r + i - n);
    }
  }

  /** A message to `/user/P/...` reaches only subscribers with principal P. */
  lemma UserMessagesArePrivate(b: Broker, destination: string, active: set<SessionId>, x: Subscription)
    requires "/user/" <= destination && Targets(b, destination, active).Some?
             && x in Targets(b, destination, active).value
    ensures x.principal == destination[6..Find(destination, '/', 6)]
  {
    assert !("/queue/" <= destination) by { assert "/queue/"[1] == 'q' && "/user/"[1] == 'u'; }
    var slash := Find(destination, '/', 6);
    WithoutIs(At(b.subscriptions, destination), (y: Subscription) => y.principal != destination[6..slash]);
  }

  /** The subscribers with that principal, in their order. */
  function OfPrincipal(list: seq<Subscription>, principal: string): seq<Subscription> {
    if list == [] then []
    else IfPrincipal(list[0], principal) + OfPrincipal(list[1..], principal)
  }

  function IfPrincipal(x: Subscription, principal: string): seq<Subscription> {
    if x.principal == principal then [x] else []
  }

  lemma {:induction false} OfPrincipalAppend(a: seq<Subscription>, b: seq<Subscription>, principal: string)
    ensures OfPrincipal(a + b, principal) == OfPrincipal(a, principal) + OfPrincipal(b, principal)
    decreases |a|
  {
    hide IfPrincipal;
    if a == [] {
      assert a + b == b;
    } else {
      assert (a + b)[1..] == a[1..] + b;
      OfPrincipalAppend(a[1..], b, principal);
    }
  }

  lemma {:induction false} WithPrincipalIs(list: seq<Subscription>, principal: string)
    ensures WithPrincipal(list, principal) == OfPrincipal(list, principal)
  {
    if list != [] {
      var front, last := list[..|list| - 1], [list[|list| - 1]];
      WithPrincipalIs(front, principal);
      assert front + last == list && last[1..] == [];
      OfPrincipalAppend(front, last, principal);
    }
  }

  /**
   Whom a message is for. A topic: everyone subscribed to it. A destination of a user: everyone subscribed to it under
   that principal. A queue: the first active subscriber in turn, and nobody when none is active.
   */
  ghost predicate Addressees(b: Broker, destination: string, active: set<SessionId>, targets: seq<Subscription>) {
    var list := At(b.subscriptions, destination);
    || ("/topic/" <= destination && targets == list)
    || (exists principal, rest ::
          && destination == UserDestination(principal, rest) && '/' !in principal
          && targets == OfPrincipal(list, principal))
    || ("/queue/" <= destination &&
        (|| (targets == [] && forall x :: x in list ==> x.session !in active)
         || exists k :: 0 <= k < |list| && targets == [InTurn(list, CursorOf(b, destination), k)]
              && targets[0].session in active
              && forall j :: 0 <= j < k ==> InTurn(list, CursorOf(b, destination), j).session !in active))
  }

  function UserDestination(principal: string, rest: string): string { "/user/" + principal + "/" + rest }

  lemma UserPath(principal: string, rest: string)
    requires '/' !in principal
    ensures var d := UserDestination(principal, rest);
            && "/user/" <= d && !("/queue/" <= d) && !("/topic/" <= d)
            && Find(d, '/', 6) == 6 + |principal| < |d| && d[6..6 + |principal|] == principal
            && d[6 + |principal| + 1..] == rest
  {
    var d := UserDestination(principal, rest);
    assert d[1] == 'u' && "/queue/"[1] == 'q' && "/topic/"[1] == 't';
    assert d[..6] == "/user/";
    forall i | 6 <= i < 6 + |principal| ensures d[i] != '/' {
      assert d[i] == principal[i - 6] && principal[i - 6] in principal;
    }
    FindUnique(d, '/', 6, 6 + |principal|);
  }

  /** Going round once from any cursor passes everyone. */
  lemma PassesEveryone(list: seq<Subscription>, cursor: nat, x: Subscription) returns (k: nat)
    requires x in list
    ensures k < |list| && InTurn(list, cursor, k) == x
  {
    var i :| 0 <= i < |list| && list[i] == x;
    k := PlaceInTurn(|list|, cursor, i);
    TurnIs(cursor, |list|, k);
  }

  lemma AddresseesAreTargets(b: Broker, destination: string, active: set<SessionId>, targets: seq<Subscription>)
    requires Addressees(b, destination, active, targets)
    ensures Supported(destination) && Targets(b, destination, active) == Some(targets)
  {
    hide OfPrincipal, QueueTarget, WithPrincipal;
    var list := At(b.subscriptions, destination);
    if "/topic/" <= destination {
      assert destination[1] == 't' && "/queue/"[1] == 'q' && "/user/"[1] == 'u';
    } else if "/queue/" <= destination {
      assert destination[1] == 'q' && "/user/"[1] == 'u';
      var cursor := CursorOf(b, destination);
      QueueTargetIn(list, cursor, active, 0);
    } else {
      var principal, rest :| destination == UserDestination(principal, rest) && '/' !in principal &&
        targets == OfPrincipal(list, principal);
      UserPath(principal, rest);
      WithPrincipalIs(list, principal);
    }
  }

  /** A message has addressees unless its destination is no broker destination or names no queue of the user. */
  lemma TargetsAreAddressees(b: Broker, destination: string, active: set<SessionId>)
    requires Supported(destination) && Targets(b, destination, active).Some?
    ensures Addressees(b, destination, active, Targets(b, destination, active).value)
  {
    hide OfPrincipal, QueueTarget, WithPrincipal;
    var list, targets := At(b.subscriptions, destination), Targets(b, destination, active).value;
    if "/queue/" <= destination {
      var cursor := CursorOf(b, destination);
      QueueTargetIn(list, cursor, active, 0);
      if targets == [] {
        forall x | x in list ensures x.session !in active { var k := PassesEveryone(list, cursor, x); }
      }
    } else if "/user/" <= destination {
      var slash := Find(destination, '/', 6);
      var principal, rest := destination[6..slash], destination[slash + 1..];
      assert destination == UserDestination(principal, rest) && '/' !in principal;
      WithPrincipalIs(list, principal);
    }
  }

  function DeliveredCount(b: Broker, destination: string, active: set<SessionId>, outcomes: nat -> Delivery): nat {
    var targets := Targets(b, destination, active);
    if Supported(destination) && destination in b.subscriptions && targets.Some?
    then AcceptedCount(targets.value, outcomes, |targets.value|) else 0
  }

  lemma {:induction false} AllCounted(targets: seq<Subscription>, outcomes: nat -> Delivery, n: nat)
    requires n <= |targets| && forall i :: 0 <= i < n ==> outcomes(i).Accepted?
    ensures AcceptedCount(targets, outcomes, n) == n
  {
    if n > 0 { AllCounted(targets, outcomes, n - 1); }
  }

  /** Where every addressee accepts, the number returned is the number of addressees. */
  lemma EveryoneCounts(b: Broker, destination: string, active: set<SessionId>, outcomes: nat -> Delivery,
                       targets: seq<Subscription>)
    requires Addressees(b, destination, active, targets) && AllAccept(outcomes, |targets|)
    ensures DeliveredCount(b, destination, active, outcomes) == |targets|
  {
    hide Targets, OfPrincipal;
    AddresseesAreTargets(b, destination, active, targets);
    AllCounted(targets, outcomes, |targets|);
    if targets != [] {
      assert targets[0] in targets;
      TargetsAreSubscribed(b, destination, active, targets[0]);
    }
  }

  predicate AllAccept(outcomes: nat -> Delivery, n: nat) { forall i :: 0 <= i < n ==> outcomes(i).Accepted? }

  ghost predicate CountsAddressees(b: Broker, destination: string, active: set<SessionId>, outcomes: nat -> Delivery,
                                   delivered: nat) {
    forall targets :: Addressees(b, destination, active, targets) && AllAccept(outcomes, |targets|) ==>
      delivered == |targets|
  }

  lemma EveryoneIsCounted(b: Broker, destination: string, active: set<SessionId>, outcomes: nat -> Delivery)
    ensures CountsAddressees(b, destination, active, outcomes, DeliveredCount(b, destination, active, outcomes))
    ensures "/topic/" <= destination && AllAccept(outcomes, |At(b.subscriptions, destination)|)
            ==> DeliveredCount(b, destination, active, outcomes) == |At(b.subscriptions, destination)|
  {
    hide DeliveredCount, Targets;
    forall targets | Addressees(b, destination, active, targets) && AllAccept(outcomes, |targets|)
      ensures DeliveredCount(b, destination, active, outcomes) == |targets|
    {
      EveryoneCounts(b, destination, active, outcomes, targets);
    }
    assert "/topic/" <= destination ==> Addressees(b, destination, active, At(b.subscriptions, destination));
  }

  lemma CountIs(b: Broker, destination: string, active: set<SessionId>, outcomes: nat -> Delivery)
    ensures DeliveredCount(b, destination, active, outcomes) ==
            var targets := Targets(b, destination, active);
            if Supported(destination) && destination in b.subscriptions && targets.Some?
            then AcceptedCount(targets.value, outcomes, |targets.value|) else 0
  {
  }

  lemma DeliverKeeps(b: Broker, target: Subscription, message: Frame, id: string, outcome: Delivery)
    requires Ordered(b)
    ensures Ordered(Deliver(b, target, message, id, outcome))
  {
    hide InOrder;
    if outcome.Accepted? && !target.mode.Auto? {
      var entry := Pending(b.nextSequence, id, target.mode, message);
      InOrderSnoc(PendingOf(b, target.session), b.nextSequence, entry);
      forall s | s in b.pending ensures InOrder(b.pending[s], b.nextSequence + 1) {
        InOrderNext(b.pending[s], b.nextSequence);
      }
    }
  }

  lemma InOrderNext(list: seq<Pending>, next: nat)
    requires InOrder(list, next)
    ensures InOrder(list, next + 1)
  {
  }

  /** Deliveries touch nothing but pending lists, and only those of targets. */
  lemma {:induction false} DeliverAllKeeps(
    b: Broker, targets: seq<Subscription>, i: nat, destination: string, body: string,
    headers: map<string, string>, id: string, outcomes: nat -> Delivery)
    requires i <= |targets| && Ordered(b)
    ensures var b' := DeliverAll(b, targets, i, destination, body, headers, id, outcomes);
            && Ordered(b') && b'.subscriptions == b.subscriptions
            && (forall s :: s in b'.pending ==> s in b.pending || exists x :: x in targets && x.session == s)
    decreases |targets| - i
  {
    hide Ordered;
    if i < |targets| {
      var message := MessageFor(targets[i], destination, body, headers, id);
      DeliverKeeps(b, targets[i], message, id, outcomes(i));
      assert targets[i] in targets;
      var next := Deliver(b, targets[i], message, id, outcomes(i));
      DeliverAllKeeps(next, targets, i + 1, destination, body, headers, id, outcomes);
    }
  }

  lemma AcknowledgedKeeps(b: Broker, s: SessionId, ackId: string)
    requires Ordered(b)
    ensures Ordered(Acknowledged(b, s, ackId))
    ensures Acknowledged(b, s, ackId).pending.Keys <= b.pending.Keys
  {
    hide InOrder, Acked;
    if Acknowledges(b, s, ackId) { InOrderAcked(b.pending[s], b.nextSequence, ackId); }
  }

  lemma PublishedKeeps(b: Broker, destination: string, body: string, headers: map<string, string>,
                       active: set<SessionId>, outcomes: nat -> Delivery)
    requires Ordered(b)
    ensures var b' := Published(b, destination, body, headers, active, outcomes);
            && Ordered(b')
            && (forall s, id :: HasSubscription(b', s, id) ==> HasSubscription(b, s, id))
            && (forall s :: s in b'.pending ==> s in b.pending || exists id :: HasSubscription(b, s, id))
  {
    hide InOrder, Targets, DeliverAll, Cleaned;
    var b' := Published(b, destination, body, headers, active, outcomes);
    var targets := Targets(b, destination, active);
    if Supported(destination) && destination in b.subscriptions && targets.Some? {
      CountedKeeps(b, destination);
      DeliverAllKeeps(Counted(b, destination), targets.value, 0, destination, body, headers, ToText(b.nextMessage),
          outcomes);
      var stale := StaleSessions(targets.value, outcomes);
      forall s, id | HasSubscription(b', s, id) ensures HasSubscription(b, s, id) {
        var d, x :| d in b'.subscriptions && x in b'.subscriptions[d] && x.session == s && x.id == id;
        if stale != {} { CleanedHas(b.subscriptions, (y: Subscription) => y.session in stale, d, x); }
      }
      forall s | s in b'.pending ensures s in b.pending || exists id :: HasSubscription(b, s, id) {
        if s !in b.pending {
          var x :| x in targets.value && x.session == s;
          TargetsAreSubscribed(b, destination, active, x);
          assert HasSubscription(b, s, x.id);
        }
      }
    }
  }

  /** At each destination a session subscribes at most once under an id. */
  ghost predicate NoDuplicates(list: seq<Subscription>) {
    forall i, j :: 0 <= i < j < |list| ==> !SameSubscriber(list[i], list[j].session, list[j].id)
  }

  ghost predicate WithoutDuplicates(subscriptions: map<string, seq<Subscription>>) {
    forall d :: d in subscriptions ==> NoDuplicates(subscriptions[d])
  }

  lemma SubscribedOnce(b: Broker, destination: string, x: Subscription, active: bool)
    requires WithoutDuplicates(b.subscriptions)
    ensures WithoutDuplicates(Subscribed(b, destination, x, active).subscriptions)
  {
  }

  lemma {:induction false} WithoutOnce(list: seq<Subscription>, gone: Subscription -> bool)
    requires NoDuplicates(list)
    ensures NoDuplicates(Without(list, gone)) && Distinct(list)
  {
    if list != [] {
      var front, last := list[..|list| - 1], list[|list| - 1];
      WithoutOnce(front, gone);
      WithoutIs(front, gone);
      var kept := Without(front, gone);
      forall i | 0 <= i < |kept| ensures !SameSubscriber(kept[i], last.session, last.id) {
        assert kept[i] in kept;
        var p :| 0 <= p < |front| && front[p] == kept[i];
        assert list[p] == kept[i];
      }
    }
  }

  /** No sweep, and so neither an unsubscribe nor a publish, makes duplicates. */
  lemma CleanedOnce(subscriptions: map<string, seq<Subscription>>, gone: Subscription -> bool)
    requires WithoutDuplicates(subscriptions)
    ensures WithoutDuplicates(Cleaned(subscriptions, gone))
  {
    forall d | d in subscriptions ensures NoDuplicates(Without(subscriptions[d], gone)) {
      WithoutOnce(subscriptions[d], gone);
    }
  }

  lemma CountedKeeps(b: Broker, destination: string)
    requires Ordered(b)
    ensures Ordered(Counted(b, destination))
    ensures Counted(b, destination).subscriptions == b.subscriptions && Counted(b, destination).pending == b.pending
  {
  }

  // ---------------------------------------------------------------- the broker object

  function SubscriptionHeader(f: Frame): string { HeaderOf(f, "subscription") }

  /** What a NACK sends: the pending message, marked, while the session still holds its subscription. */
  ghost function Redelivered(b: Broker, s: SessionId, ackId: string, accepts: bool): Option<Frame> {
    if !Acknowledges(b, s, ackId) || !accepts then None
    else
      var list := PendingOf(b, s);
      var message := list[FindAck(list, ackId, 0)].message;
      var again := message.(headers := message.headers["redelivered" := "true"]);
      if HasSubscription(b, s, SubscriptionHeader(again)) then Some(again) else None
  }

  /** The sweep over all destinations: erase what is gone, and destinations left without subscribers. */
  method Sweep(subscriptions: map<string, seq<Subscription>>, gone: Subscription -> bool)
    returns (swept: map<string, seq<Subscription>>)
    ensures swept == Cleaned(subscriptions, gone)
  {
    hide Without;
    swept := subscriptions;
    var left := subscriptions.Keys;
    while left != {}
      invariant left <= subscriptions.Keys
      invariant forall d :: d in left ==> d in swept && swept[d] == subscriptions[d]
      invariant forall d :: d in swept ==> d in subscriptions
      invariant forall d :: d in subscriptions && d !in left ==>
                  if Without(subscriptions[d], gone) == [] then d !in swept
                  else d in swept && swept[d] == Without(subscriptions[d], gone)
      decreases left
    {
      var d :| d in left;
      var kept := Without(swept[d], gone);
      swept := if kept == [] then swept - {d} else swept[d := kept];
      left := left - {d};
    }
  }

  class SimpleBroker {
    var subscriptions: map<string, seq<Subscription>>
    var cursors: map<string, nat>
    var pending: map<SessionId, seq<Pending>>
    var nextMessage: nat
    var nextSequence: nat

    function View(): Broker
      reads this
    {
      Broker(subscriptions, cursors, pending, nextMessage, nextSequence)
    }

    constructor ()
      ensures View() == EMPTY_BROKER
    {
      subscriptions, cursors, pending, nextMessage, nextSequence := map[], map[], map[], 1, 1;
    }

    method Subscribe(destination: string, x: Subscription, active: bool) returns (ok: bool)
      modifies this`subscriptions
      ensures ok <==>
              && ("/topic/" <= destination || "/queue/" <= destination || "/user/" <= destination)
              && x.id != "" && x.session != 0 && active
      ensures ok ==> destination in subscriptions && x in subscriptions[destination]
      ensures ok == MaySubscribe(destination, x, active) && View() == Subscribed(old(View()), destination, x, active)
    {
      if !Supported(destination) || x.id == "" || x.session == 0 || !active { return false; }
      var list := At(subscriptions, destination);
      var i := 0;
      while i < |list|
        invariant 0 <= i <= |list|
            && FindSubscriber(list, x.session, x.id, 0) == FindSubscriber(list, x.session, x.id, i)
      {
        if list[i].session == x.session && list[i].id == x.id {
          subscriptions := subscriptions[destination := list[i := x]];
          assert subscriptions[destination][i] == x;
          return true;
        }
        i := i + 1;
      }
      subscriptions := subscriptions[destination := list + [x]];
      return true;
    }

    method Unsubscribe(session: SessionId, id: string)
      modifies this`subscriptions, this`pending
      ensures View() == Unsubscribed(old(View()), session, id)
    {
      subscriptions := Sweep(subscriptions, (x: Subscription) => SameSubscriber(x, session, id));
      pending := pending - {session};
    }

    method Acknowledge(session: SessionId, ackId: string) returns (ok: bool)
      modifies this`pending
      ensures ok == Acknowledges(old(View()), session, ackId) && View() == Acknowledged(old(View()), session, ackId)
    {
      if session !in pending { return false; }
      var list := pending[session];
      var k := FindAck(list, ackId, 0);
      if k == |list| { return false; }
      var left := if list[k].mode.Client? then After(list, list[k].sequence) else list[..k] + list[k + 1..];
      pending := if left == [] then pending - {session} else pending[session := left];
      return true;
    }

    /**
     Asks for a message again. `accepts` says whether the session found is active and takes the frame. Nothing
     changes: the delivery stays pending.
     */
    method NegativeAcknowledge(session: SessionId, ackId: string, accepts: bool) returns (sent: Option<Frame>)
      ensures sent == Redelivered(View(), session, ackId, accepts)
    {
      if session !in pending { return None; }
      var list := pending[session];
      var k := FindAck(list, ackId, 0);
      if k == |list| { return None; }
      var message := list[k].message;
      var again := message.(headers := message.headers["redelivered" := "true"]);
      var found := false;
      var left := subscriptions.Keys;
      while left != {} && !found
        invariant left <= subscriptions.Keys
        invariant found ==> HasSubscription(View(), session, SubscriptionHeader(again))
        invariant !found ==> forall d, x :: d in subscriptions && d !in left && x in subscriptions[d] ==>
                               !SameSubscriber(x, session, SubscriptionHeader(again))
        decreases left, !found
      {
        var d :| d in left;
        var at := FindSubscriber(subscriptions[d], session, SubscriptionHeader(again), 0);
        found := at < |subscriptions[d]|;
        left := left - {d};
      }
      ghost var b := View();
      if !found && HasSubscription(b, session, SubscriptionHeader(again)) {
        var d, x :| d in b.subscriptions && x in b.subscriptions[d] && x.session == session
            && x.id == SubscriptionHeader(again);
        assert SameSubscriber(x, session, SubscriptionHeader(again));
        assert false;
      }
      return if found && accepts then Some(again) else None;
    }

    /** Returns how many sessions accepted the message. */
    method Publish(destination: string, body: string, headers: map<string, string>,
                   active: set<SessionId>, outcomes: nat -> Delivery) returns (delivered: nat)
      modifies this
      ensures View() == Published(old(View()), destination, body, headers, active, outcomes)
      ensures delivered == DeliveredCount(old(View()), destination, active, outcomes)
      ensures CountsAddressees(old(View()), destination, active, outcomes, delivered)
      ensures "/topic/" <= destination && AllAccept(outcomes, |At(old(subscriptions), destination)|)
              ==> delivered == |At(old(subscriptions), destination)|
    {
      EveryoneIsCounted(View(), destination, active, outcomes);
      hide CountsAddressees, AllAccept, DeliveredCount, Targets, MessageFor, ToText, Supported, DeliverAll,
           AcceptedCount, StaleSessions, Cleaned;
      CountIs(View(), destination, active, outcomes);
      if !Supported(destination) { return 0; }
      if destination !in subscriptions { return 0; }
      var targets := Targets(View(), destination, active);
      if targets.None? { return 0; }
      var id := ToText(nextMessage);
      if "/queue/" <= destination {
        cursors := cursors[destination := (if destination in cursors then cursors[destination] else 0) + 1];
      }
      nextMessage := nextMessage + 1;
      delivered := DeliverEach(targets.value, destination, body, headers, id, outcomes);
      var stale := StaleSessions(targets.value, outcomes);
      if stale != {} {
        subscriptions := Sweep(subscriptions, (x: Subscription) => x.session in stale);
      }
    }

    method DeliverEach(targets: seq<Subscription>, destination: string, body: string, headers: map<string, string>,
                       id: string, outcomes: nat -> Delivery) returns (delivered: nat)
      modifies this`pending, this`nextSequence
      ensures View() == DeliverAll(old(View()), targets, 0, destination, body, headers, id, outcomes)
      ensures delivered == AcceptedCount(targets, outcomes, |targets|)
    {
      hide MessageFor;
      delivered := 0;
      ghost var goal := DeliverAll(View(), targets, 0, destination, body, headers, id, outcomes);
      for i := 0 to |targets|
        invariant goal == DeliverAll(View(), targets, i, destination, body, headers, id, outcomes)
        invariant delivered == AcceptedCount(targets, outcomes, i)
        invariant subscriptions == old(subscriptions) && cursors == old(cursors) && nextMessage == old(nextMessage)
      {
        var target := targets[i];
        var message := MessageFor(target, destination, body, headers, id);
        if outcomes(i).Accepted? {
          delivered := delivered + 1;
          if !target.mode.Auto? {
            var list := if target.session in pending then pending[target.session] else [];
            pending := pending[target.session := list + [Pending(nextSequence, id, target.mode, message)]];
            nextSequence := nextSequence + 1;
          }
        }
      }
    }
  }
}
