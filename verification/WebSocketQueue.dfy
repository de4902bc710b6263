/**
 The cross-thread command queue, and every interleaving of it with its session: sends, pings, closes,
 overloads and drains in any order. Each queue operation holds the lock, so it is one step.
 */
module WebSocketQueue {
  import opened Common
  import opened WebSocketFrames
  import opened WebSocketSession

  datatype Command = Data(op: Opcode, payload: seq<byte>) | CloseCommand(code: nat, reason: seq<byte>)

  /** Bytes accounted for a queued command. */
  function Cost(c: Command): nat { if c.Data? then |c.payload| + 10 else 0 }

  function Costs(queue: seq<Command>): nat {
    if queue == [] then 0 else Costs(queue[..|queue| - 1]) + Cost(queue[|queue| - 1])
  }

  datatype Shared = Shared(limit: nat, active: bool, closing: bool, queuedBytes: nat, queue: seq<Command>)

  function Enqueued(s: Shared, c: Command): Shared
    requires c.Data?
  {
    if !s.active || s.closing then s
    else if s.queuedBytes + Cost(c) > s.limit then
      s.(queue := [CloseCommand(1013, Ascii(QUEUE_FULL))], queuedBytes := 0, closing := true)
    else s.(queue := s.queue + [c], queuedBytes := s.queuedBytes + Cost(c))
  }

  function EnqueuedClose(s: Shared, code: nat, reason: seq<byte>): Shared {
    if !s.active || s.closing then s
    else s.(closing := true, queue := s.queue + [CloseCommand(code, if |reason| > 123 then reason[..123] else reason)])
  }

  /** Byte count exact and bounded; at most one close command, behind everything else. */
  ghost predicate Accounted(s: Shared) {
    && s.queuedBytes == Costs(s.queue) && s.queuedBytes <= s.limit
    && (forall i :: 0 <= i < |s.queue| && s.queue[i].CloseCommand? ==> i == |s.queue| - 1 && s.closing)
    && (forall i :: 0 <= i < |s.queue| && s.queue[i].Data? ==> s.queue[i].op.Text? || s.queue[i].op.Binary?)
  }

  class SharedSession {
    const limit: nat
    var active: bool
    var closing: bool
    var queuedBytes: nat
    var queue: seq<Command>

    function View(): Shared
      reads this
    {
      Shared(limit, active, closing, queuedBytes, queue)
    }

    constructor (limit: nat)
      ensures View() == Shared(limit, true, false, 0, []) && Accounted(View())
    {
      this.limit := limit;
      active, closing, queuedBytes, queue := true, false, 0, [];
    }

    method Enqueue(op: Opcode, payload: seq<byte>) returns (accepted: bool)
      requires Accounted(View()) && (op.Text? || op.Binary?)
      modifies this
      ensures View() == Enqueued(old(View()), Data(op, payload)) && Accounted(View())
      ensures accepted == (old(active) && !old(closing) && old(queuedBytes) + |payload| + 10 <= limit)
      ensures accepted ==> queue == old(queue) + [Data(op, payload)] && queuedBytes == old(queuedBytes) + |payload| + 10
      ensures !accepted && old(active) && !old(closing) ==>
                queue == [CloseCommand(1013, Ascii(QUEUE_FULL))] && queuedBytes == 0 && closing
      ensures !old(active) || old(closing) ==> View() == old(View())
    {
      EnqueueKeeps(View(), Data(op, payload));
      if !active || closing { return false; }
      var cost := |payload| + 10;
      if queuedBytes + cost > limit {
        queue, queuedBytes, closing := [CloseCommand(1013, Ascii(QUEUE_FULL))], 0, true;
        return false;
      }
      queue, queuedBytes := queue + [Data(op, payload)], queuedBytes + cost;
      return true;
    }

    method EnqueueClose(code: nat, reason: seq<byte>) returns (accepted: bool)
      requires Accounted(View())
      modifies this
      ensures View() == EnqueuedClose(old(View()), code, reason) && Accounted(View())
      ensures accepted == (old(active) && !old(closing))
      ensures accepted ==> closing && queue == old(queue) + [CloseCommand(code, reason[..Min(123, |reason|)])]
      ensures !accepted ==> View() == old(View())
    {
      EnqueueCloseKeeps(View(), code, reason);
      if !active || closing { return false; }
      closing := true;
      assert reason[..Min(123, |reason|)] == if |reason| > 123 then reason[..123] else reason;
      queue := queue + [CloseCommand(code, if |reason| > 123 then reason[..123] else reason)];
      return true;
    }

    method MarkClosing()
      modifies this`closing
      ensures closing
    {
      closing := true;
    }

    method Deactivate()
      modifies this
      ensures View() == Shared(limit, false, true, 0, [])
    {
      active, closing, queue, queuedBytes := false, true, [], 0;
    }

    method TakeCommands() returns (commands: seq<Command>)
      modifies this`queuedBytes, this`queue
      ensures commands == old(queue) && queue == [] && queuedBytes == 0
    {
      queuedBytes := 0;
      commands := [];
      while queue != []
        invariant commands + queue == old(queue) && queuedBytes == 0
        decreases |queue|
      {
        commands := commands + [queue[0]];
        queue := queue[1..];
      }
    }
  }

  lemma CostsSnoc(queue: seq<Command>, c: Command)
    ensures Costs(queue + [c]) == Costs(queue) + Cost(c)
  {
    assert (queue + [c])[..|queue|] == queue;
  }

  lemma EnqueueKeeps(s: Shared, c: Command)
    requires Accounted(s) && c.Data? && (c.op.Text? || c.op.Binary?)
    ensures Accounted(Enqueued(s, c))
  {
    CostsSnoc(s.queue, c);
    CostsSnoc([], CloseCommand(1013, Ascii(QUEUE_FULL)));
    assert [] + [CloseCommand(1013, Ascii(QUEUE_FULL))] == [CloseCommand(1013, Ascii(QUEUE_FULL))];
    assert Costs([]) == 0;
  }

  lemma EnqueueCloseKeeps(s: Shared, code: nat, reason: seq<byte>)
    requires Accounted(s)
    ensures Accounted(EnqueuedClose(s, code, reason))
  {
    CostsSnoc(s.queue, CloseCommand(code, if |reason| > 123 then reason[..123] else reason));
  }

  // ---------------------------------------------------------------- the session and its queue together

  /**
   `drained` is every frame that has left the session. `held` are the commands the owner has taken from the queue and
   not executed yet: the lock is released between taking them and executing them.
   */
  datatype System = System(session: SessionState, shared: Shared, held: seq<Command>, drained: seq<OutFrame>)

  datatype Action =
    | Send(op: Opcode, payload: seq<byte>)
    | SendPong(payload: seq<byte>)
    | CloseNow(code: nat, reason: seq<byte>)
    | Take
    | Enqueue(op: Opcode, payload: seq<byte>)
    | EnqueueClose(code: nat, reason: seq<byte>)
    | Deactivate
    | TakeCommands
    | ExecuteNext
    | ReleaseTransport(bytes: nat)

  predicate IsData(op: Opcode) { op.Text? || op.Binary? }

  predicate Enabled(a: Action) { (a.Send? || a.Enqueue?) ==> IsData(a.op) }

  function Execute(s: SessionState, c: Command): SessionState {
    match c
    case Data(op, payload) => SendData(s, OutFrame(op, payload))
    case CloseCommand(code, reason) => CloseSession(s, code, reason)
  }

  function ExecuteAll(s: SessionState, commands: seq<Command>): SessionState
    decreases |commands|
  {
    if commands == [] then s else ExecuteAll(Execute(s, commands[0]), commands[1..])
  }

  /** A session that has sent its close frame tells the queue. */
  function WithSession(sys: System, session: SessionState): System {
    sys.(session := session, shared := if session.closeSent then sys.shared.(closing := true) else sys.shared)
  }

  function TakeAll(sys: System): System {
    sys.(session := sys.session.(frames := []), drained := sys.drained + sys.session.frames)
  }

  function Step(sys: System, a: Action): System {
    match a
    case Send(op, payload) => WithSession(sys, SendData(sys.session, OutFrame(op, payload)))
    case SendPong(payload) => WithSession(sys, SendFrame(sys.session, OutFrame(Pong, payload)))
    case CloseNow(code, reason) => WithSession(sys, CloseSession(sys.session, code, reason))
    case Take => TakeAll(sys)
    case Enqueue(op, payload) => sys.(shared := Enqueued(sys.shared, Data(op, payload)))
    case EnqueueClose(code, reason) => sys.(shared := EnqueuedClose(sys.shared, code, reason))
    case Deactivate => sys.(shared := Shared(sys.shared.limit, false, true, 0, []))
    case TakeCommands => sys.(shared := sys.shared.(queue := [], queuedBytes := 0), held := sys.held + sys.shared.queue)
    case ExecuteNext =>
      if sys.held == [] then sys
      else WithSession(sys.(held := sys.held[1..]), Execute(sys.session, sys.held[0]))
    case ReleaseTransport(bytes) =>
      if sys.session.transport.None? then sys
      else sys.(session := sys.session.(transport := Some(Released(sys.session.transport.value, bytes))))
  }

  function RunActions(sys: System, actions: seq<Action>): System
    decreases |actions|
  {
    if actions == [] then sys else RunActions(Step(sys, actions[0]), actions[1..])
  }

  /** Before the close frame there is none; afterwards exactly one, followed by no text or binary frame. */
  ghost predicate ClosesOnce(sent: seq<OutFrame>, closeSent: bool) {
    && (closeSent <==> exists i :: 0 <= i < |sent| && sent[i].op.Close?)
    && (forall i, j :: 0 <= i < j < |sent| && sent[i].op.Close? ==> sent[j].op.Pong?)
  }

  ghost predicate Bounded(s: SessionState) {
    && SizeOf(s.frames) <= Max(s.limit, 127)
    && (s.transport.Some? ==> s.transport.value.pending <= s.transport.value.max + if s.closeSent then 127 else 0)
  }

  ghost predicate SessionInv(drained: seq<OutFrame>, s: SessionState) {
    Bounded(s) && ClosesOnce(drained + s.frames, s.closeSent)
  }

  ghost predicate Inv(sys: System) {
    SessionInv(sys.drained, sys.session) && Accounted(sys.shared) && DataOnly(sys.held)
  }

  predicate DataOnly(commands: seq<Command>) {
    forall i :: 0 <= i < |commands| && commands[i].Data? ==> IsData(commands[i].op)
  }

  lemma ClosesOnceSnoc(sent: seq<OutFrame>, closeSent: bool, f: OutFrame)
    requires ClosesOnce(sent, closeSent) && (closeSent ==> f.op.Pong?)
    ensures ClosesOnce(sent + [f], closeSent || f.op.Close?)
  {
    var more := sent + [f];
    assert forall i :: 0 <= i < |sent| ==> more[i] == sent[i];
    assert more[|sent|] == f;
  }

  lemma ClosesOncePrefix(drained: seq<OutFrame>, frames: seq<OutFrame>)
    requires ClosesOnce(drained + frames, false)
    ensures ClosesOnce(drained, false)
  {
    assert forall i :: 0 <= i < |drained| ==> (drained + frames)[i] == drained[i];
  }

  lemma PushKeeps(drained: seq<OutFrame>, s: SessionState, f: OutFrame)
    requires ClosesOnce(drained + s.frames, s.closeSent) && (s.closeSent ==> f.op.Pong?)
    ensures ClosesOnce(drained + Push(s, f).frames, s.closeSent || f.op.Close?)
    ensures SizeOf(Push(s, f).frames) == SizeOf(s.frames) + Size(f)
  {
    hide ClosesOnce;
    assert drained + (s.frames + [f]) == drained + s.frames + [f];
    ClosesOnceSnoc(drained + s.frames, s.closeSent, f);
    SizeOfSnoc(s.frames, f);
  }

  lemma CloseKeeps(drained: seq<OutFrame>, s: SessionState, code: nat, reason: seq<byte>)
    requires SessionInv(drained, s)
    ensures SessionInv(drained, CloseSession(s, code, reason))
    ensures CloseSession(s, code, reason).closeSent
  {
    hide ClosesOnce, SizeOf, CloseFrame;
    if !s.closeSent {
      var f := CloseFrame(code, reason);
      assert f.op.Close? by { CloseIsClose(code, reason); }
      var base := RoomFor(s, f);
      ClosesOncePrefix(drained, s.frames);
      assert drained + [] == drained;
      NoFramesNoSize();
      PushKeeps(drained, base, f);
    }
  }

  lemma CloseIsClose(code: nat, reason: seq<byte>)
    ensures CloseFrame(code, reason).op.Close?
  {
  }

  lemma SendFrameKeeps(drained: seq<OutFrame>, s: SessionState, f: OutFrame)
    requires SessionInv(drained, s) && !f.op.Close? && (s.closeSent ==> f.op.Pong?)
    ensures SessionInv(drained, SendFrame(s, f))
  {
    hide ClosesOnce;
    CloseKeeps(drained, s.(overloaded := true), 1013, Ascii(QUEUE_FULL));
    CloseKeeps(drained, s.(overloaded := true), 1013, Ascii(FLOW_FULL));
    PushKeeps(drained, s, f);
  }

  lemma ExecuteKeeps(drained: seq<OutFrame>, s: SessionState, c: Command)
    requires SessionInv(drained, s) && (c.Data? ==> IsData(c.op))
    ensures SessionInv(drained, Execute(s, c))
  {
    hide SessionInv;
    if c.Data? {
      if !s.closeSent { SendFrameKeeps(drained, s, OutFrame(c.op, c.payload)); }
    } else {
      CloseKeeps(drained, s, c.code, c.reason);
    }
  }

  lemma TakeKeeps(drained: seq<OutFrame>, s: SessionState)
    requires SessionInv(drained, s)
    ensures SessionInv(drained + s.frames, s.(frames := []))
  {
    assert drained + s.frames + [] == drained + s.frames;
  }

  lemma StepKeeps(sys: System, a: Action)
    requires Inv(sys) && Enabled(a)
    ensures Inv(Step(sys, a))
  {
    hide SessionInv;
    match a
    case Send(op, payload) =>
      if !sys.session.closeSent { SendFrameKeeps(sys.drained, sys.session, OutFrame(op, payload)); }
    case SendPong(payload) => SendFrameKeeps(sys.drained, sys.session, OutFrame(Pong, payload));
    case CloseNow(code, reason) => CloseKeeps(sys.drained, sys.session, code, reason);
    case Take => TakeKeeps(sys.drained, sys.session);
    case Enqueue(op, payload) => EnqueueKeeps(sys.shared, Data(op, payload));
    case EnqueueClose(code, reason) => EnqueueCloseKeeps(sys.shared, code, reason);
    case Deactivate =>
    case TakeCommands =>
    case ExecuteNext => if sys.held != [] { ExecuteKeeps(sys.drained, sys.session, sys.held[0]); }
    case ReleaseTransport(bytes) => ReleaseKeeps(sys, bytes);
  }

  lemma ReleaseKeeps(sys: System, bytes: nat)
    requires Inv(sys)
    ensures Inv(Step(sys, ReleaseTransport(bytes)))
  {
  }

  lemma {:induction false} RunKeeps(sys: System, actions: seq<Action>)
    requires Inv(sys) && forall a :: a in actions ==> Enabled(a)
    ensures Inv(RunActions(sys, actions))
    decreases |actions|
  {
    hide Inv, Step;
    if actions != [] {
      assert actions[0] in actions && forall a :: a in actions[1..] ==> a in actions;
      StepKeeps(sys, actions[0]);
      RunKeeps(Step(sys, actions[0]), actions[1..]);
    }
  }

  // ---------------------------------------------------------------- draining

  /** Executing what is held, one command after the other, is a run of `ExecuteNext` steps. */
  lemma {:induction false} DrainIsARun(sys: System)
    requires sys.session.closeSent ==> sys.shared.closing
    ensures RunActions(sys, Repeated(ExecuteNext, |sys.held|)) ==
            WithSession(sys.(held := []), ExecuteAll(sys.session, sys.held))
    decreases |sys.held|
  {
    hide Execute;
    if sys.held == [] {
      assert sys == sys.(held := []);
    } else {
      var next := Step(sys, ExecuteNext);
      assert Repeated(ExecuteNext, |sys.held|)[1..] == Repeated(ExecuteNext, |next.held|);
      DrainIsARun(next);
      ClosedStaysClosed(next.session, next.held);
    }
  }

  function Repeated(a: Action, n: nat): seq<Action> { seq(n, _ => a) }

  lemma {:induction false} ClosedStaysClosed(s: SessionState, commands: seq<Command>)
    ensures s.closeSent ==> ExecuteAll(s, commands).closeSent
    decreases |commands|
  {
    hide Execute;
    if commands != [] {
      OnceClosed(s, commands[0]);
      ClosedStaysClosed(Execute(s, commands[0]), commands[1..]);
    }
  }

  lemma OnceClosed(s: SessionState, c: Command)
    ensures s.closeSent ==> Execute(s, c).closeSent
  {
  }

  /** Takes the queue, executes it, and hands out what the session has buffered by then. */
  method DrainExternal(session: Session, shared: SharedSession) returns (taken: seq<byte>)
    requires session.Valid()
    modifies session, session.transport, shared
    ensures var after := ExecuteAll(old(session.View()), old(shared.queue));
            && session.Valid() && taken == Bytes(after.frames) && session.View() == after.(frames := [])
            && shared.queue == [] && shared.queuedBytes == 0 && shared.active == old(shared.active)
            && shared.closing == (old(shared.closing) || (after.closeSent && !old(session.closeSent)))
  {
    hide Bytes, SendData, CloseSession;
    var commands := shared.TakeCommands();
    ghost var goal := ExecuteAll(session.View(), commands);
    ghost var sentBefore := session.closeSent;
    assert commands[0..] == commands;
    for i := 0 to |commands|
      invariant session.Valid() && goal == ExecuteAll(session.View(), commands[i..])
      invariant shared.queue == [] && shared.queuedBytes == 0 && shared.active == old(shared.active)
      invariant shared.closing == (old(shared.closing) || (session.closeSent && !sentBefore))
      invariant sentBefore ==> session.closeSent
    {
      var c := commands[i];
      assert commands[i..][0] == c && commands[i..][1..] == commands[i + 1..];
      ghost var before := session.View();
      var closedBefore := session.closeSent;
      if c.Data? {
        var _ := session.SendDataBytes(c.op, c.payload);
      } else {
        var _ := session.CloseBytes(c.code, c.reason);
      }
      OnceClosed(before, c);
      if session.closeSent && !closedBefore { shared.MarkClosing(); }
    }
    taken := session.TakeOutbound();
  }

  function Fresh(sessionLimit: nat, queueLimit: nat, transport: Option<nat>): System {
    System(
      SessionState([], sessionLimit, false, false,
                   if transport.None? then None else Some(Transport(transport.value, 0)), 0),
      Shared(queueLimit, true, false, 0, []), [], [])
  }

  /**
   Every run from a fresh connection: the frames drained and still buffered contain at most one Close with
   no text or binary frame behind it, the buffer holds at most max(limit, 127) bytes, the transport counter
   exceeds its maximum by at most one close frame, and the queue is accounted for.
   */
  lemma EveryRunIsSafe(sessionLimit: nat, queueLimit: nat, transport: Option<nat>, actions: seq<Action>)
    requires forall a :: a in actions ==> Enabled(a)
    ensures var sys := RunActions(Fresh(sessionLimit, queueLimit, transport), actions);
            && ClosesOnce(sys.drained + sys.session.frames, sys.session.closeSent)
            && |Bytes(sys.session.frames)| <= Max(sys.session.limit, 127)
            && (sys.session.transport.Some? ==>
                  sys.session.transport.value.pending <= sys.session.transport.value.max + 127)
            && Accounted(sys.shared)
  {
    RunKeeps(Fresh(sessionLimit, queueLimit, transport), actions);
  }
}
