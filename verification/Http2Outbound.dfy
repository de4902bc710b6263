/**
 WebSocket output over an HTTP/2 stream: buffers queued by the session are handed out by the read
 callback, in whatever lengths the flow-control window allows, and released from the session's budget.
 */
module Http2Outbound {
  import opened Common
  import opened WebSocketSession
  import opened WebSocketQueue

  // ---------------------------------------------------------------- the stream's queue

  datatype Stream = Stream(outbound: seq<seq<byte>>, offset: nat, submitted: bool)

  predicate WellFormed(s: Stream) {
    && (forall i :: 0 <= i < |s.outbound| ==> s.outbound[i] != [])
    && (if s.outbound == [] then s.offset == 0 else s.offset < |s.outbound[0]|)
  }

  /** Bytes accepted and not handed out yet. */
  function Unread(s: Stream): seq<byte>
    requires WellFormed(s)
  {
    if s.outbound == [] then [] else s.outbound[0][s.offset..] + Flatten(s.outbound[1..])
  }

  /** The bytes one read hands out: never across the end of the first buffer. */
  function Chunk(s: Stream, length: nat): seq<byte>
    requires WellFormed(s)
  {
    if s.outbound == [] then []
    else s.outbound[0][s.offset..s.offset + Min(length, |s.outbound[0]| - s.offset)]
  }

  function AfterRead(s: Stream, length: nat): Stream
    requires WellFormed(s)
  {
    if s.outbound == [] then s.(submitted := false)
    else
      var offset := s.offset + |Chunk(s, length)|;
      if offset < |s.outbound[0]| then s.(offset := offset)
      else Stream(s.outbound[1..], 0, s.submitted && |s.outbound| > 1)
  }

  class Http2Stream {
    var active: bool
    var outbound: seq<seq<byte>>
    var offset: nat
    var submitted: bool
    const budget: TransportBackpressure

    function View(): Stream
      reads this
    {
      Stream(outbound, offset, submitted)
    }

    ghost predicate Valid()
      reads this
    {
      WellFormed(View())
    }

    constructor (budget: TransportBackpressure)
      ensures Valid() && active && !submitted && outbound == [] && this.budget == budget
    {
      this.budget := budget;
      active, outbound, offset, submitted := true, [], 0, false;
    }

    /** `accepted` is what nghttp2 answers to a submission. */
    method Queue(data: seq<byte>, accepted: bool)
      requires Valid()
      modifies this`outbound, this`submitted
      ensures Valid()
      ensures Unread(View()) == Unread(old(View())) + if active then data else []
      ensures submitted == (old(submitted) || (active && data != [] && accepted))
    {
      if data == [] || !active { return; }
      UnreadAppend(View(), data);
      outbound := outbound + [data];
      Submit(accepted);
    }

    method Submit(accepted: bool)
      modifies this`submitted
      ensures submitted == (old(submitted) || (outbound != [] && accepted))
    {
      if submitted || outbound == [] { return; }
      if !accepted { return; }
      submitted := true;
    }

    /** One read: a prefix of what is unread leaves, and as many bytes are released. */
    method Read(length: nat) returns (bytes: seq<byte>, eof: bool)
      requires Valid()
      modifies this`outbound, this`offset, this`submitted, budget
      ensures Valid() && View() == AfterRead(old(View()), length) && bytes == Chunk(old(View()), length)
      ensures Unread(old(View())) == bytes + Unread(View())
      ensures |bytes| == if old(outbound) == [] then 0 else Min(length, |old(outbound)[0]| - old(offset))
      ensures eof == (outbound == []) && (eof ==> !submitted)
      ensures budget.View() == Released(old(budget.View()), |bytes|)
    {
      hide Flatten, Unread;
      ReadSplits(View(), length);
      if outbound == [] {
        submitted := false;
        return [], true;
      }
      var current := outbound[0];
      var available := |current| - offset;
      var toWrite := if length < available then length else available;
      bytes := current[offset..offset + toWrite];
      offset := offset + toWrite;
      budget.Release(toWrite);
      if offset == |current| {
        outbound := outbound[1..];
        offset := 0;
      }
      if outbound == [] { submitted := false; }
      eof := outbound == [];
    }
  }

  /** What is unread, when the first buffer is cut at `cut`. */
  lemma UnreadCut(s: Stream, cut: nat)
    requires WellFormed(s) && s.outbound != [] && s.offset <= cut <= |s.outbound[0]|
    ensures Unread(s) == s.outbound[0][s.offset..cut] + (s.outbound[0][cut..] + Flatten(s.outbound[1..]))
  {
    hide Flatten;
    var first := s.outbound[0];
    assert first[s.offset..] == first[s.offset..cut] + first[cut..];
  }

  lemma UnreadFresh(rest: seq<seq<byte>>, submitted: bool)
    requires forall i :: 0 <= i < |rest| ==> rest[i] != []
    ensures WellFormed(Stream(rest, 0, submitted)) && Unread(Stream(rest, 0, submitted)) == Flatten(rest)
  {
    FlattenCons(rest);
    hide Flatten;
    if rest != [] { assert rest[0][0..] == rest[0]; }
  }

  lemma ReadShape(s: Stream, length: nat)
    requires WellFormed(s)
    ensures WellFormed(AfterRead(s, length)) && |Chunk(s, length)| <= length
    ensures length > 0 && s.outbound != [] ==> Chunk(s, length) != []
  {
  }

  lemma ReadSplits(s: Stream, length: nat)
    requires WellFormed(s)
    ensures WellFormed(AfterRead(s, length)) && |Chunk(s, length)| <= length
    ensures Unread(s) == Chunk(s, length) + Unread(AfterRead(s, length))
    ensures length > 0 && Unread(s) != [] ==> Chunk(s, length) != []
  {
    ReadShape(s, length);
    if s.outbound != [] {
      var first, chunk := s.outbound[0], Chunk(s, length);
      var cut := s.offset + |chunk|;
      UnreadCut(s, cut);
      if cut == |first| {
        UnreadFresh(s.outbound[1..], s.submitted && |s.outbound| > 1);
        hide Flatten, Unread, WellFormed;
        assert first[cut..] + Flatten(s.outbound[1..]) == Flatten(s.outbound[1..]);
      } else {
        hide Flatten, WellFormed;
        assert AfterRead(s, length) == s.(offset := cut);
      }
    }
  }

  lemma FlattenCons(ss: seq<seq<byte>>)
    ensures Flatten(ss) == if ss == [] then [] else ss[0] + Flatten(ss[1..])
  {
  }

  lemma UnreadAppend(s: Stream, data: seq<byte>)
    requires WellFormed(s) && data != []
    ensures var t := s.(outbound := s.outbound + [data]);
            WellFormed(t) && Unread(t) == Unread(s) + data
  {
    hide Flatten;
    FlattenSingleton(data);
    if s.outbound == [] {
      assert ([] + [data])[0][0..] == data && ([] + [data])[1..] == [];
      NothingFlat();
    } else {
      var first, rest := s.outbound[0][s.offset..], s.outbound[1..];
      assert (s.outbound + [data])[1..] == rest + [data] && (s.outbound + [data])[0] == s.outbound[0];
      FlattenAppend(rest, [data]);
      assert first + (Flatten(rest) + data) == first + Flatten(rest) + data;
    }
  }

  lemma NothingFlat()
    ensures Flatten<byte>([]) == []
  {
  }

  // ---------------------------------------------------------------- session, queue and stream together

  /**
   `queued` and `handed` are everything ever accepted by the stream and handed out by it; `lost` counts the bytes
   that reached an inactive stream.
   */
  datatype Pipe = Pipe(sys: System, stream: Stream, active: bool, queued: seq<byte>, handed: seq<byte>, lost: nat)

  datatype Event =
    | Local(action: Action)
    | Flush(accepted: bool)
    | ReadSome(length: nat)
    | Abandon

  /** The steps of the connection itself that leave its buffer alone or only fill it. */
  predicate Internal(a: Action) { Enabled(a) && !a.Take? && !a.ReleaseTransport? }

  function Accept(stream: Stream, data: seq<byte>, active: bool, accepted: bool): Stream {
    if data == [] || !active then stream
    else stream.(outbound := stream.outbound + [data], submitted := stream.submitted || accepted)
  }

  /** The session's output moves to the stream; an inactive stream drops it. */
  function Moved(p: Pipe, sys: System, taken: seq<byte>, accepted: bool): Pipe {
    p.(sys := sys, stream := Accept(p.stream, taken, p.active, accepted),
       queued := p.queued + (if p.active then taken else []), lost := p.lost + if p.active then 0 else |taken|)
  }

  function Next(p: Pipe, e: Event): Pipe
    requires WellFormed(p.stream)
  {
    match e
    case Local(a) => p.(sys := Step(p.sys, a))
    case Flush(accepted) => Moved(p, Step(p.sys, Take), Bytes(p.sys.session.frames), accepted)
    case ReadSome(length) =>
      p.(sys := Step(p.sys, ReleaseTransport(|Chunk(p.stream, length)|)),
         stream := AfterRead(p.stream, length),
         handed := p.handed + Chunk(p.stream, length))
    case Abandon => p.(active := false)
  }

  ghost predicate Conserved(p: Pipe) {
    && WellFormed(p.stream) && Inv(p.sys) && p.sys.session.transport.Some?
    && p.handed + Unread(p.stream) == p.queued
    && p.sys.session.transport.value.pending ==
       SizeOf(p.sys.session.frames) + |Unread(p.stream)| + p.sys.session.dropped + p.lost
  }

  /** Frames only reach the buffer with a reservation for them. */
  lemma PushReserves(s: SessionState, f: OutFrame)
    requires s.transport.Some?
    ensures SizeOf(Push(s, f).frames) - SizeOf(s.frames) ==
            Push(s, f).transport.value.pending - s.transport.value.pending
  {
    SizeOfSnoc(s.frames, f);
  }

  /** Reservations a session holds beyond what its buffer and its dropped frames account for. */
  function Outside(s: SessionState): int
    requires s.transport.Some?
  {
    s.transport.value.pending - SizeOf(s.frames) - s.dropped
  }

  ghost predicate Balanced(before: SessionState, after: SessionState) {
    before.transport.Some? && after.transport.Some? && Outside(after) == Outside(before)
  }

  lemma CloseBalances(s: SessionState, code: nat, reason: seq<byte>)
    requires s.transport.Some?
    ensures Balanced(s, CloseSession(s, code, reason))
  {
    if !s.closeSent {
      var f := CloseFrame(code, reason);
      PushReserves(RoomFor(s, f), f);
      NoFramesNoSize();
    }
  }

  lemma SendBalances(s: SessionState, f: OutFrame)
    requires s.transport.Some?
    ensures Balanced(s, SendFrame(s, f))
  {
    hide SizeOf, CloseSession;
    var marked := s.(overloaded := true);
    CloseBalances(marked, 1013, Ascii(QUEUE_FULL));
    CloseBalances(marked, 1013, Ascii(FLOW_FULL));
    PushReserves(s, f);
  }

  lemma LocalBalances(sys: System, a: Action)
    requires Internal(a) && sys.session.transport.Some?
    ensures Balanced(sys.session, Step(sys, a).session)
  {
    hide SizeOf, CloseSession, SendFrame;
    match a
    case Send(op, payload) => SendBalances(sys.session, OutFrame(op, payload));
    case SendPong(payload) => SendBalances(sys.session, OutFrame(WebSocketFrames.Pong, payload));
    case CloseNow(code, reason) => CloseBalances(sys.session, code, reason);
    case ExecuteNext =>
      if sys.held != [] {
        var c := sys.held[0];
        if c.Data? {
          SendBalances(sys.session, OutFrame(c.op, c.payload));
        } else {
          CloseBalances(sys.session, c.code, c.reason);
        }
      }
    case _ =>
  }

  lemma AcceptKeeps(stream: Stream, data: seq<byte>, active: bool, accepted: bool)
    requires WellFormed(stream)
    ensures WellFormed(Accept(stream, data, active, accepted))
    ensures Unread(Accept(stream, data, active, accepted)) == Unread(stream) + if active then data else []
  {
    if data != [] && active { UnreadAppend(stream, data); }
  }

  /** A read releases no more than is pending, so the counter drops by exactly what was handed out. */
  lemma ReadKeeps(p: Pipe, length: nat)
    requires Conserved(p)
    ensures Conserved(Next(p, ReadSome(length)))
    ensures Next(p, ReadSome(length)).sys.session.transport.value.pending ==
            p.sys.session.transport.value.pending - |Chunk(p.stream, length)|
  {
    hide SizeOf, Inv, Unread, Chunk, AfterRead, WellFormed;
    var bytes, after := Chunk(p.stream, length), AfterRead(p.stream, length);
    ReadSplits(p.stream, length);
    StepKeeps(p.sys, ReleaseTransport(|bytes|));
    assert p.handed + (bytes + Unread(after)) == p.handed + bytes + Unread(after);
  }

  ghost predicate Allowed(e: Event) { e.Local? ==> Internal(e.action) }

  /** Each step conserves bytes and budget; a release is never larger than what is pending. */
  lemma NextKeeps(p: Pipe, e: Event)
    requires Conserved(p) && Allowed(e)
    ensures Conserved(Next(p, e))
  {
    hide Inv, SizeOf, Step;
    match e
    case Local(a) =>
      StepKeeps(p.sys, a);
      LocalBalances(p.sys, a);
    case Flush(accepted) => FlushKeeps(p, accepted);
    case ReadSome(length) => ReadKeeps(p, length);
    case Abandon =>
  }

  lemma FlushKeeps(p: Pipe, accepted: bool)
    requires Conserved(p)
    ensures Conserved(Next(p, Flush(accepted)))
  {
    hide Inv, Unread, Accept, WellFormed, SizeOf, Bytes;
    StepKeeps(p.sys, Take);
    var taken := Bytes(p.sys.session.frames);
    AcceptKeeps(p.stream, taken, p.active, accepted);
    var extra := if p.active then taken else [];
    assert p.handed + (Unread(p.stream) + extra) == p.queued + extra;
    NoFramesNoSize();
  }

  ghost function RunEvents(p: Pipe, events: seq<Event>): Pipe
    requires Conserved(p) && forall e :: e in events ==> Allowed(e)
    decreases |events|
  {
    if events == [] then p
    else
      NextKeeps(p, events[0]);
      RunEvents(Next(p, events[0]), events[1..])
  }

  function Opened(limit: nat, max: nat): Pipe {
    Pipe(Fresh(limit, limit, Some(max)), Stream([], 0, false), true, [], [], 0)
  }

  lemma {:induction false} RunConserves(p: Pipe, events: seq<Event>)
    requires Conserved(p) && forall e :: e in events ==> Allowed(e)
    ensures Conserved(RunEvents(p, events))
    decreases |events|
  {
    hide Next, Inv, SizeOf, Unread;
    if events != [] {
      NextKeeps(p, events[0]);
      RunConserves(Next(p, events[0]), events[1..]);
    }
  }

  lemma OpenedIsConserved(limit: nat, max: nat)
    ensures Conserved(Opened(limit, max))
  {
  }

  // ---------------------------------------------------------------- what the bytes are

  /** What the stream was given are the bytes of the frames the session let go, all of them until it is abandoned. */
  ghost predicate FromFrames(p: Pipe) {
    p.queued <= Bytes(p.sys.drained) && (p.active ==> p.queued == Bytes(p.sys.drained))
  }

  lemma {:induction false} BytesAppend(a: seq<OutFrame>, b: seq<OutFrame>)
    ensures Bytes(a + b) == Bytes(a) + Bytes(b)
    decreases |b|
  {
    hide Bytes, SizeOf, WebSocketFrames.Encode;
    if b == [] {
      NoFramesNoSize();
      assert a + b == a && Bytes(b) == [];
    } else {
      var front, last := b[..|b| - 1], b[|b| - 1];
      BytesAppend(a, front);
      assert a + b == a + front + [last] && b == front + [last];
      SizeOfSnoc(a + front, last);
      SizeOfSnoc(front, last);
      var frame := WebSocketFrames.Encode(last.op, last.payload);
      assert Bytes(a) + Bytes(front) + frame == Bytes(a) + (Bytes(front) + frame);
    }
  }

  lemma LocalDrainsNothing(sys: System, a: Action)
    requires Internal(a)
    ensures Step(sys, a).drained == sys.drained
  {
  }

  lemma NextFromFrames(p: Pipe, e: Event)
    requires WellFormed(p.stream) && FromFrames(p) && Allowed(e)
    ensures FromFrames(Next(p, e))
  {
    hide Bytes, Internal, Chunk, AfterRead, Accept, WellFormed;
    match e
    case Local(a) =>
      LocalDrainsNothing(p.sys, a);
      hide Step;
    case Flush(accepted) =>
      BytesAppend(p.sys.drained, p.sys.session.frames);
      assert p.queued + [] == p.queued;
    case _ =>
  }

  lemma {:induction false} RunFromFrames(p: Pipe, events: seq<Event>)
    requires Conserved(p) && FromFrames(p) && forall e :: e in events ==> Allowed(e)
    ensures FromFrames(RunEvents(p, events))
    decreases |events|
  {
    hide Next, Inv, SizeOf, Unread, FromFrames;
    if events != [] {
      NextKeeps(p, events[0]);
      NextFromFrames(p, events[0]);
      RunFromFrames(Next(p, events[0]), events[1..]);
    }
  }

  /**
   Any run over a fresh HTTP/2 stream: what was handed out, followed by what is still unread, is everything
   queued, and that is the front of a series of whole frames with at most one Close and no data behind it - the
   whole series, unless the stream was abandoned. The counter is exactly what is buffered, unread or has been
   dropped with its reservation, and never exceeds its maximum by more than 127.
   */
  lemma BytesAreConserved(limit: nat, max: nat, events: seq<Event>)
    requires forall e :: e in events ==> Allowed(e)
    ensures Conserved(Opened(limit, max))
    ensures var q := RunEvents(Opened(limit, max), events);
            && WellFormed(q.stream) && q.handed + Unread(q.stream) == q.queued
            && q.queued <= Bytes(q.sys.drained) && (q.active ==> q.queued == Bytes(q.sys.drained))
            && ClosesOnce(q.sys.drained + q.sys.session.frames, q.sys.session.closeSent)
            && q.sys.session.transport.Some?
            && q.sys.session.transport.value.pending ==
               SizeOf(q.sys.session.frames) + |Unread(q.stream)| + q.sys.session.dropped + q.lost
            && q.sys.session.transport.value.pending <= q.sys.session.transport.value.max + 127
  {
    hide RunEvents;
    OpenedIsConserved(limit, max);
    RunConserves(Opened(limit, max), events);
    RunFromFrames(Opened(limit, max), events);
  }
}
