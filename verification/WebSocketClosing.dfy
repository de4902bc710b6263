/** The two sides of a connection together: what the peer reads from the frames a session writes. */
module WebSocketClosing {
  import opened Common
  import opened WebSocketFrames
  import opened WebSocketSession
  import WebSocketConnection
  import WebSocketStreams
  import WebSocketQueue
  import Utf8

  function Shortened(reason: seq<byte>): seq<byte> { if |reason| <= 123 then reason else reason[..123] }

  /** The codes a Close frame may carry (section 7.4 of RFC 6455 and the registry after it). */
  predicate Permitted(code: nat) {
    code in {1000, 1001, 1002, 1003, 1007, 1008, 1009, 1010, 1011, 1012, 1013, 1014} || 3000 <= code < 5000
  }

  /** Status and reason are read back exactly when the code is permitted and the cut reason is still UTF-8. */
  lemma StatusReadBack(code: nat, reason: seq<byte>)
    requires code < 65536
    ensures var payload := CloseFrame(code, reason).payload;
            && WebSocketStreams.CloseStatus(payload) ==
               (if Permitted(code) && Utf8.WellFormed(Shortened(reason)) then code else 1002)
            && payload[2..] == Shortened(reason)
  {
    hide Utf8.WellFormed, BigEndian, FromBigEndian;
    var payload := CloseFrame(code, reason).payload;
    assert payload == BigEndian(code, 2) + Shortened(reason);
    assert payload[..2] == BigEndian(code, 2) && payload[2..] == Shortened(reason);
    Pow256Values();
    BigEndianRoundTrip(code, 2);
  }

  /**
   A Close frame of the session, masked, closes any open connection that receives it; the handler there hears the code
   and the reason given, or a protocol error where the code is not permitted or the reason was cut inside a character.
   */
  lemma CloseIsReadBack(
    s: WebSocketConnection.State, code: nat, reason: seq<byte>, key: WebSocketStreams.Key, rest: seq<byte>, limit: nat)
    requires !s.closed && !s.notified && code < 65536 && 125 <= limit
    ensures var wire := WebSocketStreams.FrameOnTheWire(
                          true, Close, WebSocketStreams.Piece(CloseFrame(code, reason).payload, key));
            var after := WebSocketConnection.Run(s, wire + rest, limit).state;
            var good := Permitted(code) && Utf8.WellFormed(Shortened(reason));
            var status := if good then code else 1002;
            var text := if good then WebSocketConnection.Peer(Shortened(reason))
                        else WebSocketConnection.Local("Invalid close payload");
            && after.closed
            && after.log == s.log + [WebSocketConnection.SendClose(status, text),
                                     WebSocketConnection.Notified(status, text)]
  {
    hide Utf8.WellFormed, FromBigEndian, BigEndian, WebSocketConnection.Run, WebSocketStreams.FrameOnTheWire;
    var payload := CloseFrame(code, reason).payload;
    assert payload == BigEndian(code, 2) + Shortened(reason) && 2 <= |payload| <= 125;
    assert payload[..2] == BigEndian(code, 2) && payload[2..] == Shortened(reason);
    Pow256Values();
    BigEndianRoundTrip(code, 2);
    var piece := WebSocketStreams.Piece(payload, key);
    WebSocketStreams.FrameIsProcessed(s, true, Close, piece, rest, limit);
    WebSocketStreams.ClosedStays(WebSocketConnection.Process(s, true, Close, payload, limit), rest, limit);
  }

  // ---------------------------------------------------------------- a reason cut inside a character

  lemma {:induction false} AsciiFront(front: seq<byte>, tail: seq<byte>)
    requires forall i :: 0 <= i < |front| ==> front[i] < 128
    ensures Utf8.WellFormed(front + tail) == Utf8.WellFormed(tail)
  {
    if front == [] {
      assert front + tail == tail;
    } else {
      assert (front + tail)[1..] == front[1..] + tail;
      AsciiFront(front[1..], tail);
    }
  }

  /** 122 letters and one two-byte character: readable as given, unreadable after the cut at 123 bytes. */
  lemma CutInsideCharacter()
    ensures var reason := seq(122, _ => 97) + [0xC3, 0xA9];
            && Utf8.WellFormed(reason) && !Utf8.WellFormed(Shortened(reason))
            && WebSocketStreams.CloseStatus(CloseFrame(1000, reason).payload) == 1002
  {
    hide CloseFrame, WebSocketStreams.CloseStatus;
    var front: seq<byte> := seq(122, _ => 97);
    var reason := front + [0xC3, 0xA9];
    AsciiFront(front, [0xC3, 0xA9]);
    AsciiFront(front, [0xC3]);
    assert Shortened(reason) == front + [0xC3];
    assert Utf8.Character([0xC3]) == 0;
    Utf8.EncodedIsCharacter(0xE9, []);
    assert [0xC3, 0xA9] + [] == [0xC3, 0xA9];
    assert [0xC3, 0xA9][2..] == [];
    StatusReadBack(1000, reason);
  }

  // ---------------------------------------------------------------- overload

  lemma AsciiIsWellFormed(text: string)
    requires forall i :: 0 <= i < |text| ==> text[i] as int < 128
    ensures Utf8.WellFormed(Ascii(text))
  {
    AsciiFront(Ascii(text), []);
    assert Ascii(text) + [] == Ascii(text);
  }

  /**
   A frame that does not fit ends the connection instead of being buffered: the last frame of the session is a Close
   that tells the peer 1013, and only that frame is added.
   */
  lemma OverloadIsTold(s: SessionState, f: OutFrame)
    requires !s.closeSent
    requires || SizeOf(s.frames) + Size(f) > s.limit
             || (s.transport.Some? && s.transport.value.pending + Size(f) > s.transport.value.max)
    ensures var after := SendFrame(s, f);
            && after.overloaded && after.closeSent && after.frames != []
            && var last := after.frames[|after.frames| - 1];
            && last.op.Close? && WebSocketStreams.CloseStatus(last.payload) == 1013
            && (after.frames[..|after.frames| - 1] == s.frames || after.frames == [last])
  {
    hide SizeOf, Size, Ascii, WebSocketStreams.CloseStatus, CloseFrame;
    OverloadStatus(QUEUE_FULL);
    OverloadStatus(FLOW_FULL);
  }

  lemma OverloadStatus(text: string)
    requires |text| <= 123 && forall i :: 0 <= i < |text| ==> text[i] as int < 128
    ensures var f := CloseFrame(1013, Ascii(text));
            f.op.Close? && WebSocketStreams.CloseStatus(f.payload) == 1013
  {
    hide Utf8.WellFormed, WebSocketStreams.CloseStatus;
    AsciiIsWellFormed(text);
    StatusReadBack(1013, Ascii(text));
  }

  // ---------------------------------------------------------------- what is queued is sent

  function Commands(frames: seq<OutFrame>): seq<WebSocketQueue.Command> {
    seq(|frames|, i requires 0 <= i < |frames| => WebSocketQueue.Data(frames[i].op, frames[i].payload))
  }

  predicate RoomForAll(s: SessionState, size: nat) {
    && !s.closeSent && SizeOf(s.frames) + size <= s.limit
    && (s.transport.Some? ==> s.transport.value.pending + size <= s.transport.value.max)
  }

  /** Commands executed while there is room leave as frames, all of them and in their order, and nothing else does. */
  lemma {:induction false} QueuedIsSent(s: SessionState, frames: seq<OutFrame>)
    requires RoomForAll(s, SizeOf(frames))
    ensures WebSocketQueue.ExecuteAll(s, Commands(frames)) == PushAll(s, frames)
    decreases |frames|
  {
    hide SizeOf, Size, WebSocketQueue.ExecuteAll, WebSocketQueue.Execute, SendFrame, Commands, Bytes, Encode;
    ExecuteCommands(s, frames);
    if frames == [] {
      NoFramesNoSize();
      assert s.frames + [] == s.frames;
    } else {
      var f, more := frames[0], frames[1..];
      SizeOfCons(frames);
      SizeOfSnoc(s.frames, f);
      AdmittedIsPushed(s, f);
      var next := Push(s, f);
      QueuedIsSent(next, more);
      assert next.frames + more == s.frames + frames;
    }
  }

  function PushAll(s: SessionState, frames: seq<OutFrame>): SessionState {
    s.(frames := s.frames + frames, transport := Reserved(s.transport, SizeOf(frames)))
  }

  lemma ExecuteCommands(s: SessionState, frames: seq<OutFrame>)
    ensures frames == [] ==> WebSocketQueue.ExecuteAll(s, Commands(frames)) == s
    ensures frames != [] ==>
              WebSocketQueue.ExecuteAll(s, Commands(frames)) ==
              WebSocketQueue.ExecuteAll(
                WebSocketQueue.Execute(s, WebSocketQueue.Data(frames[0].op, frames[0].payload)), Commands(frames[1..]))
  {
    hide WebSocketQueue.Execute;
    if frames != [] { assert Commands(frames)[1..] == Commands(frames[1..]); }
  }

  /** Within both limits a text or binary frame is buffered behind the others and paid for. */
  lemma AdmittedIsPushed(s: SessionState, f: OutFrame)
    requires RoomForAll(s, Size(f))
    ensures WebSocketQueue.Execute(s, WebSocketQueue.Data(f.op, f.payload)) == Push(s, f) == SendFrame(s, f)
  {
    hide SizeOf, Size;
  }

  lemma {:induction false} SizeOfCons(frames: seq<OutFrame>)
    requires frames != []
    ensures SizeOf(frames) == Size(frames[0]) + SizeOf(frames[1..])
    decreases |frames|
  {
    var front, last := frames[..|frames| - 1], frames[|frames| - 1];
    if |frames| == 1 {
      assert front == [] && frames[1..] == [];
    } else {
      SizeOfCons(front);
      assert frames[1..][..|frames| - 2] == front[1..];
    }
  }

  /** A Close behind them is the last frame, and what follows it in the queue is not sent. */
  lemma {:induction false} NothingAfterClose(s: SessionState, commands: seq<WebSocketQueue.Command>)
    requires s.closeSent
    ensures WebSocketQueue.ExecuteAll(s, commands) == s
    decreases |commands|
  {
    if commands != [] { NothingAfterClose(s, commands[1..]); }
  }
}
