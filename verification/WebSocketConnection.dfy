/**
 The receiving side of a WebSocket connection: incremental parsing, control frames, fragmentation and
 closing (sections 5.4 and 5.5 of RFC 6455). Calls to the application handler and to the session are
 recorded in a log.
 */
module WebSocketConnection {
  import opened Common
  import opened WebSocketFrames
  import Utf8

  /** Closing texts are either fixed ones of the server or bytes sent by the peer. */
  datatype Reason = Local(text: string) | Peer(bytes: seq<byte>)

  datatype Event =
    | Message(opcode: Opcode, payload: seq<byte>)
    | SendPong(payload: seq<byte>)
    | SendClose(code: nat, reason: Reason)
    | Notified(code: nat, reason: Reason)

  datatype State = State(
    fragmented: bool, opcode: Opcode, payload: seq<byte>, closed: bool, notified: bool, log: seq<Event>)

  const INITIAL := State(false, Continuation, [], false, false, [])

  datatype Error = Error(code: nat, text: string)

  // ---------------------------------------------------------------- one frame

  predicate ValidCloseCode(code: nat) {
    (1000 <= code <= 1014 && code != 1004 && code != 1005 && code != 1006 && code != 1015) || 3000 <= code <= 4999
  }

  /** The session sends a close frame (unless it already has), and the handler hears of it once. */
  function CloseWith(s: State, code: nat, reason: Reason): State {
    s.(closed := true, notified := true,
       log := s.log + [SendClose(code, reason)] + if s.notified then [] else [Notified(code, reason)])
  }

  function Fail(s: State, code: nat, text: string): State { CloseWith(s, code, Local(text)) }

  function ProcessClose(s: State, payload: seq<byte>): State {
    if |payload| == 1 then Fail(s, 1002, "Invalid close payload")
    else if |payload| == 0 then CloseWith(s, 1000, Peer([]))
    else
      var code := FromBigEndian(payload[..2]);
      if !ValidCloseCode(code) || !Utf8.WellFormed(payload[2..]) then Fail(s, 1002, "Invalid close payload")
      else CloseWith(s, code, Peer(payload[2..]))
  }

  function ProcessContinuation(s: State, fin: bool, payload: seq<byte>, limit: nat): State {
    if !s.fragmented then Fail(s, 1002, "Unexpected continuation frame")
    else if |s.payload| + |payload| > limit then Fail(s, 1009, "Message too large")
    else
      var whole := s.payload + payload;
      if !fin then s.(payload := whole)
      else if s.opcode.Text? && !Utf8.WellFormed(whole)
          then Fail(s.(payload := whole), 1007, "Invalid UTF-8 text message")
      else s.(fragmented := false, opcode := Continuation, payload := [], log := s.log + [Message(s.opcode, whole)])
  }

  function ProcessData(s: State, fin: bool, opcode: Opcode, payload: seq<byte>): State {
    if s.fragmented then Fail(s, 1002, "Expected continuation frame")
    else if !fin then s.(fragmented := true, opcode := opcode, payload := payload)
    else if opcode.Text? && !Utf8.WellFormed(payload) then Fail(s, 1007, "Invalid UTF-8 text message")
    else s.(log := s.log + [Message(opcode, payload)])
  }

  function Process(s: State, fin: bool, opcode: Opcode, payload: seq<byte>, limit: nat): State {
    match opcode
    case Ping => s.(log := s.log + [SendPong(payload)])
    case Pong => s
    case Close => ProcessClose(s, payload)
    case Continuation => ProcessContinuation(s, fin, payload, limit)
    case _ => ProcessData(s, fin, opcode, payload)
  }

  // ---------------------------------------------------------------- a stretch of input

  datatype Outcome = Outcome(state: State, rest: seq<byte>)

  /** Frames are processed until one is incomplete or the connection is closed. */
  function Run(s: State, input: seq<byte>, limit: nat): (r: Outcome)
    decreases |input|
  {
    if s.closed then Outcome(s, input)
    else
      match ParseFrame(input, limit)
      case NeedMore => Outcome(s, input)
      case Bad(code, reason) => Outcome(Fail(s, code, reason), input)
      case Whole(fin, opcode, payload, total) => Run(Process(s, fin, opcode, payload, limit), input[total..], limit)
  }

  /** The protocol error, if that is how the connection ended. */
  function ErrorOf(s: State): Option<Error> {
    if s.closed && s.log != [] && s.log[|s.log| - 1].Notified? && s.log[|s.log| - 1].reason.Local?
    then Some(Error(s.log[|s.log| - 1].code, s.log[|s.log| - 1].reason.text))
    else None
  }

  // ---------------------------------------------------------------- the connection object

  method ReadBigEndian(bytes: seq<byte>) returns (value: nat)
    ensures value == FromBigEndian(bytes)
  {
    value := 0;
    for i := 0 to |bytes|
      invariant value == FromBigEndian(bytes[..i])
    {
      assert bytes[..i + 1][..i] == bytes[..i];
      value := value * 256 + bytes[i];
    }
    assert bytes[..|bytes|] == bytes;
  }

  method Unmask(data: seq<byte>, key: seq<byte>) returns (payload: seq<byte>)
    requires |key| == 4
    ensures payload == Masked(data, key)
  {
    payload := [];
    for i := 0 to |data|
      invariant |payload| == i && forall k :: 0 <= k < i ==> payload[k] == Masked(data, key)[k]
    {
      payload := payload + [Xor(data[i], key[i % 4])];
    }
  }

  method ReadLength(window: seq<byte>) returns (length: Length)
    requires |window| >= 2
    ensures length == ParseLength(window)
  {
    var short := window[1] % 128;
    length := Length(short, 2);
    if short == 126 {
      if |window| < 4 { return LengthMore; }
      var size := ReadBigEndian(window[2..4]);
      length := Length(size, 4);
    } else if short == 127 {
      if |window| < 10 { return LengthMore; }
      if window[2] >= 128 { return LengthBad; }
      var size := ReadBigEndian(window[2..10]);
      length := Length(size, 10);
    }
  }

  method ReadFrame(window: seq<byte>, limit: nat) returns (frame: Parse)
    ensures frame == ParseFrame(window, limit)
    ensures frame.Whole? ==> IsFrame(window, limit, frame.fin, frame.opcode, frame.payload, frame.total)
  {
    hide ParseLength, Masked, OpcodeOf, IsFrame;
    AcceptedIsFrame(window, limit);
    if |window| < 2 { return NeedMore; }
    var first, second := window[0], window[1];
    var fin := first >= 128;
    if first % 128 / 16 != 0 { return Bad(1002, "RSV bits require an extension"); }
    var opcode := OpcodeOf(first % 16);
    if opcode.None? { return Bad(1002, "Unsupported opcode"); }
    if second < 128 { return Bad(1002, "Client frames must be masked"); }
    var length := ReadLength(window);
    if length.LengthMore? { return NeedMore; }
    if length.LengthBad? { return Bad(1002, "Invalid 64-bit payload length"); }
    if length.size > limit { return Bad(1009, "Message too large"); }
    if IsControl(opcode.value) && (!fin || length.size > 125) { return Bad(1002, "Invalid control frame"); }
    var total := length.header + 4 + length.size;
    if |window| < total { return NeedMore; }
    var payload := Unmask(window[length.header + 4..total], window[length.header..length.header + 4]);
    frame := Whole(fin, opcode.value, payload, total);
  }

  method CheckUtf8(bytes: seq<byte>) returns (valid: bool)
    ensures valid == Utf8.WellFormed(bytes)
  {
    Utf8.WellFormedIsEncoded(bytes);
    valid := Utf8.ValidUtf8(bytes);
  }

  class Connection {
    const limit: nat
    var input: seq<byte>
    var fragmented: bool
    var fragmentedOpcode: Opcode
    var fragmentedPayload: seq<byte>
    var closed: bool
    var closeNotified: bool
    var log: seq<Event>

    function View(): State
      reads this
    {
      State(fragmented, fragmentedOpcode, fragmentedPayload, closed, closeNotified, log)
    }

    /** The handler has been told of a close exactly when the connection is closed, and last of all. */
    ghost predicate Valid()
      reads this
    {
      && closed == closeNotified
      && (closed ==> log != [] && log[|log| - 1].Notified?)
      && forall i :: 0 <= i < |log| && log[i].Notified? ==> i == |log| - 1 && closed
    }

    constructor (limit: nat)
      ensures this.limit == limit && input == [] && View() == INITIAL && Valid()
    {
      this.limit := limit;
      input, fragmented, fragmentedOpcode, fragmentedPayload := [], false, Continuation, [];
      closed, closeNotified, log := false, false, [];
    }

    method Feed(data: seq<byte>) returns (error: Option<Error>)
      requires Valid()
      modifies this
      ensures Valid()
      ensures old(closed) ==> error == None && View() == old(View()) && input == old(input)
      ensures !old(closed) ==>
                var outcome := Run(old(View()), old(input) + data, limit);
                View() == outcome.state && error == ErrorOf(View()) && (!closed ==> input == outcome.rest)
    {
      hide ParseFrame, Process, ErrorOf;
      if closed { return None; }
      input := input + data;
      ghost var outcome := Run(View(), input, limit);
      var offset := 0;
      assert input[0..] == input;
      while true
        invariant !closed && Valid() && 0 <= offset <= |input|
        invariant outcome == Run(View(), input[offset..], limit)
        decreases |input| - offset
      {
        ghost var before := View();
        var frame := ReadFrame(input[offset..], limit);
        if frame.NeedMore? { break; }
        if frame.Bad? {
          error := ProtocolClose(frame.code, frame.reason);
          return;
        }
        assert input[offset..][frame.total..] == input[offset + frame.total..];
        error := ProcessFrame(frame.fin, frame.opcode, frame.payload);
        offset := offset + frame.total;
        assert outcome == Run(View(), input[offset..], limit);
        if error.Some? || closed {
          input := input[offset..];
          return;
        }
      }
      OpenHasNoError(View());
      error := None;
      input := input[offset..];
    }

    method ProcessFrame(fin: bool, opcode: Opcode, payload: seq<byte>) returns (error: Option<Error>)
      requires Valid() && !closed
      modifies this`fragmented, this`fragmentedOpcode, this`fragmentedPayload, this`closed, this`closeNotified, this`log
      ensures Valid() && View() == Process(old(View()), fin, opcode, payload, limit) && error == ErrorOf(View())
      ensures error.Some? ==> closed
    {
      error := None;
      if opcode == Ping {
        log := log + [SendPong(payload)];
      } else if opcode == Pong {
      } else if opcode == Close {
        error := ProcessCloseFrame(payload);
      } else if opcode == Continuation {
        if !fragmented { error := ProtocolClose(1002, "Unexpected continuation frame"); return; }
        if |fragmentedPayload| + |payload| > limit { error := ProtocolClose(1009, "Message too large"); return; }
        fragmentedPayload := fragmentedPayload + payload;
        if !fin { return; }
        var valid := CheckUtf8(fragmentedPayload);
        if fragmentedOpcode == Text && !valid { error := ProtocolClose(1007, "Invalid UTF-8 text message"); return; }
        log := log + [Message(fragmentedOpcode, fragmentedPayload)];
        fragmentedPayload, fragmented, fragmentedOpcode := [], false, Continuation;
      } else {
        if fragmented { error := ProtocolClose(1002, "Expected continuation frame"); return; }
        if !fin {
          fragmented, fragmentedOpcode, fragmentedPayload := true, opcode, payload;
          return;
        }
        var valid := CheckUtf8(payload);
        if opcode == Text && !valid { error := ProtocolClose(1007, "Invalid UTF-8 text message"); return; }
        log := log + [Message(opcode, payload)];
      }
    }

    method ProcessCloseFrame(payload: seq<byte>) returns (error: Option<Error>)
      requires Valid() && !closed
      modifies this`closed, this`closeNotified, this`log
      ensures Valid() && View() == ProcessClose(old(View()), payload) && error == ErrorOf(View()) && closed
    {
      if |payload| == 1 { error := ProtocolClose(1002, "Invalid close payload"); return; }
      var code, reason := 1000, [];
      if |payload| >= 2 {
        code := ReadBigEndian(payload[..2]);
        var valid := CheckUtf8(payload[2..]);
        if !ValidCloseCode(code) || !valid { error := ProtocolClose(1002, "Invalid close payload"); return; }
        reason := payload[2..];
      }
      log := log + [SendClose(code, Peer(reason))] + [Notified(code, Peer(reason))];
      closed, closeNotified := true, true;
      error := None;
    }

    method ProtocolClose(code: nat, text: string) returns (error: Option<Error>)
      requires Valid() && !closed
      modifies this`closed, this`closeNotified, this`log
      ensures Valid() && View() == Fail(old(View()), code, text) && error == Some(Error(code, text)) == ErrorOf(View())
    {
      log := log + [SendClose(code, Local(text))] + [Notified(code, Local(text))];
      closed, closeNotified := true, true;
      error := Some(Error(code, text));
    }
  }

  lemma OpenHasNoError(s: State)
    ensures !s.closed ==> ErrorOf(s) == None
  {
  }
}
