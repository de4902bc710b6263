/**
 The sending side of a WebSocket connection: the owner-thread session, the bounded cross-thread command
 queue and the byte budget of the transport. Buffers are described by the frames they hold; the session
 object is proved to hold exactly their bytes.
 */
module WebSocketSession {
  import opened Common
  import opened WebSocketFrames

  datatype OutFrame = OutFrame(op: Opcode, payload: seq<byte>)

  function Size(f: OutFrame): nat { HeaderSize(|f.payload|) + |f.payload| }

  function SizeOf(frames: seq<OutFrame>): nat {
    if frames == [] then 0 else SizeOf(frames[..|frames| - 1]) + Size(frames[|frames| - 1])
  }

  function Bytes(frames: seq<OutFrame>): (r: seq<byte>)
    ensures |r| == SizeOf(frames)
  {
    if frames == [] then []
    else Bytes(frames[..|frames| - 1]) + Encode(frames[|frames| - 1].op, frames[|frames| - 1].payload)
  }

  function Ascii(text: string): seq<byte> { seq(|text|, i requires 0 <= i < |text| => text[i] as int % 256) }

  // ---------------------------------------------------------------- transport budget

  datatype Transport = Transport(max: nat, pending: nat)

  predicate Fits(t: Option<Transport>, bytes: nat) {
    t.Some? ==> bytes <= t.value.max && t.value.pending <= t.value.max - bytes
  }

  function Reserved(t: Option<Transport>, bytes: nat): Option<Transport> {
    if t.None? then None else Some(t.value.(pending := t.value.pending + bytes))
  }

  /** Releasing more than is pending stops at zero. */
  function Released(t: Transport, bytes: nat): Transport {
    t.(pending := if bytes >= t.pending then 0 else t.pending - bytes)
  }

  class TransportBackpressure {
    const max: nat
    var pending: nat

    constructor (max: nat)
      ensures this.max == max && pending == 0
    {
      this.max := max;
      pending := 0;
    }

    function View(): Transport
      reads this
    {
      Transport(max, pending)
    }

    method TryReserve(bytes: nat, force: bool) returns (ok: bool)
      modifies this
      ensures ok == (force || Fits(Some(old(View())), bytes))
      ensures Some(View()) == if ok then Reserved(Some(old(View())), bytes) else Some(old(View()))
    {
      if !force && (bytes > max || pending > max - bytes) { return false; }
      pending := pending + bytes;
      return true;
    }

    method Release(bytes: nat)
      modifies this
      ensures View() == Released(old(View()), bytes)
    {
      pending := if bytes >= pending then 0 else pending - bytes;
    }
  }

  // ---------------------------------------------------------------- the session's specification

  /** `dropped` counts the bytes of buffered frames that gave way to a close frame. */
  datatype SessionState = SessionState(
    frames: seq<OutFrame>, limit: nat, closeSent: bool, overloaded: bool, transport: Option<Transport>, dropped: nat)

  function Push(s: SessionState, f: OutFrame): SessionState {
    s.(frames := s.frames + [f], transport := Reserved(s.transport, Size(f)))
  }

  function CloseFrame(code: nat, reason: seq<byte>): (f: OutFrame)
    ensures Size(f) <= 127
  {
    OutFrame(Close, BigEndian(code, 2) + if |reason| > 123 then reason[..123] else reason)
  }

  /** A close frame is always sent, once; frames still buffered make room for it if they must. */
  function CloseSession(s: SessionState, code: nat, reason: seq<byte>): SessionState {
    if s.closeSent then s
    else
      var f := CloseFrame(code, reason);
      Push(RoomFor(s, f), f).(closeSent := true)
  }

  function RoomFor(s: SessionState, f: OutFrame): SessionState {
    if SizeOf(s.frames) + Size(f) > s.limit then s.(frames := [], dropped := s.dropped + SizeOf(s.frames)) else s
  }

  const QUEUE_FULL := "Outbound queue limit exceeded"
  const FLOW_FULL := "Transport flow-control limit exceeded"

  predicate Admits(s: SessionState, f: OutFrame) {
    SizeOf(s.frames) + Size(f) <= s.limit && Fits(s.transport, Size(f))
  }

  function SendFrame(s: SessionState, f: OutFrame): SessionState {
    if SizeOf(s.frames) + Size(f) > s.limit then CloseSession(s.(overloaded := true), 1013, Ascii(QUEUE_FULL))
    else if !Fits(s.transport, Size(f)) then CloseSession(s.(overloaded := true), 1013, Ascii(FLOW_FULL))
    else Push(s, f)
  }

  /** Text and binary frames are refused after a close; a pong is not. */
  function SendData(s: SessionState, f: OutFrame): SessionState {
    if s.closeSent then s else SendFrame(s, f)
  }

  // ---------------------------------------------------------------- the session object

  lemma NoFramesNoSize()
    ensures SizeOf([]) == 0
  {
  }

  lemma SizeOfSnoc(frames: seq<OutFrame>, f: OutFrame)
    ensures SizeOf(frames + [f]) == SizeOf(frames) + Size(f)
    ensures Bytes(frames + [f]) == Bytes(frames) + Encode(f.op, f.payload)
  {
    assert (frames + [f])[..|frames|] == frames;
  }

  /** Section 5.5.1 of RFC 6455: the code in network order, and as much of the reason as a control frame holds. */
  function ClosePayload(code: nat, reason: seq<byte>): (payload: seq<byte>)
    ensures |payload| <= 125
  {
    [code / 256 % 256, code % 256] + reason[..Min(123, |reason|)]
  }

  lemma CloseFrameIs(code: nat, reason: seq<byte>)
    ensures CloseFrame(code, reason) == OutFrame(Close, ClosePayload(code, reason))
  {
    BigEndianAt(code, 2, 0);
    BigEndianAt(code, 2, 1);
    OneByte();
    assert reason[..Min(123, |reason|)] == if |reason| > 123 then reason[..123] else reason;
  }

  lemma OneByte()
    ensures Pow256(1) == 256 && Pow256(0) == 1
  {
    assert Pow256(0) == 1;
  }

  class Session {
    const limit: nat
    const transport: TransportBackpressure?
    var outbound: seq<byte>
    var closeSent: bool
    var overloaded: bool
    ghost var frames: seq<OutFrame>
    ghost var dropped: nat

    ghost predicate Valid()
      reads this
    {
      outbound == Bytes(frames)
    }

    ghost function View(): SessionState
      reads this, transport
    {
      SessionState(frames, limit, closeSent, overloaded, if transport == null then None else Some(transport.View()),
                   dropped)
    }

    constructor (limit: nat, transport: TransportBackpressure?)
      ensures this.limit == limit && this.transport == transport
      ensures Valid() && frames == [] && !closeSent && !overloaded && dropped == 0
    {
      this.limit := limit;
      this.transport := transport;
      outbound, closeSent, overloaded, frames, dropped := [], false, false, [], 0;
    }

    method WriteLength(size: nat) returns (field: seq<byte>)
      ensures field == LengthField(size)
    {
      if size <= 125 { return [size]; }
      if size <= 0xFFFF {
        var two := WriteBigEndian(size, 2);
        return [126] + two;
      }
      var eight := WriteBigEndian(size, 8);
      field := [127] + eight;
    }

    method WriteBigEndian(n: nat, k: nat) returns (bytes: seq<byte>)
      ensures bytes == BigEndian(n, k)
    {
      bytes := [];
      for i := 0 to k
        invariant bytes == BigEndian(n, k)[..i]
      {
        BigEndianAt(n, k, i);
        bytes := bytes + [n / Pow256(k - 1 - i) % 256];
      }
      assert BigEndian(n, k)[..k] == BigEndian(n, k);
    }

    method Append(op: Opcode, payload: seq<byte>)
      requires Valid()
      modifies this`outbound, this`frames
      ensures Valid() && frames == old(frames) + [OutFrame(op, payload)]
      ensures outbound == old(outbound) + Encode(op, payload)
    {
      hide LengthField, Bytes;
      var field := WriteLength(|payload|);
      outbound := outbound + ([128 + OpcodeValue(op)] + field + payload);
      SizeOfSnoc(frames, OutFrame(op, payload));
      frames := frames + [OutFrame(op, payload)];
    }

    method SendFrameBytes(op: Opcode, payload: seq<byte>, force: bool) returns (sent: bool)
      requires Valid()
      modifies this, transport
      ensures Valid()
      ensures sent == (force || Admits(old(View()), OutFrame(op, payload)))
      ensures !force ==>
                sent == (|old(outbound)| + |Encode(op, payload)| <= limit &&
                         (transport != null ==> old(transport.pending) + |Encode(op, payload)| <= transport.max))
      ensures sent ==> outbound == old(outbound) + Encode(op, payload)
      ensures sent && transport != null ==> transport.pending == old(transport.pending) + |Encode(op, payload)|
      ensures !sent ==> overloaded && closeSent
      ensures View() == if force then Push(old(View()), OutFrame(op, payload))
              else SendFrame(old(View()), OutFrame(op, payload))
      decreases if force then 0 else 2
    {
      hide Bytes, SizeOf, HeaderSize, Ascii, CloseFrame, Encode;
      var size := HeaderSize(|payload|) + |payload|;
      if !force && |outbound| + size > limit {
        overloaded := true;
        var _ := CloseBytes(1013, Ascii(QUEUE_FULL));
        return false;
      }
      if transport != null {
        var reserved := transport.TryReserve(size, force);
        if !reserved {
          overloaded := true;
          var _ := CloseBytes(1013, Ascii(FLOW_FULL));
          return false;
        }
      }
      Append(op, payload);
      sent := true;
    }

    method CloseBytes(code: nat, reason: seq<byte>) returns (sent: bool)
      requires Valid()
      modifies this, transport
      ensures Valid() && sent == !old(closeSent) && closeSent && View() == CloseSession(old(View()), code, reason)
      ensures sent ==>
                var frame := Encode(Close, ClosePayload(code, reason));
                outbound == (if |old(outbound)| + |frame| > limit then [] else old(outbound)) + frame
      decreases 1
    {
      hide Bytes, SizeOf, Ascii, SendFrame, BigEndian, Encode, ClosePayload;
      if closeSent { return false; }
      var text := if |reason| > 123 then reason[..123] else reason;
      var head := WriteBigEndian(code, 2);
      var payload := head + text;
      CloseFrameIs(code, reason);
      ghost var f := CloseFrame(code, reason);
      assert f == OutFrame(Close, payload) && Size(f) == 2 + |payload|;
      MakeRoom(2 + |payload|);
      var _ := SendFrameBytes(Close, payload, true);
      closeSent := true;
      return true;
    }

    /** A slow peer must still receive the close frame: frames not taken yet give way to it. */
    method MakeRoom(size: nat)
      requires Valid()
      modifies this`outbound, this`frames, this`dropped
      ensures Valid() && frames == if SizeOf(old(frames)) + size > limit then [] else old(frames)
      ensures dropped == old(dropped) + if SizeOf(old(frames)) + size > limit then SizeOf(old(frames)) else 0
      ensures outbound == if |old(outbound)| + size > limit then [] else old(outbound)
    {
      if |outbound| + size > limit {
        dropped := dropped + |outbound|;
        outbound, frames := [], [];
      }
    }

    method SendDataBytes(op: Opcode, payload: seq<byte>) returns (sent: bool)
      requires Valid()
      modifies this, transport
      ensures Valid() && View() == SendData(old(View()), OutFrame(op, payload))
      ensures sent == (!old(closeSent) && Admits(old(View()), OutFrame(op, payload)))
    {
      if closeSent { return false; }
      sent := SendFrameBytes(op, payload, false);
    }

    /** What leaves the session is always a sequence of whole frames. */
    method TakeOutbound() returns (taken: seq<byte>)
      requires Valid()
      modifies this`outbound, this`frames
      ensures Valid() && frames == [] && taken == Bytes(old(frames))
    {
      taken := outbound;
      outbound, frames := [], [];
    }
  }
}
